/**
 * The code tables and the bit segmentation of the `EncodedTextDisplay`
 * component.
 *
 * `charToCodeMap` records every leaf's path under its symbols, by the same
 * traversal as the encoder's `getCodes`; `codeToCharMap` swaps keys and
 * values; `encodedChars` reads the encoded bits one at a time and emits the
 * accumulated bits as soon as they name a symbol, dropping whatever is left
 * at the end.
 */
module EncodedTextDisplay {
  import opened Sorting
  import opened Js
  import opened HuffmanNodes
  import opened Encode

  /** `charToCodeMap`: `{}` without a tree, otherwise every leaf's symbols mapped to its path. */
  function CharToCodeMap(huffmanTree: Option<Node>): (m: Object<string>)
    ensures huffmanTree.None? ==> m == []
    ensures huffmanTree.Some? ==> m == FromEntries(Paths(huffmanTree.value, ""))
  {
    if huffmanTree.None? then []
    else
      CodesOfPaths(huffmanTree.value);
      GetCodes(huffmanTree.value, "", [])
  }

  /** The `useMemo` body of `charToCodeMap`: `{}` without a tree, otherwise `traverse(huffmanTree, '')` fills a fresh map. */
  method BuildCharToCodeMap(huffmanTree: Option<Node>) returns (m: Object<string>)
    ensures m == CharToCodeMap(huffmanTree)
  {
    if huffmanTree.None? {
      return [];
    }
    var table := new CodeTable();
    table.GetCodes(huffmanTree.value, "");
    GetCodesAssignsPaths(huffmanTree.value, "", []);
    m := table.codes;
  }

  function Swap(p: Prop<string>): Prop<string> {
    Prop(p.value, p.key)
  }

  /** `.map(([char, code]) => [code, char])` */
  function Swapped(ps: seq<Prop<string>>): (qs: seq<Prop<string>>)
    ensures |qs| == |ps|
    ensures forall i :: 0 <= i < |ps| ==> qs[i] == Swap(ps[i])
  {
    if ps == [] then [] else [Swap(ps[0])] + Swapped(ps[1..])
  }

  /** `codeToCharMap`: the entries of `charToCodeMap` with key and value swapped. */
  function CodeToCharMap(charToCode: Object<string>): (m: Object<string>)
    ensures UniqueKeys(m)
  {
    FromEntries(Swapped(Entries(charToCode)))
  }

  function ValueOf(p: Prop<string>): string {
    p.value
  }

  /** No two properties hold the same value. */
  ghost predicate DistinctValues(o: Object<string>) {
    forall i, j :: 0 <= i < j < |o| ==> o[i].value != o[j].value
  }

  /** With unique keys and values, swapping the enumerated entries gives unique keys again. */
  lemma SwappedEntries(charToCode: Object<string>)
    requires UniqueKeys(charToCode) && DistinctValues(charToCode)
    ensures UniqueKeys(Swapped(Entries(charToCode)))
    ensures CodeToCharMap(charToCode) == Swapped(Entries(charToCode))
  {
    var es := Entries(charToCode);
    var qs := Swapped(es);
    assert DistinctBy(charToCode, ValueOf) by {
      assert forall i :: 0 <= i < |charToCode| ==> ValueOf(charToCode[i]) == charToCode[i].value;
    }
    PermutationKeepsDistinct(charToCode, es, ValueOf);
    forall i, j | 0 <= i < j < |qs| ensures qs[i].key != qs[j].key {
      assert qs[i].key == ValueOf(es[i]) && qs[j].key == ValueOf(es[j]);
    }
    FromUniqueEntries(qs);
  }

  lemma InversionAt(charToCode: Object<string>, k: string, v: string)
    requires UniqueKeys(charToCode) && DistinctValues(charToCode)
    ensures Get(charToCode, k) == Some(v) <==> Get(CodeToCharMap(charToCode), v) == Some(k)
  {
    var es := Entries(charToCode);
    SwappedEntries(charToCode);
    GetIn(charToCode, k, v);
    GetIn(Swapped(es), v, k);
    assert Prop(k, v) in charToCode <==> Prop(k, v) in multiset(es);
    SwappedIn(es, k, v);
  }

  /** `[char, code]` is an entry exactly when `[code, char]` is a swapped entry. */
  lemma SwappedIn(es: seq<Prop<string>>, k: string, v: string)
    ensures Prop(k, v) in es <==> Prop(v, k) in Swapped(es)
  {
    var qs := Swapped(es);
    if Prop(k, v) in es {
      var i :| 0 <= i < |es| && es[i] == Prop(k, v);
      assert qs[i] == Prop(v, k);
    }
    if Prop(v, k) in qs {
      var i :| 0 <= i < |qs| && qs[i] == Prop(v, k);
      assert es[i] == Prop(k, v);
    }
  }

  /**
   * When no two symbols share a code, `codeToCharMap` is the exact inverse
   * of `charToCodeMap`: a symbol maps to a code exactly when that code maps
   * back to the symbol.
   */
  lemma Inversion(charToCode: Object<string>)
    requires UniqueKeys(charToCode) && DistinctValues(charToCode)
    ensures forall k, v :: Get(charToCode, k) == Some(v) <==> Get(CodeToCharMap(charToCode), v) == Some(k)
  {
    forall k, v ensures Get(charToCode, k) == Some(v) <==> Get(CodeToCharMap(charToCode), v) == Some(k) {
      InversionAt(charToCode, k, v);
    }
  }

  /** `codeToCharMap[code]` is truthy: the code names a nonempty symbol string. */
  predicate Known(codeToChar: Object<string>, code: string)
    ensures Known(codeToChar, code) ==> code in Keys(codeToChar)
    ensures Known(codeToChar, code) ==> exists s :: s != "" && Prop(code, s) in codeToChar
  {
    Get(codeToChar, code).Some? && Get(codeToChar, code).value != ""
  }

  /**
   * The segments the loop emits when `current` is already accumulated and
   * `bits` are still to be read; each takes at least one bit.
   */
  function Segments(bits: string, codeToChar: Object<string>, current: string): (segs: seq<string>)
    ensures |segs| <= |bits|
  {
    if bits == [] then []
    else
      var code := current + [bits[0]];
      if Known(codeToChar, code) then [code] + Segments(bits[1..], codeToChar, "")
      else Segments(bits[1..], codeToChar, code)
  }

  /** `encodedChars`: nothing without bits; otherwise the greedy segmentation. */
  method EncodedChars(encodedText: Option<string>, codeToChar: Object<string>) returns (chars: seq<string>)
    ensures encodedText.None? ==> chars == []
    ensures encodedText.Some? ==> chars == Segments(encodedText.value, codeToChar, "")
  {
    if encodedText.None? || encodedText.value == [] {
      return [];
    }
    var bits := encodedText.value;
    chars := [];
    var currentCode := "";
    for i := 0 to |bits|
      invariant chars + Segments(bits[i..], codeToChar, currentCode) == Segments(bits, codeToChar, "")
    {
      SegmentsStep(bits, i, codeToChar, currentCode);
      currentCode := currentCode + [bits[i]];
      if Known(codeToChar, currentCode) {
        SegmentsEmit(chars, currentCode, Segments(bits[i + 1..], codeToChar, ""));
        chars := chars + [currentCode];
        currentCode := "";
      }
    }
  }

  /** Reading bit `i` on top of `current`: emit the code if it is known, else keep gathering. */
  lemma SegmentsStep(bits: string, i: nat, codeToChar: Object<string>, current: string)
    requires i < |bits|
    ensures Segments(bits[i..], codeToChar, current) ==
      var code := current + [bits[i]];
      if Known(codeToChar, code) then [code] + Segments(bits[i + 1..], codeToChar, "")
      else Segments(bits[i + 1..], codeToChar, code)
  {
    assert bits[i..][0] == bits[i] && bits[i..][1..] == bits[i + 1..];
  }

  lemma SegmentsEmit(chars: seq<string>, code: string, rest: seq<string>)
    ensures chars + ([code] + rest) == (chars + [code]) + rest
  {
  }

  // ---------------------------------------------------------------------
  // What the segmentation promises

  function Flatten(segs: seq<string>): string {
    if segs == [] then "" else segs[0] + Flatten(segs[1..])
  }

  /** No nonempty prefix of `r` names a symbol. */
  ghost predicate NoKnownPrefix(codeToChar: Object<string>, r: string) {
    forall j :: 0 < j <= |r| ==> !Known(codeToChar, r[..j])
  }

  /** A segment the loop can emit: nonempty, known, and no shorter prefix of it known. */
  ghost predicate Emittable(codeToChar: Object<string>, s: string) {
    s != [] && Known(codeToChar, s) && NoKnownPrefix(codeToChar, s[..|s| - 1])
  }

  /**
   * A greedy split of `bits`: the segments, joined, are a prefix of `bits`;
   * each is emittable; no nonempty prefix of the dropped rest is known.
   */
  ghost predicate GreedySplit(bits: string, segs: seq<string>, codeToChar: Object<string>) {
    && Flatten(segs) <= bits
    && (forall i :: 0 <= i < |segs| ==> Emittable(codeToChar, segs[i]))
    && NoKnownPrefix(codeToChar, bits[|Flatten(segs)|..])
  }

  lemma GreedyCons(s: string, rest: string, segs: seq<string>, codeToChar: Object<string>)
    requires Emittable(codeToChar, s) && GreedySplit(rest, segs, codeToChar)
    ensures GreedySplit(s + rest, [s] + segs, codeToChar)
  {
    var all := [s] + segs;
    assert all[1..] == segs;
    assert Flatten(all) == s + Flatten(segs);
    assert (s + rest)[|s + Flatten(segs)|..] == rest[|Flatten(segs)|..];
    forall i | 0 <= i < |all| ensures Emittable(codeToChar, all[i]) {
      if i > 0 {
        assert all[i] == segs[i - 1];
      }
    }
  }

  lemma GreedyTail(bits: string, segs: seq<string>, codeToChar: Object<string>)
    requires segs != [] && GreedySplit(bits, segs, codeToChar)
    ensures segs[0] <= bits
    ensures GreedySplit(bits[|segs[0]|..], segs[1..], codeToChar)
  {
    var s := segs[0];
    assert Flatten(segs) == s + Flatten(segs[1..]);
    var rest := bits[|s|..];
    assert bits == s + rest by {
      assert bits[..|s|] == s;
    }
    assert Flatten(segs[1..]) <= rest;
    assert bits[|Flatten(segs)|..] == rest[|Flatten(segs[1..])|..];
    forall i | 0 <= i < |segs[1..]| ensures Emittable(codeToChar, segs[1..][i]) {
      assert segs[1..][i] == segs[i + 1];
    }
  }

  /** Starting from `current` with no known prefix, the loop produces a greedy split. */
  lemma {:induction false} SegmentsGreedyFrom(bits: string, codeToChar: Object<string>, current: string)
    requires NoKnownPrefix(codeToChar, current)
    ensures GreedySplit(current + bits, Segments(bits, codeToChar, current), codeToChar)
  {
    if bits == [] {
      assert current + bits == current;
    } else {
      var code := current + [bits[0]];
      assert current + bits == code + bits[1..] by {
        assert bits == [bits[0]] + bits[1..];
      }
      assert code[..|code| - 1] == current;
      if Known(codeToChar, code) {
        assert NoKnownPrefix(codeToChar, "");
        SegmentsGreedyFrom(bits[1..], codeToChar, "");
        assert "" + bits[1..] == bits[1..];
        GreedyCons(code, bits[1..], Segments(bits[1..], codeToChar, ""), codeToChar);
      } else {
        forall j | 0 < j <= |code| ensures !Known(codeToChar, code[..j]) {
          if j < |code| {
            assert code[..j] == current[..j];
          } else {
            assert code[..j] == code;
          }
        }
        SegmentsGreedyFrom(bits[1..], codeToChar, code);
      }
    }
  }

  /** Every emitted segment names a symbol, the segments are a prefix of the bits, and only an unmatched tail is dropped. */
  lemma SegmentsGreedy(bits: string, codeToChar: Object<string>)
    ensures GreedySplit(bits, Segments(bits, codeToChar, ""), codeToChar)
  {
    assert "" + bits == bits;
    SegmentsGreedyFrom(bits, codeToChar, "");
  }

  /** An emittable prefix of the bits is a known prefix of them. */
  lemma EmittableBlocks(x: string, bits: string, codeToChar: Object<string>)
    requires Emittable(codeToChar, x) && x <= bits
    ensures !NoKnownPrefix(codeToChar, bits)
  {
    assert bits[..|x|] == x;
  }

  /** Two emittable prefixes of the same bits are the same. */
  lemma EmittablePrefixes(x: string, y: string, bits: string, codeToChar: Object<string>)
    requires Emittable(codeToChar, x) && Emittable(codeToChar, y) && x <= bits && y <= bits
    ensures x == y
  {
    ShorterPrefix(x, y, bits);
    ShorterPrefix(y, x, bits);
  }

  lemma ShorterPrefix(x: string, y: string, bits: string)
    ensures x <= bits && y <= bits && |x| < |y| ==> y[..|y| - 1][..|x|] == x
  {
  }

  /** Two greedy splits of the same bits start alike. */
  lemma GreedyFirst(bits: string, a: seq<string>, b: seq<string>, codeToChar: Object<string>)
    requires GreedySplit(bits, a, codeToChar) && GreedySplit(bits, b, codeToChar) && a != []
    ensures b != [] && a[0] == b[0]
  {
    GreedyTail(bits, a, codeToChar);
    assert Emittable(codeToChar, a[0]);
    EmittableBlocks(a[0], bits, codeToChar);
    assert b != [];
    GreedyTail(bits, b, codeToChar);
    assert Emittable(codeToChar, b[0]);
    EmittablePrefixes(a[0], b[0], bits, codeToChar);
  }

  /** The greedy split of a bit string is unique. */
  lemma {:induction false} GreedyUnique(bits: string, a: seq<string>, b: seq<string>, codeToChar: Object<string>)
    requires GreedySplit(bits, a, codeToChar) && GreedySplit(bits, b, codeToChar)
    ensures a == b
    decreases |a|
  {
    if a != [] {
      GreedyFirst(bits, a, b, codeToChar);
      GreedyTail(bits, a, codeToChar);
      GreedyTail(bits, b, codeToChar);
      GreedyUnique(bits[|a[0]|..], a[1..], b[1..], codeToChar);
      assert a == [a[0]] + a[1..] && b == [b[0]] + b[1..];
    } else if b != [] {
      GreedyFirst(bits, b, a, codeToChar);
    }
  }

  /** The segmentation is the one greedy split there is. */
  lemma SegmentsCharacterized(bits: string, codeToChar: Object<string>, segs: seq<string>)
    ensures GreedySplit(bits, segs, codeToChar) <==> segs == Segments(bits, codeToChar, "")
  {
    SegmentsGreedy(bits, codeToChar);
    if GreedySplit(bits, segs, codeToChar) {
      GreedyUnique(bits, segs, Segments(bits, codeToChar, ""), codeToChar);
    }
  }
}
