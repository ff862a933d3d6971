/**
 * `encodeText` and the `POST` handler of the encode route.
 *
 * `getCodes` walks the tree and records, for each leaf, the path from the
 * root ("0" for left, "1" for right) under the leaf's symbols in a shared
 * `codes` object.  The text is then replaced symbol by symbol with its code
 * and the pieces are joined; a symbol without a code is `undefined`, which
 * `join` renders as the empty string.
 */
module Encode {
  import opened Js
  import opened HuffmanNodes
  import opened Frequency

  /** The leaves' symbols with their paths from `code`, left to right. */
  function Paths(t: Node, code: string): (ps: seq<Prop<string>>)
    ensures |ps| == |Fringe(t)|
    ensures forall i :: 0 <= i < |ps| ==> ps[i].key == Fringe(t)[i].symbols
  {
    match t
    case Leaf(symbols, _, _) => [Prop(symbols, code)]
    case Branch(_, _, _, l, r) => Paths(l, code + "0") + Paths(r, code + "1")
  }

  /** A string of '0' and '1' only. */
  predicate Bits(s: string) {
    forall i :: 0 <= i < |s| ==> s[i] == '0' || s[i] == '1'
  }

  /** Every path extends the starting code by "0" and "1" steps. */
  lemma {:induction false} PathsBits(t: Node, code: string)
    requires Bits(code)
    ensures AllValues(Paths(t, code), Bits)
  {
    if t.Branch? {
      assert Bits(code + "0") && Bits(code + "1");
      PathsBits(t.left, code + "0");
      PathsBits(t.right, code + "1");
      var a, b := Paths(t.left, code + "0"), Paths(t.right, code + "1");
      var ab := a + b;
      assert Paths(t, code) == ab;
      forall i | 0 <= i < |ab| ensures Bits(ab[i].value) {
        if i >= |a| {
          assert ab[i] == b[i - |a|];
        }
      }
    }
  }

  /** Whatever the tree, the encoder's code object holds only bit strings. */
  lemma CodesBits(root: Node)
    ensures AllValues(CodesOf(root), Bits)
  {
    CodesOfPaths(root);
    PathsBits(root, "");
    AssignValues([], Paths(root, ""), Bits);
  }

  /**
   * `getCodes(node, code)`: a leaf sets `codes[node.char] = code`; a parent
   * visits its left child with "0" appended, then its right child with "1".
   * The object being filled is passed along and returned.
   */
  function GetCodes(t: Node, code: string, codes: Object<string>): (r: Object<string>)
    ensures UniqueKeys(codes) ==> UniqueKeys(r)
  {
    match t
    case Leaf(symbols, _, _) =>
      SetUnique(codes, symbols, code);
      Set(codes, symbols, code)
    case Branch(_, _, _, l, r) => GetCodes(r, code + "1", GetCodes(l, code + "0", codes))
  }

  /** `getCodes` assigns the leaves' paths, left to right. */
  lemma {:induction false} GetCodesAssignsPaths(t: Node, code: string, codes: Object<string>)
    ensures GetCodes(t, code, codes) == Assign(codes, Paths(t, code))
  {
    match t
    case Leaf(symbols, _, _) =>
      assert Paths(t, code)[1..] == [];
    case Branch(_, _, _, l, r) =>
      GetCodesAssignsPaths(l, code + "0", codes);
      GetCodesAssignsPaths(r, code + "1", GetCodes(l, code + "0", codes));
      AssignAppend(codes, Paths(l, code + "0"), Paths(r, code + "1"));
  }

  /** The `codes` object of `encodeText`, which `getCodes` fills in place. */
  class CodeTable {
    var codes: Object<string>

    constructor()
      ensures codes == []
    {
      codes := [];
    }

    /** `getCodes(node, code)`: records every leaf's path below `node`, left to right. */
    method GetCodes(node: Node, code: string)
      modifies this
      ensures codes == Assign(old(codes), Paths(node, code))
      decreases node
    {
      if node.Leaf? {
        codes := Set(codes, node.symbols, code);
        assert Assign(old(codes), Paths(node, code)) == Assign(codes, []);
      } else {
        GetCodes(node.left, code + "0");
        GetCodes(node.right, code + "1");
        AssignAppend(old(codes), Paths(node.left, code + "0"), Paths(node.right, code + "1"));
      }
    }
  }

  /** The `codes` object `encodeText` fills from the root. */
  function CodesOf(root: Node): Object<string> {
    GetCodes(root, "", [])
  }

  /** The encoder's code object is `Object.fromEntries` of the leaves' paths. */
  lemma CodesOfPaths(root: Node)
    ensures CodesOf(root) == FromEntries(Paths(root, ""))
  {
    GetCodesAssignsPaths(root, "", []);
  }

  /**
   * On any tree, coded or not, the keys of the encoder's code object are
   * the leaves' symbols; with distinct symbols they come in tree order.
   */
  lemma CodesKeys(root: Node)
    ensures forall s :: s in Keys(CodesOf(root)) <==> s in SymbolsOf(Fringe(root))
    ensures DistinctSymbols(Fringe(root)) ==> Keys(CodesOf(root)) == SymbolsOf(Fringe(root))
  {
    var ps := Paths(root, "");
    GetCodesAssignsPaths(root, "", []);
    AssignKeys([], ps);
    assert Keys(ps) == SymbolsOf(Fringe(root));
    if DistinctSymbols(Fringe(root)) {
      assert UniqueKeys(ps) by {
        forall i, j | 0 <= i < j < |ps| ensures ps[i].key != ps[j].key {
          assert ps[i].key == Fringe(root)[i].symbols && ps[j].key == Fringe(root)[j].symbols;
        }
      }
      FromUniqueEntries(ps);
      CodesOfPaths(root);
    }
  }

  /** On a tree coded by `assignCodes` the paths are the leaves' own code fields. */
  lemma {:induction false} PathsOfCoded(t: Node, p: string)
    requires CodedFrom(t, p)
    ensures forall i :: 0 <= i < |Fringe(t)| ==> Paths(t, p)[i] == Prop(Fringe(t)[i].symbols, Fringe(t)[i].code)
  {
    if t.Branch? {
      PathsOfCoded(t.left, p + "0");
      PathsOfCoded(t.right, p + "1");
      var n := |Fringe(t.left)|;
      forall i | 0 <= i < |Fringe(t)| ensures Paths(t, p)[i] == Prop(Fringe(t)[i].symbols, Fringe(t)[i].code) {
        if i >= n {
          assert Paths(t, p)[i] == Paths(t.right, p + "1")[i - n];
          assert Fringe(t)[i] == Fringe(t.right)[i - n];
        }
      }
    }
  }

  /** No two leaves share their symbols. */
  ghost predicate DistinctSymbols(ns: seq<Node>) {
    forall i, j :: 0 <= i < j < |ns| ==> ns[i].symbols != ns[j].symbols
  }

  /**
   * On a tree coded by `assignCodes` whose leaves have distinct symbols,
   * `getCodes` gives every leaf's symbols the code `assignCodes` wrote into
   * that leaf, and gives nothing else a code.
   */
  lemma CodesOfLeaves(root: Node)
    requires CodedFrom(root, "") && DistinctSymbols(Fringe(root))
    ensures Keys(CodesOf(root)) == SymbolsOf(Fringe(root))
    ensures forall i :: 0 <= i < |Fringe(root)| ==>
      Get(CodesOf(root), Fringe(root)[i].symbols) == Some(Fringe(root)[i].code)
  {
    var ps := Paths(root, "");
    var ls := Fringe(root);
    PathsOfCoded(root, "");
    assert UniqueKeys(ps) by {
      forall i, j | 0 <= i < j < |ps| ensures ps[i].key != ps[j].key {
        assert ps[i].key == ls[i].symbols && ps[j].key == ls[j].symbols;
      }
    }
    CodesOfPaths(root);
    FromUniqueEntries(ps);
    forall i | 0 <= i < |ls| ensures Get(CodesOf(root), ls[i].symbols) == Some(ls[i].code) {
      assert ps[i] == Prop(ls[i].symbols, ls[i].code);
      GetIn(ps, ls[i].symbols, ls[i].code);
    }
  }

  /** `codes[char]` as `join` renders it: `undefined` becomes "". */
  function CodeOf(codes: Object<string>, symbol: string): (code: string)
    ensures symbol !in Keys(codes) ==> code == ""
    ensures code != "" ==> Prop(symbol, code) in codes
  {
    var c := Get(codes, symbol);
    if c.Some? then c.value else ""
  }

  /**
   * `text.split('').map(char => codes[char]).join('')`.  When every stored
   * code is a bit string, so is the encoding.
   */
  function Join(text: string, codes: Object<string>): (bits: string)
    ensures AllValues(codes, Bits) ==> Bits(bits)
  {
    if text == [] then "" else CodeOf(codes, [text[0]]) + Join(text[1..], codes)
  }

  /** The encoding of a text is the encodings of its parts, in order. */
  lemma {:induction false} JoinAppend(a: string, b: string, codes: Object<string>)
    ensures Join(a + b, codes) == Join(a, codes) + Join(b, codes)
  {
    if a == [] {
      assert a + b == b;
    } else {
      var h := CodeOf(codes, [a[0]]);
      assert (a + b)[0] == a[0] && (a + b)[1..] == a[1..] + b;
      assert Join(a + b, codes) == h + Join(a[1..] + b, codes);
      JoinAppend(a[1..], b, codes);
      assert Join(a, codes) == h + Join(a[1..], codes);
    }
  }

  /** A symbol without a code contributes no bits and stops nothing. */
  lemma MissingSymbol(a: string, c: char, b: string, codes: Object<string>)
    requires [c] !in Keys(codes)
    ensures Join(a + [c] + b, codes) == Join(a, codes) + Join(b, codes)
  {
    JoinAppend(a + [c], b, codes);
    JoinAppend(a, [c], codes);
  }

  /** What `encodeText(text, root)` returns. */
  datatype Encoded = Encoded(encodedText: string, originalSize: int, compressedSize: int)

  /**
   * `encodeText(text, root)`: the encoding is a bit string for every tree,
   * and the compressed size is the sum of the code lengths of the symbols.
   */
  function EncodeText(text: string, root: Node): (e: Encoded)
    ensures Bits(e.encodedText)
    ensures e.originalSize == 8 * |text|
    ensures e.compressedSize == SymbolWeights(text, CodeLength(CodesOf(root)))
  {
    var encodedText := Join(text, CodesOf(root));
    CodesBits(root);
    JoinLength(text, CodesOf(root));
    Encoded(encodedText, |text| * 8, |encodedText|)
  }

  /** The `POST` handler: a missing or empty text, or a missing tree, is refused. */
  method Post(text: Option<string>, tree: Option<Node>) returns (r: Response<Encoded>)
    ensures text.None? || text.value == [] || tree.None? <==> r == Failed(400, "Text and Huffman tree are required")
    ensures text.Some? && text.value != [] && tree.Some? ==> r == Ok(EncodeText(text.value, tree.value))
  {
    if text.None? || text.value == [] || tree.None? {
      return Failed(400, "Text and Huffman tree are required");
    }
    var table := new CodeTable();
    table.GetCodes(tree.value, "");
    GetCodesAssignsPaths(tree.value, "", []);
    var encodedText := Join(text.value, table.codes);
    return Ok(Encoded(encodedText, |text.value| * 8, |encodedText|));
  }

  /** The length of a symbol's code, as a weight for sums over the frequency table. */
  function CodeLength(codes: Object<string>): string -> int {
    s => |CodeOf(codes, s)|
  }

  lemma {:induction false} JoinLength(text: string, codes: Object<string>)
    ensures |Join(text, codes)| == SymbolWeights(text, CodeLength(codes))
  {
    if text != [] {
      var t := text[..|text| - 1];
      var c := text[|text| - 1];
      assert text == t + [c];
      JoinLength(t, codes);
      JoinAppend(t, [c], codes);
      assert Join([c], codes) == CodeOf(codes, [c]) + Join([], codes);
    }
  }

  /**
   * The sizes in terms of the text's frequency table: the original size is
   * 8 bits per counted symbol, and the compressed size is Σ count × code
   * length.
   */
  lemma Sizes(text: string, root: Node)
    ensures EncodeText(text, root).originalSize == 8 * TotalCount(TableOf(text))
    ensures EncodeText(text, root).compressedSize == Weighted(TableOf(text), CodeLength(CodesOf(root)))
  {
    CountsSumToLength(text);
    JoinLength(text, CodesOf(root));
    TableWeight(text, CodeLength(CodesOf(root)));
  }

  /** A lone leaf has the code "", so every text encodes to no bits at all. */
  lemma SingleLeaf(text: string, symbols: string, frequency: int, code: string)
    ensures EncodeText(text, Leaf(symbols, frequency, code)) == Encoded("", 8 * |text|, 0)
  {
    var codes := CodesOf(Leaf(symbols, frequency, code));
    assert codes == [Prop(symbols, "")];
    assert Join(text, codes) == "" by {
      JoinEmptyCodes(text, codes);
    }
  }

  lemma {:induction false} JoinEmptyCodes(text: string, codes: Object<string>)
    requires forall i :: 0 <= i < |codes| ==> codes[i].value == ""
    ensures Join(text, codes) == ""
  {
    if text != [] {
      JoinEmptyCodes(text[1..], codes);
    }
  }
}
