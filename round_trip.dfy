/**
 * The lossless round trip the application promises: the display component
 * segments the encoder's bits back into the codes of the text's symbols, and
 * its inverted table maps each code back to its symbol.
 */
module RoundTrip {
  import opened Sorting
  import opened Js
  import opened HuffmanNodes
  import opened Frequency
  import opened BuildTree
  import opened Encode
  import opened EncodedTextDisplay

  /** The codes of the text's symbols, in order. */
  function CodeSeq(text: string, codes: Object<string>): (cs: seq<string>)
    ensures |cs| == |text|
    ensures forall i :: 0 <= i < |text| ==> cs[i] == CodeOf(codes, [text[i]])
  {
    if text == [] then [] else [CodeOf(codes, [text[0]])] + CodeSeq(text[1..], codes)
  }

  /** The text as a sequence of one-symbol strings. */
  function SymbolStrings(text: string): (ss: seq<string>)
    ensures |ss| == |text|
    ensures forall i :: 0 <= i < |text| ==> ss[i] == [text[i]]
  {
    if text == [] then [] else [[text[0]]] + SymbolStrings(text[1..])
  }

  /** `codeToCharMap[code]` for each segment, an `undefined` entry shown as "". */
  function Decode(segs: seq<string>, codeToChar: Object<string>): (ss: seq<string>)
    ensures |ss| == |segs|
    ensures forall i :: 0 <= i < |segs| ==> ss[i] == CodeOf(codeToChar, segs[i])
  {
    if segs == [] then [] else [CodeOf(codeToChar, segs[0])] + Decode(segs[1..], codeToChar)
  }

  lemma {:induction false} FlattenCodeSeq(text: string, codes: Object<string>)
    ensures Flatten(CodeSeq(text, codes)) == Join(text, codes)
  {
    if text != [] {
      FlattenCodeSeq(text[1..], codes);
      assert CodeSeq(text, codes)[1..] == CodeSeq(text[1..], codes);
    }
  }

  /**
   * When every symbol of the text has a code that the decoding table can
   * emit (known, nonempty, no known proper prefix), segmenting the encoding
   * gives back exactly the codes of the symbols, in order.
   */
  lemma SegmentsOfJoin(text: string, codes: Object<string>, codeToChar: Object<string>)
    requires forall i :: 0 <= i < |text| ==> Emittable(codeToChar, CodeOf(codes, [text[i]]))
    ensures Segments(Join(text, codes), codeToChar, "") == CodeSeq(text, codes)
  {
    var cs := CodeSeq(text, codes);
    FlattenCodeSeq(text, codes);
    assert Join(text, codes)[|Flatten(cs)|..] == "";
    assert GreedySplit(Join(text, codes), cs, codeToChar);
    SegmentsCharacterized(Join(text, codes), codeToChar, cs);
  }

  // ---------------------------------------------------------------------
  // On a tree coded by `assignCodes`

  /** What a coded tree must satisfy for the round trip. */
  ghost predicate Decodable(root: Node) {
    && CodedFrom(root, "")
    && root.Branch?
    && DistinctSymbols(Fringe(root))
    && forall i :: 0 <= i < |Fringe(root)| ==> Fringe(root)[i].symbols != ""
  }

  /** The encoder's code object holds exactly the leaves' symbols and codes, in tree order. */
  lemma CodesOfCoded(root: Node)
    requires CodedFrom(root, "") && DistinctSymbols(Fringe(root))
    ensures CodesOf(root) == Paths(root, "")
    ensures forall i :: 0 <= i < |Fringe(root)| ==> CodesOf(root)[i] == Prop(Fringe(root)[i].symbols, Fringe(root)[i].code)
    ensures UniqueKeys(CodesOf(root)) && DistinctValues(CodesOf(root))
  {
    var ps := Paths(root, "");
    var ls := Fringe(root);
    PathsOfCoded(root, "");
    forall i, j | 0 <= i < j < |ps| ensures ps[i].key != ps[j].key {
      assert ps[i].key == ls[i].symbols && ps[j].key == ls[j].symbols;
    }
    CodesOfPaths(root);
    FromUniqueEntries(ps);
    CodedPrefixFree(root, "");
    forall i, j | 0 <= i < j < |ps| ensures ps[i].value != ps[j].value {
      assert ps[i].value == Codes(ls)[i] && ps[j].value == Codes(ls)[j];
    }
  }

  /** Only leaf codes are known to the decoding table of a coded tree. */
  lemma KnownIsLeafCode(root: Node, s: string)
    requires CodedFrom(root, "") && DistinctSymbols(Fringe(root))
    ensures Known(CodeToCharMap(CharToCodeMap(Some(root))), s) ==> s in Codes(Fringe(root))
  {
    var codes := CodesOf(root);
    assert UniqueKeys(codes) && DistinctValues(codes) by { CodesOfCoded(root); }
    if Known(CodeToCharMap(codes), s) {
      var q := Get(CodeToCharMap(codes), s).value;
      InversionAt(codes, q, s);
      GetIn(codes, q, s);
      CodeValuesAreLeafCodes(root, q, s);
    }
  }

  /** Every value of the encoder's code object of a coded tree is a leaf code. */
  lemma CodeValuesAreLeafCodes(root: Node, q: string, s: string)
    requires CodedFrom(root, "") && DistinctSymbols(Fringe(root))
    requires Prop(q, s) in CodesOf(root)
    ensures s in Codes(Fringe(root))
  {
    var codes := CodesOf(root);
    var l :| 0 <= l < |codes| && codes[l] == Prop(q, s);
    assert l < |Fringe(root)| && codes[l] == Prop(Fringe(root)[l].symbols, Fringe(root)[l].code) by { CodesOfCoded(root); }
    assert Codes(Fringe(root))[l] == s;
  }

  /** The decoding table of a coded tree maps each leaf's code back to the leaf's symbols. */
  lemma LeafCodeKnown(root: Node, j: nat)
    requires CodedFrom(root, "") && DistinctSymbols(Fringe(root)) && j < |Fringe(root)|
    ensures Get(CodesOf(root), Fringe(root)[j].symbols) == Some(Fringe(root)[j].code)
    ensures Get(CodeToCharMap(CharToCodeMap(Some(root))), Fringe(root)[j].code) == Some(Fringe(root)[j].symbols)
  {
    CodesOfCoded(root);
    CodesOfLeaves(root);
    InversionAt(CodesOf(root), Fringe(root)[j].symbols, Fringe(root)[j].code);
  }

  /** No proper prefix of a leaf code is known to the decoding table of a coded tree. */
  lemma ProperPrefixUnknown(root: Node, j: nat, s: string)
    requires CodedFrom(root, "") && DistinctSymbols(Fringe(root)) && j < |Fringe(root)|
    requires s <= Fringe(root)[j].code && |s| < |Fringe(root)[j].code|
    ensures !Known(CodeToCharMap(CharToCodeMap(Some(root))), s)
  {
    var cs := Codes(Fringe(root));
    CodedPrefixFree(root, "");
    forall l | 0 <= l < |cs| ensures cs[l] != s {
      if l != j {
        assert !(cs[l] <= cs[j]);
      }
    }
    KnownIsLeafCode(root, s);
  }

  /** The code of any leaf is emittable from the decoding table of a coded tree with a parent at its root. */
  lemma LeafCodeEmittable(root: Node, j: nat)
    requires Decodable(root) && j < |Fringe(root)|
    ensures Emittable(CodeToCharMap(CharToCodeMap(Some(root))), Fringe(root)[j].code)
  {
    var m := CodeToCharMap(CharToCodeMap(Some(root)));
    var c := Fringe(root)[j].code;
    assert c != [] by {
      CodesExtend(root, "");
    }
    var r := c[..|c| - 1];
    assert NoKnownPrefix(m, r) by {
      forall k | 0 < k <= |r| ensures !Known(m, r[..k]) {
        assert r[..k] == c[..k];
        ProperPrefixUnknown(root, j, r[..k]);
      }
    }
    assert Known(m, c) by {
      LeafCodeKnown(root, j);
    }
  }

  /**
   * Round trip on a coded tree with a parent at its root and distinct,
   * nonempty leaf symbols: for a text whose symbols are all leaves, the
   * display splits the encoded bits into exactly the symbols' codes, and
   * maps them back to the text.
   */
  lemma TreeRoundTrip(root: Node, text: string)
    requires Decodable(root)
    requires forall i :: 0 <= i < |text| ==> [text[i]] in SymbolsOf(Fringe(root))
    ensures var m := CodeToCharMap(CharToCodeMap(Some(root)));
      && Segments(EncodeText(text, root).encodedText, m, "") == CodeSeq(text, CodesOf(root))
      && Decode(Segments(EncodeText(text, root).encodedText, m, ""), m) == SymbolStrings(text)
  {
    var m := CodeToCharMap(CharToCodeMap(Some(root)));
    var codes := CodesOf(root);
    forall i | 0 <= i < |text|
      ensures Emittable(m, CodeOf(codes, [text[i]]))
      ensures Get(m, CodeOf(codes, [text[i]])) == Some([text[i]])
    {
      SymbolCodeEmittable(root, text[i]);
    }
    SegmentsOfJoin(text, codes, m);
    var segs := CodeSeq(text, codes);
    assert Decode(segs, m) == SymbolStrings(text);
  }

  /** The code of a symbol of the tree is emitted on its own and maps back to the symbol. */
  lemma SymbolCodeEmittable(root: Node, c: char)
    requires Decodable(root) && [c] in SymbolsOf(Fringe(root))
    ensures var m := CodeToCharMap(CharToCodeMap(Some(root)));
      && Emittable(m, CodeOf(CodesOf(root), [c]))
      && Get(m, CodeOf(CodesOf(root), [c])) == Some([c])
  {
    var ls := Fringe(root);
    var j :| 0 <= j < |ls| && SymbolsOf(ls)[j] == [c];
    LeafCodeKnown(root, j);
    LeafCodeEmittable(root, j);
  }

  // ---------------------------------------------------------------------
  // The whole pipeline, from a text

  function PropOf(e: Entry): Prop<int> {
    Prop(e.symbol, e.count)
  }

  /**
   * The body the page sends to the build-tree route:
   * `Object.fromEntries(frequencyData.map(item => [item.char, item.count]))`.
   */
  function RequestObject(table: seq<Entry>): (o: Object<int>)
    ensures UniqueKeys(o)
  {
    FromEntries(seq(|table|, i requires 0 <= i < |table| => PropOf(table[i])))
  }

  /** The page's request object is the tally the counting loop built, in enumeration order. */
  lemma RequestObjectOfText(text: string)
    ensures RequestObject(TableOf(text)) == Entries(Tally(text))
    ensures Entries(RequestObject(TableOf(text))) == Entries(Tally(text))
    ensures forall i :: 0 <= i < |TableOf(text)| ==> Entries(Tally(text))[i].key == TableOf(text)[i].symbol
  {
    var es := Entries(Tally(text));
    var table := TableOf(text);
    assert seq(|table|, i requires 0 <= i < |table| => PropOf(table[i])) == es;
    TallyUnique(text);
    FromUniqueEntries(es);
    EntriesIdempotent(Tally(text));
  }

  function NodeSymbols(n: Node): string {
    n.symbols
  }

  /** The leaves the build-tree route starts from for a text carry its one-symbol strings, each once. */
  lemma TextLeaves(text: string)
    ensures DistinctBy(Leaves(Entries(Tally(text))), NodeSymbols)
    ensures forall i :: 0 <= i < |Leaves(Entries(Tally(text)))| ==> |Leaves(Entries(Tally(text)))[i].symbols| == 1
    ensures forall c :: c in text ==> [c] in SymbolsOf(Leaves(Entries(Tally(text))))
  {
    TextLeavesDistinct(text);
    TextLeavesSingle(text);
    forall c | c in text ensures [c] in SymbolsOf(Leaves(Entries(Tally(text)))) {
      TableCovers(text, c);
    }
  }

  lemma TextLeavesDistinct(text: string)
    ensures DistinctBy(Leaves(Entries(Tally(text))), NodeSymbols)
  {
    var leaves := Leaves(Entries(Tally(text)));
    var table := TableOf(text);
    assert forall i :: 0 <= i < |leaves| ==> NodeSymbols(leaves[i]) == table[i].symbol;
    TableRowsDistinct(text);
  }

  lemma TextLeavesSingle(text: string)
    ensures forall i :: 0 <= i < |Leaves(Entries(Tally(text)))| ==> |Leaves(Entries(Tally(text)))[i].symbols| == 1
  {
    var leaves := Leaves(Entries(Tally(text)));
    var table := TableOf(text);
    assert forall i :: 0 <= i < |leaves| ==> leaves[i].symbols == table[i].symbol;
    TableRowsCounted(text);
  }

  lemma TableCovers(text: string, c: char)
    requires c in text
    ensures [c] in SymbolsOf(Leaves(Entries(Tally(text))))
  {
    var leaves := Leaves(Entries(Tally(text)));
    var table := TableOf(text);
    TableRowsCover(text);
    var k :| 0 <= k < |table| && table[k] == Entry([c], Occurrences(text, c));
    assert SymbolsOf(leaves)[k] == [c];
  }

  /** A tree whose erased leaves are a permutation of leaves with distinct symbols has distinct leaf symbols. */
  lemma PermutedDistinct(root: Node, leaves: seq<Node>)
    requires multiset(Fringe(Erase(root))) == multiset(leaves)
    requires DistinctBy(leaves, NodeSymbols)
    ensures DistinctSymbols(Fringe(root))
  {
    var ls := Fringe(root);
    var erased := Fringe(Erase(root));
    EraseFringe(root);
    PermutationKeepsDistinct(leaves, erased, NodeSymbols);
    forall i, j | 0 <= i < j < |ls| ensures ls[i].symbols != ls[j].symbols {
      assert NodeSymbols(erased[i]) == ls[i].symbols && NodeSymbols(erased[j]) == ls[j].symbols;
    }
  }

  /** A tree whose erased leaves are a permutation of one-symbol leaves has nonempty leaf symbols. */
  lemma PermutedNonempty(root: Node, leaves: seq<Node>)
    requires multiset(Fringe(Erase(root))) == multiset(leaves)
    requires forall i :: 0 <= i < |leaves| ==> |leaves[i].symbols| == 1
    ensures forall i :: 0 <= i < |Fringe(root)| ==> Fringe(root)[i].symbols != ""
  {
    var ls := Fringe(root);
    var erased := Fringe(Erase(root));
    EraseFringe(root);
    forall i | 0 <= i < |ls| ensures ls[i].symbols != "" {
      assert erased[i] in multiset(leaves);
      var k :| 0 <= k < |leaves| && leaves[k] == erased[i];
    }
  }

  /** A tree whose erased leaves are a permutation of `leaves` has a leaf for each of their symbols strings. */
  lemma PermutedCover(root: Node, leaves: seq<Node>, s: string)
    requires multiset(Fringe(Erase(root))) == multiset(leaves)
    requires s in SymbolsOf(leaves)
    ensures s in SymbolsOf(Fringe(root))
  {
    var ls := Fringe(root);
    var erased := Fringe(Erase(root));
    EraseFringe(root);
    var k :| 0 <= k < |leaves| && SymbolsOf(leaves)[k] == s;
    assert leaves[k] in multiset(erased);
    var j :| 0 <= j < |erased| && erased[j] == leaves[k];
    assert SymbolsOf(ls)[j] == s;
  }

  /** For a text with at least two distinct symbols the built tree is decodable and holds every symbol. */
  lemma PipelineLeaves(text: string)
    requires |FirstOccurrences(text)| >= 2
    ensures HuffmanTree(RequestObject(TableOf(text))).Some?
    ensures Decodable(HuffmanTree(RequestObject(TableOf(text))).value)
    ensures forall i :: 0 <= i < |text| ==> [text[i]] in SymbolsOf(Fringe(HuffmanTree(RequestObject(TableOf(text))).value))
  {
    var fd := RequestObject(TableOf(text));
    var leaves := Leaves(Entries(Tally(text)));
    RequestObjectOfText(text);
    TallyUnique(text);
    assert |fd| >= 2;
    HuffmanTreeFacts(fd);
    CodesNonempty(fd);
    var root := HuffmanTree(fd).value;
    TextLeaves(text);
    PermutedDistinct(root, leaves);
    PermutedNonempty(root, leaves);
    forall i | 0 <= i < |text| ensures [text[i]] in SymbolsOf(Fringe(root)) {
      assert text[i] in text;
      PermutedCover(root, leaves, [text[i]]);
    }
  }

  /**
   * The application's round trip, for any text with at least two distinct
   * symbols: count it, send the table as the page does, build the tree,
   * encode the text with it, and segment the bits in the display; the
   * segments are the symbols' codes and decode to the text.
   */
  lemma PipelineRoundTrip(text: string)
    requires |FirstOccurrences(text)| >= 2
    ensures var tree := HuffmanTree(RequestObject(TableOf(text)));
      && tree.Some?
      && var m := CodeToCharMap(CharToCodeMap(tree));
         var segs := Segments(EncodeText(text, tree.value).encodedText, m, "");
         segs == CodeSeq(text, CodesOf(tree.value)) && Decode(segs, m) == SymbolStrings(text)
  {
    PipelineLeaves(text);
    TreeRoundTrip(HuffmanTree(RequestObject(TableOf(text))).value, text);
  }

  /**
   * With a single distinct symbol the tree is a lone leaf coded "", so the
   * encoding carries no bits and the display recovers nothing: the round
   * trip above needs at least two distinct symbols.
   */
  lemma PipelineSingleSymbol(text: string)
    requires |FirstOccurrences(text)| == 1
    ensures var tree := HuffmanTree(RequestObject(TableOf(text)));
      && tree.Some? && tree.value.Leaf? && tree.value.code == ""
      && var m := CodeToCharMap(CharToCodeMap(tree));
         var segs := Segments(EncodeText(text, tree.value).encodedText, m, "");
         EncodeText(text, tree.value).encodedText == "" && segs == [] && Decode(segs, m) != SymbolStrings(text)
  {
    var es := Entries(Tally(text));
    RequestObjectOfText(text);
    FirstOccurrencesFacts(text);
    assert |es| == 1;
    assert es == [Prop(es[0].key, es[0].value)];
    SingleEntry(es[0].key, es[0].value);
    SingleLeaf(text, es[0].key, es[0].value, "");
  }

  /** The sum of an object's values is the sum of the counts of its rows. */
  lemma {:induction false} ValueSumRows(props: seq<Prop<int>>)
    ensures ValueSum(props) == TotalCount(AsEntries(props))
  {
    if props != [] {
      ValueSumRows(props[1..]);
      assert AsEntries(props)[1..] == AsEntries(props[1..]);
    }
  }

  /**
   * Frequency is conserved along the pipeline: the root of the tree built
   * for a nonempty text carries the length of the text.
   */
  lemma PipelineRootFrequency(text: string)
    requires text != []
    ensures HuffmanTree(RequestObject(TableOf(text))).Some?
    ensures HuffmanTree(RequestObject(TableOf(text))).value.frequency == |text|
  {
    var fd := RequestObject(TableOf(text));
    RequestObjectOfText(text);
    FirstOccurrencesFacts(text);
    assert text[0] in FirstOccurrences(text);
    HuffmanTreeFacts(fd);
    ValueSumRows(Entries(Tally(text)));
    CountsSumToLength(text);
  }
}
