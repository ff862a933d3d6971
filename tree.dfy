/**
 * The Huffman tree the build-tree route answers and the encoder and the
 * display component traverse.
 *
 * A node is `{ char, frequency, code, children }`: `children` is `null` for a
 * leaf and `[left, right]` for a parent.  The tree is a fresh structure with
 * no sharing, so it is modelled as a value.
 */
module HuffmanNodes {

  datatype Node =
    | Leaf(symbols: string, frequency: int, code: string)
    | Branch(symbols: string, frequency: int, code: string, left: Node, right: Node)

  /** The leaves, left to right. */
  function Fringe(t: Node): (ls: seq<Node>)
    ensures |ls| >= 1
    ensures forall i :: 0 <= i < |ls| ==> ls[i].Leaf?
  {
    match t
    case Leaf(_, _, _) => [t]
    case Branch(_, _, _, l, r) => Fringe(l) + Fringe(r)
  }

  /** The leaves of a sequence of trees, tree after tree. */
  function FringeAll(ts: seq<Node>): (ls: seq<Node>)
    ensures |ls| >= |ts|
  {
    if ts == [] then [] else Fringe(ts[0]) + FringeAll(ts[1..])
  }

  function InternalCount(t: Node): nat {
    match t
    case Leaf(_, _, _) => 0
    case Branch(_, _, _, l, r) => InternalCount(l) + InternalCount(r) + 1
  }

  /** Every parent has exactly two children, so a tree has one leaf more than it has parents. */
  lemma {:induction false} LeafCount(t: Node)
    ensures |Fringe(t)| == InternalCount(t) + 1
  {
    if t.Branch? {
      LeafCount(t.left);
      LeafCount(t.right);
    }
  }

  lemma {:induction false} FringeAllAppend(a: seq<Node>, b: seq<Node>)
    ensures FringeAll(a + b) == FringeAll(a) + FringeAll(b)
  {
    if a == [] {
      assert a + b == b;
    } else {
      assert (a + b)[1..] == a[1..] + b;
      FringeAllAppend(a[1..], b);
    }
  }

  /** Σ frequency over a sequence of nodes. */
  function FrequencySum(ns: seq<Node>): int {
    if ns == [] then 0 else ns[0].frequency + FrequencySum(ns[1..])
  }

  lemma {:induction false} FrequencySumAppend(a: seq<Node>, b: seq<Node>)
    ensures FrequencySum(a + b) == FrequencySum(a) + FrequencySum(b)
  {
    if a == [] {
      assert a + b == b;
    } else {
      assert (a + b)[1..] == a[1..] + b;
      FrequencySumAppend(a[1..], b);
    }
  }

  /** The symbols of a sequence of nodes, joined. */
  function SymbolJoin(ns: seq<Node>): string {
    if ns == [] then [] else ns[0].symbols + SymbolJoin(ns[1..])
  }

  lemma {:induction false} SymbolJoinAppend(a: seq<Node>, b: seq<Node>)
    ensures SymbolJoin(a + b) == SymbolJoin(a) + SymbolJoin(b)
  {
    if a == [] {
      assert a + b == b;
    } else {
      assert (a + b)[1..] == a[1..] + b;
      SymbolJoinAppend(a[1..], b);
    }
  }

  /** Every parent is as the merge loop makes it: symbols joined left then right, frequencies added. */
  predicate Merged(t: Node) {
    match t
    case Leaf(_, _, _) => true
    case Branch(symbols, frequency, _, l, r) =>
      symbols == l.symbols + r.symbols && frequency == l.frequency + r.frequency && Merged(l) && Merged(r)
  }

  /**
   * In a merged tree the root carries the sum of the leaf frequencies and
   * the leaf symbols joined left to right.
   */
  lemma {:induction false} MergedTotals(t: Node)
    requires Merged(t)
    ensures t.frequency == FrequencySum(Fringe(t))
    ensures t.symbols == SymbolJoin(Fringe(t))
  {
    match t
    case Leaf(_, _, _) =>
      assert Fringe(t)[1..] == [];
    case Branch(_, _, _, l, r) =>
      MergedTotals(l);
      MergedTotals(r);
      FrequencySumAppend(Fringe(l), Fringe(r));
      SymbolJoinAppend(Fringe(l), Fringe(r));
  }

  /** No node carries a code yet. */
  predicate Uncoded(t: Node) {
    match t
    case Leaf(_, _, code) => code == ""
    case Branch(_, _, code, l, r) => code == "" && Uncoded(l) && Uncoded(r)
  }

  /** The tree with every code cleared: its shape, symbols and frequencies. */
  function Erase(t: Node): Node {
    match t
    case Leaf(symbols, frequency, _) => Leaf(symbols, frequency, "")
    case Branch(symbols, frequency, _, l, r) => Branch(symbols, frequency, "", Erase(l), Erase(r))
  }

  lemma {:induction false} EraseUncoded(t: Node)
    ensures Uncoded(t) <==> Erase(t) == t
  {
    if t.Branch? {
      EraseUncoded(t.left);
      EraseUncoded(t.right);
    }
  }

  /**
   * Codes laid out from `p`: the node's code is `p`, and the children of a
   * parent carry its code followed by "0" (left) and "1" (right).
   */
  predicate CodedFrom(t: Node, p: string) {
    match t
    case Leaf(_, _, code) => code == p
    case Branch(_, _, code, l, r) => code == p && CodedFrom(l, p + "0") && CodedFrom(r, p + "1")
  }

  /** The codes of a sequence of nodes. */
  function Codes(ns: seq<Node>): (cs: seq<string>)
    ensures |cs| == |ns|
    ensures forall i :: 0 <= i < |ns| ==> cs[i] == ns[i].code
  {
    if ns == [] then [] else [ns[0].code] + Codes(ns[1..])
  }

  /** The symbols of a sequence of nodes. */
  function SymbolsOf(ns: seq<Node>): (ss: seq<string>)
    ensures |ss| == |ns|
    ensures forall i :: 0 <= i < |ns| ==> ss[i] == ns[i].symbols
  {
    if ns == [] then [] else [ns[0].symbols] + SymbolsOf(ns[1..])
  }

  /** No code is a prefix of (or equal to) another one. */
  ghost predicate PrefixFree(cs: seq<string>) {
    forall i, j :: 0 <= i < |cs| && 0 <= j < |cs| && i != j ==> !(cs[i] <= cs[j])
  }

  /** Every leaf code starts with `p`, and below a parent it is longer than `p`. */
  lemma {:induction false} CodesExtend(t: Node, p: string)
    requires CodedFrom(t, p)
    ensures forall i :: 0 <= i < |Fringe(t)| ==> p <= Fringe(t)[i].code
    ensures t.Branch? ==> forall i :: 0 <= i < |Fringe(t)| ==> |p| < |Fringe(t)[i].code|
  {
    if t.Branch? {
      CodesExtend(t.left, p + "0");
      CodesExtend(t.right, p + "1");
      var fl := Fringe(t.left);
      forall i | 0 <= i < |Fringe(t)| ensures p <= Fringe(t)[i].code && |p| < |Fringe(t)[i].code| {
        if i < |fl| {
          assert Fringe(t)[i] == fl[i];
        } else {
          assert Fringe(t)[i] == Fringe(t.right)[i - |fl|];
        }
      }
    }
  }

  lemma SplitCodes(p: string, a: string, b: string)
    requires p + "0" <= a && p + "1" <= b
    ensures !(a <= b) && !(b <= a)
  {
    assert a[|p|] == '0' && b[|p|] == '1';
  }

  /** The leaf codes laid out by `CodedFrom` are prefix-free. */
  lemma {:induction false} CodedPrefixFree(t: Node, p: string)
    requires CodedFrom(t, p)
    ensures PrefixFree(Codes(Fringe(t)))
  {
    if t.Branch? {
      var a, b := Codes(Fringe(t.left)), Codes(Fringe(t.right));
      assert PrefixFree(a) by { CodedPrefixFree(t.left, p + "0"); }
      assert PrefixFree(b) by { CodedPrefixFree(t.right, p + "1"); }
      assert forall i :: 0 <= i < |a| ==> p + "0" <= a[i] by { CodesExtend(t.left, p + "0"); }
      assert forall i :: 0 <= i < |b| ==> p + "1" <= b[i] by { CodesExtend(t.right, p + "1"); }
      PrefixFreeJoin(a, b, p);
      BranchCodes(t);
    }
  }

  lemma BranchCodes(t: Node)
    requires t.Branch?
    ensures Codes(Fringe(t)) == Codes(Fringe(t.left)) + Codes(Fringe(t.right))
  {
    var x, y := Fringe(t.left), Fringe(t.right);
    assert Fringe(t) == x + y;
    var l, r := Codes(x + y), Codes(x) + Codes(y);
    forall i | 0 <= i < |l| ensures l[i] == r[i] {
      if i < |x| {
        assert (x + y)[i] == x[i];
      } else {
        assert (x + y)[i] == y[i - |x|];
      }
    }
    assert l == r;
  }

  /** Codes below the `0` edge of `p` and codes below its `1` edge are not prefixes of each other. */
  lemma PrefixFreeJoin(a: seq<string>, b: seq<string>, p: string)
    requires PrefixFree(a) && PrefixFree(b)
    requires forall i :: 0 <= i < |a| ==> p + "0" <= a[i]
    requires forall i :: 0 <= i < |b| ==> p + "1" <= b[i]
    ensures PrefixFree(a + b)
  {
    var cs := a + b;
    forall i, j | 0 <= i < |cs| && 0 <= j < |cs| && i != j ensures !(cs[i] <= cs[j]) {
      if i < |a| && j < |a| {
        assert cs[i] == a[i] && cs[j] == a[j];
      } else if i >= |a| && j >= |a| {
        assert cs[i] == b[i - |a|] && cs[j] == b[j - |a|];
      } else if i < |a| {
        SplitCodes(p, cs[i], cs[j]);
      } else {
        SplitCodes(p, cs[j], cs[i]);
      }
    }
  }
}
