/**
 * `buildHuffmanTree` and the `POST` handler of the build-tree route.
 *
 * The entries of the frequency object become leaves.  While more than one
 * node is left, the list is sorted by frequency (a stable sort, so ties keep
 * their list order), the first two nodes are shifted off and their parent
 * is pushed at the end.  Then `assignCodes` writes the codes from the root
 * down, and the one remaining node is the answer (`undefined` when the
 * object was empty).
 */
module BuildTree {
  import opened Sorting
  import opened Js
  import opened HuffmanNodes

  function NodeFrequency(n: Node): int {
    n.frequency
  }

  /** The initial working list: one leaf per entry, with the entry's count and no code. */
  function Leaves(entries: seq<Prop<int>>): (ns: seq<Node>)
    ensures |ns| == |entries|
    ensures forall i :: 0 <= i < |entries| ==> ns[i] == Leaf(entries[i].key, entries[i].value, "")
  {
    if entries == [] then [] else [Leaf(entries[0].key, entries[0].value, "")] + Leaves(entries[1..])
  }

  /** The node pushed for two shifted nodes. */
  function Parent(left: Node, right: Node): (p: Node)
    ensures Merged(left) && Merged(right) ==> Merged(p)
  {
    Branch(left.symbols + right.symbols, left.frequency + right.frequency, "", left, right)
  }

  /** One pass of the loop: sort by frequency, shift two nodes off, push their parent. */
  function MergeStep(ns: seq<Node>): (r: seq<Node>)
    requires |ns| > 1
    ensures |r| == |ns| - 1
  {
    var sorted := Sort(ns, NodeFrequency);
    sorted[2..] + [Parent(sorted[0], sorted[1])]
  }

  /** The loop run to its end. */
  function MergeAll(ns: seq<Node>): (r: seq<Node>)
    ensures |r| == if ns == [] then 0 else 1
    decreases |ns|
  {
    if |ns| <= 1 then ns else MergeAll(MergeStep(ns))
  }

  /**
   * `assignCodes(node, code)`: the node gets `code`, its left child `code`
   * followed by "0" and its right child `code` followed by "1", all the way
   * down; nothing but the codes changes.
   */
  function AssignCodes(t: Node, code: string): (r: Node)
    ensures CodedFrom(r, code)
    ensures Erase(r) == Erase(t)
  {
    match t
    case Leaf(symbols, frequency, _) => Leaf(symbols, frequency, code)
    case Branch(symbols, frequency, _, l, r) =>
      Branch(symbols, frequency, code, AssignCodes(l, code + "0"), AssignCodes(r, code + "1"))
  }

  /** What `buildHuffmanTree(frequencyData)` returns; `None` is `undefined`. */
  function HuffmanTree(frequencyData: Object<int>): (tree: Option<Node>)
    ensures tree.Some? ==> CodedFrom(tree.value, "")
  {
    var ns := MergeAll(Leaves(Entries(frequencyData)));
    if ns == [] then None else Some(AssignCodes(ns[0], ""))
  }

  method BuildHuffmanTree(frequencyData: Object<int>) returns (root: Option<Node>)
    ensures root == HuffmanTree(frequencyData)
  {
    var nodes := Leaves(Entries(frequencyData));
    ghost var initial := nodes;
    while |nodes| > 1
      invariant MergeAll(nodes) == MergeAll(initial)
      decreases |nodes|
    {
      ghost var before := nodes;
      nodes := Sort(nodes, NodeFrequency);
      var left := nodes[0];
      nodes := nodes[1..];
      var right := nodes[0];
      nodes := nodes[1..];
      nodes := nodes + [Parent(left, right)];
      assert nodes == MergeStep(before);
      assert MergeAll(before) == MergeAll(nodes);
    }
    if nodes == [] {
      root := None;
    } else {
      root := Some(AssignCodes(nodes[0], ""));
    }
  }

  /** The `frequencyData` field of the request body, as far as the guard looks at it. */
  datatype Payload =
    | Falsy                     // missing, `null`, `false`, `0`, `""`
    | Primitive                 // any other value whose `typeof` is not "object"
    | Record(props: Object<int>)

  /** The `POST` handler: anything but an object is refused before any work. */
  method Post(frequencyData: Payload) returns (r: Response<Option<Node>>)
    ensures !frequencyData.Record? <==> r == Failed(400, "Invalid frequency data")
    ensures frequencyData.Record? ==> r == Ok(HuffmanTree(frequencyData.props))
  {
    if !frequencyData.Record? {
      return Failed(400, "Invalid frequency data");
    }
    var tree := BuildHuffmanTree(frequencyData.props);
    return Ok(tree);
  }

  // ---------------------------------------------------------------------
  // Which two nodes a pass merges

  /**
   * The two nodes a pass merges have the smallest frequencies in the list,
   * the left one no larger than the right one; among equal frequencies the
   * one earlier in the list is taken first.
   */
  lemma MergeChoice(ns: seq<Node>)
    requires |ns| > 1
    ensures var s := Sort(ns, NodeFrequency);
      && multiset(ns) == multiset(s[2..]) + multiset{s[0], s[1]}
      && s[0].frequency <= s[1].frequency
      && (forall i :: 2 <= i < |s| ==> s[1].frequency <= s[i].frequency)
      && |Filter(ns, NodeFrequency, s[0].frequency)| > 0
      && Filter(ns, NodeFrequency, s[0].frequency)[0] == s[0]
      && (s[0].frequency == s[1].frequency ==>
            |Filter(ns, NodeFrequency, s[0].frequency)| > 1 && Filter(ns, NodeFrequency, s[0].frequency)[1] == s[1])
      && (s[0].frequency < s[1].frequency ==>
            |Filter(ns, NodeFrequency, s[1].frequency)| > 0 && Filter(ns, NodeFrequency, s[1].frequency)[0] == s[1])
  {
    var s := Sort(ns, NodeFrequency);
    assert s == [s[0], s[1]] + s[2..];
    SortSorted(ns, NodeFrequency);
    SortStable(ns, NodeFrequency);
    var m0, m1 := s[0].frequency, s[1].frequency;
    assert Filter(s, NodeFrequency, m0) == [s[0]] + Filter(s[1..], NodeFrequency, m0);
    assert s[1..][1..] == s[2..];
    assert Filter(s[1..], NodeFrequency, m1) == [s[1]] + Filter(s[2..], NodeFrequency, m1);
  }

  // ---------------------------------------------------------------------
  // What every pass keeps

  /** Every node of the working list is as the loop builds it and has no code yet. */
  ghost predicate MergedUncoded(ns: seq<Node>) {
    forall i :: 0 <= i < |ns| ==> Merged(ns[i]) && Uncoded(ns[i])
  }

  /** Σ of the values of an object. */
  function ValueSum(props: seq<Prop<int>>): int {
    if props == [] then 0 else props[0].value + ValueSum(props[1..])
  }

  /** The initial list is made of leaves only, each merged and uncoded, carrying all the counts. */
  lemma {:induction false} LeavesFacts(entries: seq<Prop<int>>)
    ensures FringeAll(Leaves(entries)) == Leaves(entries)
    ensures MergedUncoded(Leaves(entries))
    ensures FrequencySum(Leaves(entries)) == ValueSum(entries)
  {
    if entries != [] {
      LeavesFacts(entries[1..]);
      assert Leaves(entries)[1..] == Leaves(entries[1..]);
    }
  }

  lemma InsertKeeps(x: Node, s: seq<Node>)
    ensures multiset(FringeAll(Insert(x, s, NodeFrequency))) == multiset(Fringe(x)) + multiset(FringeAll(s))
    ensures FrequencySum(Insert(x, s, NodeFrequency)) == x.frequency + FrequencySum(s)
  {
    InsertKeepsLeaves(x, s);
    InsertKeepsSum(x, s);
  }

  lemma {:induction false} InsertKeepsLeaves(x: Node, s: seq<Node>)
    ensures multiset(FringeAll(Insert(x, s, NodeFrequency))) == multiset(Fringe(x)) + multiset(FringeAll(s))
  {
    var r := Insert(x, s, NodeFrequency);
    if s != [] && NodeFrequency(x) > NodeFrequency(s[0]) {
      var t := Insert(x, s[1..], NodeFrequency);
      assert r == [s[0]] + t;
      FringeAllCons(s[0], t);
      FringeAllCons(s[0], s[1..]);
      assert [s[0]] + s[1..] == s;
      InsertKeepsLeaves(x, s[1..]);
      calc {
        multiset(FringeAll(r));
        multiset(Fringe(s[0])) + multiset(FringeAll(t));
        multiset(Fringe(s[0])) + (multiset(Fringe(x)) + multiset(FringeAll(s[1..])));
        multiset(Fringe(x)) + (multiset(Fringe(s[0])) + multiset(FringeAll(s[1..])));
        multiset(Fringe(x)) + multiset(FringeAll(s));
      }
    } else {
      assert r == [x] + s;
      FringeAllCons(x, s);
    }
  }

  lemma FringeAllCons(n: Node, t: seq<Node>)
    ensures FringeAll([n] + t) == Fringe(n) + FringeAll(t)
  {
    assert ([n] + t)[0] == n && ([n] + t)[1..] == t;
  }

  lemma {:induction false} InsertKeepsSum(x: Node, s: seq<Node>)
    ensures FrequencySum(Insert(x, s, NodeFrequency)) == x.frequency + FrequencySum(s)
  {
    var r := Insert(x, s, NodeFrequency);
    if s != [] && NodeFrequency(x) > NodeFrequency(s[0]) {
      InsertKeepsSum(x, s[1..]);
      assert r[0] == s[0] && r[1..] == Insert(x, s[1..], NodeFrequency);
    } else {
      assert r[0] == x && r[1..] == s;
    }
  }

  lemma {:induction false} SortKeeps(s: seq<Node>)
    ensures multiset(FringeAll(Sort(s, NodeFrequency))) == multiset(FringeAll(s))
    ensures FrequencySum(Sort(s, NodeFrequency)) == FrequencySum(s)
  {
    if s != [] {
      SortKeeps(s[1..]);
      InsertKeeps(s[0], Sort(s[1..], NodeFrequency));
    }
  }

  lemma ShiftPushLeaves(s: seq<Node>)
    requires |s| > 1
    ensures multiset(FringeAll(s[2..] + [Parent(s[0], s[1])])) == multiset(FringeAll(s))
  {
    var r := s[2..];
    PushedLeaves(s[0], s[1], r);
    FirstTwo(s);
    FringeAllCons(s[1], r);
    FringeAllCons(s[0], s[1..]);
    MultisetRotate(Fringe(s[0]) + Fringe(s[1]), FringeAll(r));
  }

  /** The leaves after pushing the parent of `l` and `r` behind `rest`. */
  lemma PushedLeaves(l: Node, r: Node, rest: seq<Node>)
    ensures FringeAll(rest + [Parent(l, r)]) == FringeAll(rest) + (Fringe(l) + Fringe(r))
  {
    var p := Parent(l, r);
    FringeAllAppend(rest, [p]);
    FringeAllCons(p, []);
    assert [p] + [] == [p];
  }

  lemma FirstTwo<T>(s: seq<T>)
    requires |s| > 1
    ensures s == [s[0]] + s[1..] && s[1..] == [s[1]] + s[2..]
  {
  }

  lemma MultisetRotate<T>(x: seq<T>, y: seq<T>)
    ensures multiset(y + x) == multiset(x + y)
  {
  }

  lemma ShiftPushFrequency(s: seq<Node>)
    requires |s| > 1
    ensures FrequencySum(s[2..] + [Parent(s[0], s[1])]) == FrequencySum(s)
  {
    var p := Parent(s[0], s[1]);
    FrequencySumAppend(s[2..], [p]);
    assert FrequencySum([p]) == p.frequency + FrequencySum([]);
    assert s[1..][1..] == s[2..];
  }

  lemma MergeStepKeepsLeaves(ns: seq<Node>)
    requires |ns| > 1
    ensures multiset(FringeAll(MergeStep(ns))) == multiset(FringeAll(ns))
  {
    SortKeeps(ns);
    ShiftPushLeaves(Sort(ns, NodeFrequency));
  }

  lemma MergeStepKeepsFrequency(ns: seq<Node>)
    requires |ns| > 1
    ensures FrequencySum(MergeStep(ns)) == FrequencySum(ns)
  {
    SortKeeps(ns);
    ShiftPushFrequency(Sort(ns, NodeFrequency));
  }

  lemma MergeStepKeepsShape(ns: seq<Node>)
    requires |ns| > 1 && MergedUncoded(ns)
    ensures MergedUncoded(MergeStep(ns))
  {
    var s := Sort(ns, NodeFrequency);
    forall i | 0 <= i < |s| ensures Merged(s[i]) && Uncoded(s[i]) {
      assert s[i] in multiset(ns);
    }
  }

  /**
   * A pass keeps the leaves of the list (as a multiset), the total
   * frequency, and the shape of every node.
   */
  lemma MergeStepKeeps(ns: seq<Node>)
    requires |ns| > 1
    ensures multiset(FringeAll(MergeStep(ns))) == multiset(FringeAll(ns))
    ensures FrequencySum(MergeStep(ns)) == FrequencySum(ns)
    ensures MergedUncoded(ns) ==> MergedUncoded(MergeStep(ns))
  {
    MergeStepKeepsLeaves(ns);
    MergeStepKeepsFrequency(ns);
    if MergedUncoded(ns) {
      MergeStepKeepsShape(ns);
    }
  }

  lemma {:induction false} MergeAllKeeps(ns: seq<Node>)
    ensures multiset(FringeAll(MergeAll(ns))) == multiset(FringeAll(ns))
    ensures FrequencySum(MergeAll(ns)) == FrequencySum(ns)
    ensures MergedUncoded(ns) ==> MergedUncoded(MergeAll(ns))
    decreases |ns|
  {
    if |ns| > 1 {
      MergeStepKeeps(ns);
      MergeAllKeeps(MergeStep(ns));
    }
  }

  lemma {:induction false} MergedErase(t: Node)
    ensures Merged(Erase(t)) <==> Merged(t)
  {
    if t.Branch? {
      MergedErase(t.left);
      MergedErase(t.right);
    }
  }

  /** Clearing the codes clears them in the leaves and changes nothing else there. */
  lemma {:induction false} EraseFringe(t: Node)
    ensures |Fringe(Erase(t))| == |Fringe(t)|
    ensures forall i :: 0 <= i < |Fringe(t)| ==>
      Fringe(Erase(t))[i] == Leaf(Fringe(t)[i].symbols, Fringe(t)[i].frequency, "")
  {
    if t.Branch? {
      EraseFringe(t.left);
      EraseFringe(t.right);
    }
  }

  /**
   * The tree built from a frequency object: none exactly when the object is
   * empty; otherwise its leaves, codes aside, are one leaf per entry, its
   * parents join their children's symbols and add their frequencies, so the
   * root carries the sum of all counts, it has one parent fewer than it has
   * leaves, and its codes run from "" down with "0" to the left and "1" to
   * the right, so no leaf code is a prefix of another.
   */
  lemma HuffmanTreeFacts(frequencyData: Object<int>)
    ensures HuffmanTree(frequencyData).None? <==> frequencyData == []
    ensures HuffmanTree(frequencyData).Some? ==>
      var root := HuffmanTree(frequencyData).value;
      && multiset(Fringe(Erase(root))) == multiset(Leaves(Entries(frequencyData)))
      && Merged(root)
      && root.frequency == ValueSum(Entries(frequencyData))
      && |Fringe(root)| == |frequencyData|
      && InternalCount(root) == |frequencyData| - 1
      && CodedFrom(root, "")
      && PrefixFree(Codes(Fringe(root)))
  {
    MergedRoot(frequencyData);
    var ns := MergeAll(Leaves(Entries(frequencyData)));
    if ns != [] {
      var root := AssignCodes(ns[0], "");
      MergedErase(root);
      EraseFringe(root);
      LeafCount(root);
      CodedPrefixFree(root, "");
    }
  }

  /** The one node the loop leaves for a nonempty object, before codes are assigned. */
  lemma MergedRoot(frequencyData: Object<int>)
    ensures MergeAll(Leaves(Entries(frequencyData))) == [] <==> frequencyData == []
    ensures MergeAll(Leaves(Entries(frequencyData))) != [] ==>
      var u := MergeAll(Leaves(Entries(frequencyData)))[0];
      && multiset(Fringe(u)) == multiset(Leaves(Entries(frequencyData)))
      && Merged(u) && Erase(u) == u
      && u.frequency == ValueSum(Entries(frequencyData))
      && |Fringe(u)| == |frequencyData|
  {
    var es := Entries(frequencyData);
    var leaves := Leaves(es);
    var ns := MergeAll(leaves);
    if ns != [] {
      var u := ns[0];
      LoneNode(ns);
      assert multiset(Fringe(u)) == multiset(leaves) && u.frequency == ValueSum(es) && MergedUncoded(ns) by {
        LeavesFacts(es);
        MergeAllKeeps(leaves);
      }
      assert Merged(u) && Erase(u) == u by {
        EraseUncoded(u);
      }
      assert |Fringe(u)| == |leaves| by {
        assert |multiset(Fringe(u))| == |multiset(leaves)|;
      }
    }
  }

  lemma LoneNode(ns: seq<Node>)
    requires |ns| == 1
    ensures FringeAll(ns) == Fringe(ns[0]) && FrequencySum(ns) == ns[0].frequency
  {
    assert ns[1..] == [];
  }

  /** A single entry gives a lone leaf whose code is the empty string. */
  lemma SingleEntry(key: string, count: int)
    ensures HuffmanTree([Prop(key, count)]) == Some(Leaf(key, count, ""))
  {
    var o := [Prop(key, count)];
    assert Sort(o, PropRank) == o;
  }

  /** With two entries or more the root is a parent, so every leaf code is nonempty. */
  lemma CodesNonempty(frequencyData: Object<int>)
    requires |frequencyData| >= 2
    ensures HuffmanTree(frequencyData).Some?
    ensures HuffmanTree(frequencyData).value.Branch?
    ensures forall i :: 0 <= i < |Fringe(HuffmanTree(frequencyData).value)| ==>
      Fringe(HuffmanTree(frequencyData).value)[i].code != ""
  {
    HuffmanTreeFacts(frequencyData);
    var root := HuffmanTree(frequencyData).value;
    LeafCount(root);
    CodesExtend(root, "");
  }
}
