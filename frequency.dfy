/**
 * Symbol counting: `calculateFrequency` and the `POST` handler of the
 * calculate-frequency route.
 *
 * The handler loops over the text, bumping `freq[char]` once per symbol, and
 * answers `Object.entries(freq)` as `{ char, count }` rows.  A text is a
 * sequence of symbols (`char`); every key the loop creates is a
 * one-symbol string.
 */
module Frequency {
  import opened Sorting
  import opened Js

  /** One row of the answer: `{ char, count }`. */
  datatype Entry = Entry(symbol: string, count: int)

  /** How many times `c` occurs in `text`. */
  function Occurrences(text: string, c: char): nat {
    if text == [] then 0
    else Occurrences(text[..|text| - 1], c) + (if text[|text| - 1] == c then 1 else 0)
  }

  /** The distinct symbols of `text`, each where it first occurs. */
  function FirstOccurrences(text: string): seq<char> {
    if text == [] then []
    else
      var ks := FirstOccurrences(text[..|text| - 1]);
      if text[|text| - 1] in ks then ks else ks + [text[|text| - 1]]
  }

  /** Position of the first occurrence of `c`. */
  function IndexOf(text: string, c: char): (p: nat)
    requires c in text
    ensures p < |text| && text[p] == c && c !in text[..p]
  {
    if text[0] == c then 0
    else
      assert text == [text[0]] + text[1..];
      1 + IndexOf(text[1..], c)
  }

  /** One property per symbol of `ks`: the key is the symbol, the value its count in `text`. */
  function TallyOver(text: string, ks: seq<char>): (o: Object<int>)
    ensures |o| == |ks|
    ensures forall j :: 0 <= j < |ks| ==> o[j] == Prop([ks[j]], Occurrences(text, ks[j]) as int)
  {
    if ks == [] then [] else [Prop([ks[0]], Occurrences(text, ks[0]) as int)] + TallyOver(text, ks[1..])
  }

  /**
   * The `freq` object after the whole text: one property per distinct
   * symbol, in first-occurrence order, holding how often it occurs.
   */
  function Tally(text: string): Object<int> {
    TallyOver(text, FirstOccurrences(text))
  }

  /** `.map(([char, count]) => ({ char, count }))` */
  function AsEntries(props: seq<Prop<int>>): (table: seq<Entry>)
    ensures |table| == |props|
    ensures forall i :: 0 <= i < |props| ==> table[i] == Entry(props[i].key, props[i].value)
  {
    if props == [] then [] else [Entry(props[0].key, props[0].value)] + AsEntries(props[1..])
  }

  /** `v || 0` for a count that may be `undefined`. */
  function OrZero(v: Option<int>): int {
    if v.Some? then v.value else 0
  }

  /** What `calculateFrequency(text)` returns: one row per distinct symbol, none for no text. */
  function TableOf(text: string): (table: seq<Entry>)
    ensures |table| == |FirstOccurrences(text)|
    ensures table == [] <==> text == []
  {
    FirstOccurrencesFacts(text);
    assert text != [] ==> text[0] in FirstOccurrences(text);
    AsEntries(Entries(Tally(text)))
  }

  /** `calculateFrequency`: count every symbol in one pass, then list the counts. */
  method CalculateFrequency(text: string) returns (table: seq<Entry>)
    ensures table == TableOf(text)
  {
    var freq: Object<int> := [];
    for i := 0 to |text|
      invariant freq == Tally(text[..i])
    {
      TallyPrefixStep(text, i);
      freq := Bump(freq, text[i]);
    }
    assert text[..|text|] == text;
    table := AsEntries(Entries(freq));
  }

  /** The `POST` handler: a missing or empty text is refused before any counting. */
  method Post(text: Option<string>) returns (r: Response<seq<Entry>>)
    ensures text.None? || text.value == [] <==> r == Failed(400, "Text is required")
    ensures text.Some? && text.value != [] ==> r == Ok(TableOf(text.value))
  {
    if text.None? || text.value == [] {
      return Failed(400, "Text is required");
    }
    var table := CalculateFrequency(text.value);
    return Ok(table);
  }

  // ---------------------------------------------------------------------
  // Facts about first occurrences and counts

  lemma {:induction false} FirstOccurrencesFacts(text: string)
    ensures forall i, j :: 0 <= i < j < |FirstOccurrences(text)| ==> FirstOccurrences(text)[i] != FirstOccurrences(text)[j]
    ensures forall c :: c in FirstOccurrences(text) <==> c in text
    ensures forall c :: Occurrences(text, c) > 0 <==> c in text
  {
    if text != [] {
      var t := text[..|text| - 1];
      FirstOccurrencesFacts(t);
      assert text == t + [text[|text| - 1]];
    }
  }

  /** First occurrences are listed in the order in which they happen in the text. */
  lemma {:induction false} FirstOccurrencesInOrder(text: string)
    ensures InFirstOccurrenceOrder(text)
  {
    if text == [] {
      assert FirstOccurrences(text) == [];
    } else {
      var t, c := text[..|text| - 1], text[|text| - 1];
      assert text == t + [c];
      FirstOccurrencesInOrder(t);
      InOrderExtend(t, c);
    }
  }

  /** The first occurrences of `text` appear in `text`, in the order in which they happen. */
  ghost predicate InFirstOccurrenceOrder(text: string) {
    forall i, j :: 0 <= i < j < |FirstOccurrences(text)| ==>
      FirstOccurrences(text)[i] in text && FirstOccurrences(text)[j] in text &&
      IndexOf(text, FirstOccurrences(text)[i]) < IndexOf(text, FirstOccurrences(text)[j])
  }

  lemma InOrderExtend(t: string, c: char)
    requires InFirstOccurrenceOrder(t)
    ensures InFirstOccurrenceOrder(t + [c])
  {
    var text := t + [c];
    var fs, ks := FirstOccurrences(text), FirstOccurrences(t);
    assert text[..|text| - 1] == t;
    assert forall k :: k in ks <==> k in t by {
      FirstOccurrencesFacts(t);
    }
    assert forall k :: k in t ==> IndexOf(text, k) == IndexOf(t, k) by {
      forall k | k in t ensures IndexOf(text, k) == IndexOf(t, k) {
        IndexOfExtend(t, c, k);
      }
    }
    if c in ks {
      assert fs == ks;
      forall i, j | 0 <= i < j < |fs| ensures fs[i] in text && fs[j] in text && IndexOf(text, fs[i]) < IndexOf(text, fs[j]) {
        assert ks[i] in t && ks[j] in t;
      }
    } else {
      assert fs == ks + [c];
      assert IndexOf(text, c) == |t| by {
        assert forall p :: 0 <= p < |t| ==> text[p] == t[p];
      }
      forall i, j | 0 <= i < j < |fs| ensures fs[i] in text && fs[j] in text && IndexOf(text, fs[i]) < IndexOf(text, fs[j]) {
        if j == |ks| {
          assert fs[i] == ks[i] && fs[j] == c;
        } else {
          assert fs[i] == ks[i] && fs[j] == ks[j];
        }
      }
    }
  }

  lemma {:induction false} IndexOfExtend(t: string, c: char, k: char)
    requires k in t
    ensures IndexOf(t + [c], k) == IndexOf(t, k)
  {
    if t[0] != k {
      assert (t + [c])[1..] == t[1..] + [c];
      IndexOfExtend(t[1..], c, k);
    }
  }

  // ---------------------------------------------------------------------
  // The counting loop

  lemma TallyUnique(text: string)
    ensures UniqueKeys(Tally(text))
  {
    FirstOccurrencesFacts(text);
  }

  lemma TallyGet(text: string, k: string)
    ensures Get(Tally(text), k) ==
      if |k| == 1 && k[0] in text then Some(Occurrences(text, k[0]) as int) else None
  {
    FirstOccurrencesFacts(text);
    TallyUnique(text);
    var ks := FirstOccurrences(text);
    if |k| == 1 && k[0] in text {
      var j :| 0 <= j < |ks| && ks[j] == k[0];
      assert Tally(text)[j] == Prop(k, Occurrences(text, k[0]) as int);
      GetIn(Tally(text), k, Occurrences(text, k[0]) as int);
    } else {
      forall j | 0 <= j < |ks| ensures Keys(Tally(text))[j] != k {
        assert Keys(Tally(text))[j] == [ks[j]];
      }
    }
  }

  /** A one-symbol key is a key of the tally exactly when the symbol occurs. */
  lemma TallyHasKey(t: string, c: char)
    ensures [c] in Keys(Tally(t)) <==> c in t
  {
    TallyGet(t, [c]);
  }

  lemma TallyKeysStep(t: string, c: char)
    ensures Keys(Tally(t + [c])) == if c in t then Keys(Tally(t)) else Keys(Tally(t)) + [[c]]
  {
    var t' := t + [c];
    assert t'[..|t'| - 1] == t;
    FirstOccurrencesFacts(t);
    var ks := FirstOccurrences(t);
    if c in t {
      assert FirstOccurrences(t') == ks;
    } else {
      assert FirstOccurrences(t') == ks + [c];
      var a := Keys(Tally(t'));
      var b := Keys(Tally(t)) + [[c]];
      assert |a| == |b|;
      forall j | 0 <= j < |a| ensures a[j] == b[j] {
        if j < |ks| {
          assert a[j] == [ks[j]];
        }
      }
    }
  }

  lemma OccurrencesExtend(t: string, c: char, d: char)
    ensures Occurrences(t + [c], d) == Occurrences(t, d) + (if c == d then 1 else 0)
  {
    assert (t + [c])[..|t|] == t;
  }

  lemma {:induction false} OccurrencesPositive(t: string, c: char)
    ensures Occurrences(t, c) > 0 <==> c in t
  {
    if t != [] {
      OccurrencesPositive(t[..|t| - 1], c);
      assert t == t[..|t| - 1] + [t[|t| - 1]];
    }
  }

  lemma TallyGetStepAt(t: string, c: char, n: int, k: string)
    requires n == Occurrences(t, c) + 1
    ensures Get(Tally(t + [c]), k) == Get(Set(Tally(t), [c], n), k)
  {
    TallyGet(t + [c], k);
    TallyGet(t, k);
    if k == [c] {
      OccurrencesExtend(t, c, c);
    } else if |k| == 1 {
      OccurrencesExtend(t, c, k[0]);
      assert k[0] != c;
      assert k[0] in t + [c] <==> k[0] in t;
    }
  }

  lemma TallyGetStep(t: string, c: char, n: int)
    requires n == Occurrences(t, c) + 1
    ensures forall k :: Get(Tally(t + [c]), k) == Get(Set(Tally(t), [c], n), k)
  {
    forall k ensures Get(Tally(t + [c]), k) == Get(Set(Tally(t), [c], n), k) {
      TallyGetStepAt(t, c, n, k);
    }
  }

  /** `freq[char] = (freq[char] || 0) + 1` */
  function Bump(freq: Object<int>, c: char): Object<int> {
    Set(freq, [c], OrZero(Get(freq, [c])) + 1)
  }

  /** One pass of the counting loop, on the prefix of the text it has read. */
  lemma TallyPrefixStep(text: string, i: nat)
    requires i < |text|
    ensures Tally(text[..i + 1]) == Bump(Tally(text[..i]), text[i])
  {
    assert text[..i + 1] == text[..i] + [text[i]];
    TallyStep(text[..i], text[i]);
  }

  /**
   * One pass of the loop takes the tally of a prefix to the tally of the
   * prefix extended by `c`: only the count of `c` changes, by one, and a
   * new symbol is appended last.
   */
  lemma TallyStep(t: string, c: char)
    ensures Tally(t + [c]) == Bump(Tally(t), c)
  {
    var o := Tally(t);
    TallyGet(t, [c]);
    OccurrencesPositive(t, c);
    var n := Occurrences(t, c) + 1;
    assert OrZero(Get(o, [c])) + 1 == n;
    TallyUnique(t);
    TallyUnique(t + [c]);
    SetUnique(o, [c], n);
    SetKeys(o, [c], n);
    TallyHasKey(t, c);
    TallyKeysStep(t, c);
    TallyGetStep(t, c, n);
    ObjectExt(Tally(t + [c]), Set(o, [c], n));
  }

  /** One pass of the loop adds one to the count of the symbol read and leaves every other count as it was. */
  lemma LoopStepBumpsOne(t: string, c: char)
    ensures Get(Tally(t + [c]), [c]) == Some(OrZero(Get(Tally(t), [c])) + 1)
    ensures forall k :: k != [c] ==> Get(Tally(t + [c]), k) == Get(Tally(t), k)
  {
    StepBumpsSymbol(t, c);
    forall k | k != [c] ensures Get(Tally(t + [c]), k) == Get(Tally(t), k) {
      StepKeepsOther(t, c, k);
    }
  }

  /** `freq[char] || 0` reads how often `char` occurred before, 0 for a symbol not seen yet. */
  lemma CountSoFar(t: string, c: char)
    ensures OrZero(Get(Tally(t), [c])) == Occurrences(t, c) as int
  {
    TallyGet(t, [c]);
    OccurrencesPositive(t, c);
  }

  lemma StepBumpsSymbol(t: string, c: char)
    ensures Get(Tally(t + [c]), [c]) == Some(OrZero(Get(Tally(t), [c])) + 1)
  {
    TallyGet(t + [c], [c]);
    TallyGet(t, [c]);
    OccurrencesPositive(t, c);
    OccurrencesExtend(t, c, c);
  }

  lemma StepKeepsOther(t: string, c: char, k: string)
    requires k != [c]
    ensures Get(Tally(t + [c]), k) == Get(Tally(t), k)
  {
    TallyGet(t + [c], k);
    TallyGet(t, k);
    if |k| == 1 {
      assert k == [k[0]];
      OccurrencesExtend(t, c, k[0]);
      assert k[0] in t + [c] <==> k[0] in t;
    }
  }

  // ---------------------------------------------------------------------
  // Sums over the table

  /** Σ count × w(symbol) over the rows of a table. */
  function Weighted(table: seq<Entry>, w: string -> int): int {
    if table == [] then 0 else table[0].count * w(table[0].symbol) + Weighted(table[1..], w)
  }

  /** Σ w(symbol) over the symbols of a text, one term per occurrence. */
  function SymbolWeights(text: string, w: string -> int): int {
    if text == [] then 0 else SymbolWeights(text[..|text| - 1], w) + w([text[|text| - 1]])
  }

  function One(s: string): int {
    1
  }

  /** The sum of all counts in a table. */
  function TotalCount(table: seq<Entry>): int {
    Weighted(table, One)
  }

  lemma {:induction false} WeightedAppend(a: seq<Entry>, b: seq<Entry>, w: string -> int)
    ensures Weighted(a + b, w) == Weighted(a, w) + Weighted(b, w)
  {
    if a == [] {
      assert a + b == b;
    } else {
      assert (a + b)[1..] == a[1..] + b;
      WeightedAppend(a[1..], b, w);
    }
  }

  lemma {:induction false} WeightedInsert(x: Prop<int>, s: seq<Prop<int>>, w: string -> int)
    ensures Weighted(AsEntries(Insert(x, s, PropRank)), w) == x.value * w(x.key) + Weighted(AsEntries(s), w)
  {
    if s != [] && PropRank(x) > PropRank(s[0]) {
      WeightedInsert(x, s[1..], w);
      assert AsEntries(Insert(x, s, PropRank))[1..] == AsEntries(Insert(x, s[1..], PropRank));
      assert AsEntries(s)[1..] == AsEntries(s[1..]);
    } else {
      assert AsEntries(Insert(x, s, PropRank))[1..] == AsEntries(s);
    }
  }

  /** Reordering by `Object.entries` does not change a weighted sum. */
  lemma {:induction false} WeightedSort(s: seq<Prop<int>>, w: string -> int)
    ensures Weighted(AsEntries(Sort(s, PropRank)), w) == Weighted(AsEntries(s), w)
  {
    if s != [] {
      WeightedSort(s[1..], w);
      WeightedInsert(s[0], Sort(s[1..], PropRank), w);
      assert AsEntries(s)[1..] == AsEntries(s[1..]);
    }
  }

  lemma {:induction false} TallyOverAppend(text: string, a: seq<char>, b: seq<char>)
    ensures TallyOver(text, a + b) == TallyOver(text, a) + TallyOver(text, b)
  {
  }

  lemma {:induction false} AsEntriesAppend(a: seq<Prop<int>>, b: seq<Prop<int>>)
    ensures AsEntries(a + b) == AsEntries(a) + AsEntries(b)
  {
  }

  /** Extending the text by `c` adds w(c) once, provided `c` is listed once in `ks`. */
  lemma {:induction false} TallyOverExtend(t: string, c: char, ks: seq<char>, w: string -> int)
    requires forall i, j :: 0 <= i < j < |ks| ==> ks[i] != ks[j]
    ensures Weighted(AsEntries(TallyOver(t + [c], ks)), w) ==
      Weighted(AsEntries(TallyOver(t, ks)), w) + (if c in ks then w([c]) else 0)
  {
    if ks != [] {
      var k, rest := ks[0], ks[1..];
      DistinctTail(ks, c);
      TallyOverExtend(t, c, rest, w);
      ExtendCons(t, c, ks, w);
      WeightedTallyOverCons(t, ks, w);
      WeightStep(Weighted(AsEntries(TallyOver(t + [c], ks)), w), Weighted(AsEntries(TallyOver(t, ks)), w),
        Weighted(AsEntries(TallyOver(t + [c], rest)), w), Weighted(AsEntries(TallyOver(t, rest)), w),
        Occurrences(t, k), w([k]), w([c]), k == c, c in rest);
    }
  }

  lemma DistinctTail(ks: seq<char>, c: char)
    requires ks != [] && forall i, j :: 0 <= i < j < |ks| ==> ks[i] != ks[j]
    ensures forall i, j :: 0 <= i < j < |ks[1..]| ==> ks[1..][i] != ks[1..][j]
    ensures ks[0] == c ==> c !in ks[1..]
    ensures c in ks <==> ks[0] == c || c in ks[1..]
  {
    assert ks == [ks[0]] + ks[1..];
  }

  lemma ExtendCons(t: string, c: char, ks: seq<char>, w: string -> int)
    requires ks != []
    ensures Weighted(AsEntries(TallyOver(t + [c], ks)), w) ==
      (Occurrences(t, ks[0]) + (if ks[0] == c then 1 else 0)) * w([ks[0]]) + Weighted(AsEntries(TallyOver(t + [c], ks[1..])), w)
  {
    WeightedTallyOverCons(t + [c], ks, w);
    OccurrencesExtend(t, c, ks[0]);
  }

  /** The arithmetic of one step of `TallyOverExtend`. */
  lemma WeightStep(a': int, a: int, b': int, b: int, n: int, wk: int, wc: int, hit: bool, inRest: bool)
    requires a' == (n + (if hit then 1 else 0)) * wk + b'
    requires a == n * wk + b
    requires b' == b + (if inRest then wc else 0)
    requires hit ==> !inRest && wk == wc
    ensures a' == a + (if hit || inRest then wc else 0)
  {
    if hit {
      assert (n + 1) * wk == n * wk + wk;
    }
  }

  lemma WeightedTallyOverCons(text: string, ks: seq<char>, w: string -> int)
    requires ks != []
    ensures Weighted(AsEntries(TallyOver(text, ks)), w) ==
      Occurrences(text, ks[0]) * w([ks[0]]) + Weighted(AsEntries(TallyOver(text, ks[1..])), w)
  {
    var es := AsEntries(TallyOver(text, ks));
    assert es[1..] == AsEntries(TallyOver(text, ks[1..]));
  }

  lemma TallyOverSnoc(text: string, ks: seq<char>, c: char, w: string -> int)
    ensures Weighted(AsEntries(TallyOver(text, ks + [c])), w) ==
      Weighted(AsEntries(TallyOver(text, ks)), w) + Occurrences(text, c) * w([c])
  {
    TallyOverAppend(text, ks, [c]);
    AsEntriesAppend(TallyOver(text, ks), TallyOver(text, [c]));
    WeightedAppend(AsEntries(TallyOver(text, ks)), AsEntries(TallyOver(text, [c])), w);
  }

  /** Σ count × w(symbol) over the tally equals Σ w(symbol) over the text. */
  lemma {:induction false} TallyWeight(text: string, w: string -> int)
    ensures Weighted(AsEntries(Tally(text)), w) == SymbolWeights(text, w)
  {
    if text != [] {
      var t := text[..|text| - 1];
      var c := text[|text| - 1];
      assert text == t + [c];
      TallyWeight(t, w);
      FirstOccurrencesFacts(t);
      var ks := FirstOccurrences(t);
      TallyOverExtend(t, c, ks, w);
      if c !in ks {
        assert FirstOccurrences(text) == ks + [c];
        TallyOverSnoc(text, ks, c, w);
        OccurrencesPositive(t, c);
        OccurrencesExtend(t, c, c);
      }
    }
  }

  /** Σ count × w(symbol) over the rows equals Σ w(symbol) over the text. */
  lemma TableWeight(text: string, w: string -> int)
    ensures Weighted(TableOf(text), w) == SymbolWeights(text, w)
  {
    WeightedSort(Tally(text), w);
    TallyWeight(text, w);
  }

  lemma {:induction false} SymbolWeightsOne(text: string)
    ensures SymbolWeights(text, One) == |text|
  {
    if text != [] {
      SymbolWeightsOne(text[..|text| - 1]);
    }
  }

  // ---------------------------------------------------------------------
  // What the route promises about its answer

  /**
   * Every distinct symbol of the text has exactly one row, no other row
   * exists, and each row counts its symbol's occurrences, so every count is
   * at least one.
   */
  lemma TableRows(text: string)
    ensures forall i, j :: 0 <= i < j < |TableOf(text)| ==> TableOf(text)[i].symbol != TableOf(text)[j].symbol
    ensures forall i :: 0 <= i < |TableOf(text)| ==>
      |TableOf(text)[i].symbol| == 1 && TableOf(text)[i].symbol[0] in text &&
      TableOf(text)[i].count == Occurrences(text, TableOf(text)[i].symbol[0]) >= 1
    ensures forall c :: c in text ==> Entry([c], Occurrences(text, c)) in TableOf(text)
  {
    TableRowsDistinct(text);
    TableRowsCounted(text);
    TableRowsCover(text);
  }

  lemma TableRowsDistinct(text: string)
    ensures forall i, j :: 0 <= i < j < |TableOf(text)| ==> TableOf(text)[i].symbol != TableOf(text)[j].symbol
  {
    TallyUnique(text);
    assert UniqueKeys(Entries(Tally(text)));
  }

  lemma TableRowsCounted(text: string)
    ensures forall i :: 0 <= i < |TableOf(text)| ==>
      |TableOf(text)[i].symbol| == 1 && TableOf(text)[i].symbol[0] in text &&
      TableOf(text)[i].count == Occurrences(text, TableOf(text)[i].symbol[0]) >= 1
  {
    var o := Tally(text);
    var es := Entries(o);
    var ks := FirstOccurrences(text);
    FirstOccurrencesFacts(text);
    forall i | 0 <= i < |es| ensures |es[i].key| == 1 && es[i].key[0] in text && es[i].value == Occurrences(text, es[i].key[0]) {
      assert es[i] in multiset(o);
      var j :| 0 <= j < |o| && o[j] == es[i];
      assert ks[j] in ks;
    }
  }

  lemma TableRowsCover(text: string)
    ensures forall c :: c in text ==> Entry([c], Occurrences(text, c)) in TableOf(text)
  {
    var o := Tally(text);
    var es := Entries(o);
    var ks := FirstOccurrences(text);
    FirstOccurrencesFacts(text);
    forall c | c in text ensures Entry([c], Occurrences(text, c)) in TableOf(text) {
      var j :| 0 <= j < |ks| && ks[j] == c;
      assert o[j] in multiset(es);
      var i :| 0 <= i < |es| && es[i] == o[j];
      assert TableOf(text)[i] == Entry([c], Occurrences(text, c));
    }
  }

  /** The counts add up to the length of the text. */
  lemma CountsSumToLength(text: string)
    ensures TotalCount(TableOf(text)) == |text|
  {
    TableWeight(text, One);
    SymbolWeightsOne(text);
  }

  /**
   * Row order: when no symbol is a decimal digit (the only one-symbol array
   * indices), the rows follow the first occurrences in the text; digits
   * otherwise come first, in ascending order.
   */
  lemma TableOrder(text: string)
    requires forall c :: c in text ==> !IsDigit(c)
    ensures |TableOf(text)| == |FirstOccurrences(text)|
    ensures forall i :: 0 <= i < |TableOf(text)| ==> TableOf(text)[i].symbol == [FirstOccurrences(text)[i]]
  {
    FirstOccurrencesFacts(text);
    var o := Tally(text);
    forall i | 0 <= i < |o| ensures !IsArrayIndex(o[i].key) {
      assert o[i].key[0] in text;
    }
    EntriesWithoutIndexKeys(o);
  }
}
