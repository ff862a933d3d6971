/**
 * The JavaScript values the route handlers and the display component work
 * on: optional values, handler responses, and plain objects used as
 * dictionaries.
 *
 * A plain object is modelled as its own properties in creation order.
 * Assigning to an existing key keeps the key's place and replaces its value;
 * assigning to a new key appends it.  `Object.entries` reports array-index
 * keys first, in ascending numeric order, then the other string keys in
 * creation order (OrdinaryOwnPropertyKeys, section 9.1.11.1 of ECMA-262,
 * 2020 edition).
 */
module Js {
  import opened Sorting

  datatype Option<T> = None | Some(value: T)

  /** What a route handler answers: a JSON body, or an error status with its message. */
  datatype Response<T> = Ok(body: T) | Failed(status: int, error: string)

  /** One own property of a plain object. */
  datatype Prop<V> = Prop(key: string, value: V)

  /** A plain object: its own properties in creation order. */
  type Object<V> = seq<Prop<V>>

  function Keys<V>(o: Object<V>): (ks: seq<string>)
    ensures |ks| == |o|
    ensures forall i :: 0 <= i < |o| ==> ks[i] == o[i].key
  {
    if o == [] then [] else [o[0].key] + Keys(o[1..])
  }

  function KeyOf<V>(p: Prop<V>): string {
    p.key
  }

  /** No key occurs twice; every object the model builds has this shape. */
  ghost predicate UniqueKeys<V>(o: Object<V>) {
    forall i, j :: 0 <= i < j < |o| ==> o[i].key != o[j].key
  }

  lemma UniqueKeysDistinctBy<V>(o: Object<V>)
    ensures UniqueKeys(o) <==> DistinctBy(o, KeyOf)
  {
    assert forall i :: 0 <= i < |o| ==> KeyOf(o[i]) == o[i].key;
  }

  /** Property lookup `o[k]`; `None` stands for `undefined`. */
  function Get<V>(o: Object<V>, k: string): (r: Option<V>)
    ensures r.Some? <==> k in Keys(o)
    ensures r.Some? ==> Prop(k, r.value) in o
  {
    if o == [] then None
    else if o[0].key == k then Some(o[0].value)
    else Get(o[1..], k)
  }

  /** With unique keys, a lookup finds exactly the stored property. */
  lemma {:induction false} GetIn<V>(o: Object<V>, k: string, v: V)
    requires UniqueKeys(o)
    ensures Get(o, k) == Some(v) <==> Prop(k, v) in o
  {
    if o != [] && o[0].key != k {
      assert UniqueKeys(o[1..]);
      GetIn(o[1..], k, v);
    } else if o != [] {
      assert forall i :: 0 < i < |o| ==> o[i].key != o[0].key;
    }
  }

  /** Property assignment `o[k] = v`. */
  function Set<V>(o: Object<V>, k: string, v: V): (r: Object<V>)
    ensures Get(r, k) == Some(v)
    ensures forall k' :: k' != k ==> Get(r, k') == Get(o, k')
  {
    if o == [] then [Prop(k, v)]
    else if o[0].key == k then [Prop(k, v)] + o[1..]
    else
      var rest := Set(o[1..], k, v);
      assert ([o[0]] + rest)[1..] == rest;
      [o[0]] + rest
  }

  /** Assigning an existing key keeps every key in its place. */
  lemma {:induction false} SetExisting<V>(o: Object<V>, k: string, v: V)
    requires k in Keys(o)
    ensures Keys(Set(o, k, v)) == Keys(o)
  {
    if o[0].key != k {
      assert Keys(o) == [o[0].key] + Keys(o[1..]);
      SetExisting(o[1..], k, v);
      var rest := Set(o[1..], k, v);
      assert Keys([o[0]] + rest) == [o[0].key] + Keys(rest);
    }
  }

  /** Assigning a new key appends it. */
  lemma {:induction false} SetNew<V>(o: Object<V>, k: string, v: V)
    requires k !in Keys(o)
    ensures Set(o, k, v) == o + [Prop(k, v)]
  {
    if o != [] {
      assert o[0].key != k by {
        assert Keys(o)[0] == o[0].key;
      }
      assert k !in Keys(o[1..]) by {
        forall i | 0 <= i < |o| - 1 ensures Keys(o[1..])[i] != k {
          assert Keys(o)[i + 1] == o[1..][i].key;
        }
      }
      SetNew(o[1..], k, v);
      SetPast(o, k, v);
      ConsSnoc(o[0], o[1..], Prop(k, v));
      assert [o[0]] + o[1..] == o;
    }
  }

  lemma ConsSnoc<T>(x: T, w: seq<T>, y: T)
    ensures [x] + (w + [y]) == ([x] + w) + [y]
  {
  }

  /** Assignment to a key other than the first one's leaves the first property in front. */
  lemma SetPast<V>(o: Object<V>, k: string, v: V)
    requires o != [] && o[0].key != k
    ensures Set(o, k, v) == [o[0]] + Set(o[1..], k, v)
  {
  }

  lemma SetKeys<V>(o: Object<V>, k: string, v: V)
    ensures Keys(Set(o, k, v)) == if k in Keys(o) then Keys(o) else Keys(o) + [k]
    ensures k !in Keys(o) ==> Set(o, k, v) == o + [Prop(k, v)]
  {
    if k in Keys(o) {
      SetExisting(o, k, v);
    } else {
      SetNew(o, k, v);
    }
  }

  /** Assignment never duplicates a key. */
  lemma SetUnique<V>(o: Object<V>, k: string, v: V)
    ensures UniqueKeys(o) ==> UniqueKeys(Set(o, k, v))
  {
    SetKeys(o, k, v);
    var r := Set(o, k, v);
    if UniqueKeys(o) {
      forall i, j | 0 <= i < j < |r| ensures r[i].key != r[j].key {
        assert Keys(r)[i] == r[i].key && Keys(r)[j] == r[j].key;
        if j < |o| {
          assert Keys(o)[i] == o[i].key && Keys(o)[j] == o[j].key;
        } else {
          assert Keys(o)[i] == o[i].key;
        }
      }
    }
  }

  /** Objects with unique keys are equal when their keys and lookups agree. */
  lemma ObjectExt<V>(a: Object<V>, b: Object<V>)
    requires UniqueKeys(a) && UniqueKeys(b)
    requires Keys(a) == Keys(b)
    requires forall k :: Get(a, k) == Get(b, k)
    ensures a == b
  {
    forall i | 0 <= i < |a| ensures a[i] == b[i] {
      GetIn(a, a[i].key, a[i].value);
      GetIn(b, b[i].key, b[i].value);
      assert Get(a, a[i].key) == Get(b, b[i].key);
    }
  }

  /** The properties assigned to `o` one after the other. */
  function Assign<V>(o: Object<V>, props: seq<Prop<V>>): (r: Object<V>)
    ensures UniqueKeys(o) ==> UniqueKeys(r)
    decreases props
  {
    if props == [] then o
    else
      SetUnique(o, props[0].key, props[0].value);
      Assign(Set(o, props[0].key, props[0].value), props[1..])
  }

  lemma {:induction false} AssignAppend<V>(o: Object<V>, a: seq<Prop<V>>, b: seq<Prop<V>>)
    ensures Assign(o, a + b) == Assign(Assign(o, a), b)
    decreases a
  {
    if a == [] {
      assert a + b == b;
    } else {
      assert (a + b)[1..] == a[1..] + b;
      AssignAppend(Set(o, a[0].key, a[0].value), a[1..], b);
    }
  }

  /** After the assignments, the keys are those of the object and those assigned. */
  lemma {:induction false} AssignKeys<V>(o: Object<V>, props: seq<Prop<V>>)
    ensures forall k :: k in Keys(Assign(o, props)) <==> k in Keys(o) || k in Keys(props)
    decreases props
  {
    if props != [] {
      var p := props[0];
      AssignKeys(Set(o, p.key, p.value), props[1..]);
      assert Keys(props) == [p.key] + Keys(props[1..]);
      forall k ensures k in Keys(Set(o, p.key, p.value)) <==> k == p.key || k in Keys(o) {
        assert Get(Set(o, p.key, p.value), k).Some? <==> k in Keys(Set(o, p.key, p.value));
      }
    }
  }

  /** Every value stored in `o` satisfies `P`. */
  ghost predicate AllValues<V>(o: Object<V>, P: V -> bool) {
    forall i :: 0 <= i < |o| ==> P(o[i].value)
  }

  /** An assignment stores no value other than the old ones and the one assigned. */
  lemma {:induction false} SetValues<V>(o: Object<V>, k: string, v: V, P: V -> bool)
    requires AllValues(o, P) && P(v)
    ensures AllValues(Set(o, k, v), P)
  {
    if o != [] && o[0].key != k {
      SetValues(o[1..], k, v, P);
      assert Set(o, k, v) == [o[0]] + Set(o[1..], k, v);
    }
  }

  /** Assignments store no value other than the old ones and the ones assigned. */
  lemma {:induction false} AssignValues<V>(o: Object<V>, props: seq<Prop<V>>, P: V -> bool)
    requires AllValues(o, P) && AllValues(props, P)
    ensures AllValues(Assign(o, props), P)
    decreases props
  {
    if props != [] {
      SetValues(o, props[0].key, props[0].value, P);
      assert AllValues(props[1..], P) by {
        forall i | 0 <= i < |props[1..]| ensures P(props[1..][i].value) {
          assert props[1..][i] == props[i + 1];
        }
      }
      AssignValues(Set(o, props[0].key, props[0].value), props[1..], P);
    }
  }

  /** `Object.fromEntries`: the properties assigned in order, so a later duplicate key wins. */
  function FromEntries<V>(props: seq<Prop<V>>): (o: Object<V>)
    ensures UniqueKeys(o)
  {
    Assign([], props)
  }

  /** Properties whose keys are already unique come back as they are. */
  lemma {:induction false} FromUniqueEntries<V>(props: seq<Prop<V>>)
    requires UniqueKeys(props)
    ensures FromEntries(props) == props
  {
    if props != [] {
      var init := props[..|props| - 1];
      var last := props[|props| - 1];
      assert last.key !in Keys(init) by {
        forall i | 0 <= i < |init| ensures Keys(init)[i] != last.key {
          assert props[i] == init[i];
        }
      }
      calc {
        FromEntries(props);
        { assert props == init + [last]; }
        Assign([], init + [last]);
        { AssignAppend([], init, [last]); }
        Assign(Assign([], init), [last]);
        { assert UniqueKeys(init); FromUniqueEntries(init); }
        Assign(init, [last]);
        { assert [last][1..] == []; }
        Set(init, last.key, last.value);
        { SetNew(init, last.key, last.value); }
        init + [last];
        { assert props == init + [last]; }
        props;
      }
    }
  }

  /** One more than the largest array index: 2^32 - 1. */
  const ArrayIndexLimit: nat := 0xFFFF_FFFF

  predicate IsDigit(c: char) {
    '0' <= c <= '9'
  }

  /** The value of a string of decimal digits. */
  function DecimalValue(s: string): nat
    requires forall i :: 0 <= i < |s| ==> IsDigit(s[i])
  {
    if s == [] then 0
    else
      assert IsDigit(s[|s| - 1]);
      DecimalValue(s[..|s| - 1]) * 10 + (s[|s| - 1] as int - '0' as int)
  }

  /**
   * An array index: the canonical decimal form (no leading zero unless the
   * key is "0") of an integer below 2^32 - 1.
   */
  predicate IsArrayIndex(k: string) {
    && |k| > 0
    && (forall i :: 0 <= i < |k| ==> IsDigit(k[i]))
    && (k[0] != '0' || |k| == 1)
    && DecimalValue(k) < ArrayIndexLimit
  }

  /** Enumeration rank of a key: its numeric value for an array index, after all of them otherwise. */
  function KeyRank(k: string): int {
    if IsArrayIndex(k) then DecimalValue(k) else ArrayIndexLimit
  }

  function PropRank<V>(p: Prop<V>): int {
    KeyRank(p.key)
  }

  /**
   * `Object.entries`: the stable sort of the properties by rank puts array
   * indices first in ascending order and keeps every other key in creation
   * order (two array-index keys never share a rank).
   */
  function Entries<V>(o: Object<V>): (es: seq<Prop<V>>)
    ensures |es| == |o|
    ensures multiset(es) == multiset(o)
    ensures UniqueKeys(o) ==> UniqueKeys(es)
  {
    SortKeepsUniqueKeys(o, PropRank);
    Sort(o, PropRank)
  }

  lemma SortKeepsUniqueKeys<V>(o: Object<V>, rank: Prop<V> -> int)
    ensures UniqueKeys(o) ==> UniqueKeys(Sort(o, rank))
  {
    UniqueKeysDistinctBy(o);
    UniqueKeysDistinctBy(Sort(o, rank));
    if UniqueKeys(o) {
      PermutationKeepsDistinct(o, Sort(o, rank), KeyOf);
    }
  }

  /** Enumeration order: array indices ascending, then every other key in creation order. */
  lemma EntriesOrder<V>(o: Object<V>)
    ensures SortedBy(Entries(o), PropRank)
    ensures Filter(Entries(o), PropRank, ArrayIndexLimit) == Filter(o, PropRank, ArrayIndexLimit)
  {
    SortSorted(o, PropRank);
    SortStable(o, PropRank);
  }

  /** An object without array-index keys enumerates in creation order. */
  lemma EntriesWithoutIndexKeys<V>(o: Object<V>)
    requires forall i :: 0 <= i < |o| ==> !IsArrayIndex(o[i].key)
    ensures Entries(o) == o
  {
    assert SortedBy(o, PropRank) by {
      assert forall i :: 0 <= i < |o| ==> PropRank(o[i]) == ArrayIndexLimit;
    }
    SortOfSorted(o, PropRank);
  }

  /** Enumerating what an enumeration produced gives it back unchanged. */
  lemma EntriesIdempotent<V>(o: Object<V>)
    ensures Entries(Entries(o)) == Entries(o)
  {
    SortSorted(o, PropRank);
    SortOfSorted(Entries(o), PropRank);
  }
}
