/**
 * A JavaScript object used as a counter (`Record<string, number>`), the shape
 * of `langData` and `commitsByDay` in `fetchUserData`.  Entries are kept in
 * enumeration order; for keys that are not array indices (dates, language
 * names) that is the order in which the keys were first assigned.
 */
module Counters {

  datatype Entry = Entry(key: string, count: nat)

  /** `Object.keys(record)`, in enumeration order. */
  function Keys(es: seq<Entry>): (ks: seq<string>)
    ensures |ks| == |es|
    ensures forall i :: 0 <= i < |es| ==> ks[i] == es[i].key
  {
    if es == [] then [] else [es[0].key] + Keys(es[1..])
  }

  /** An object never holds the same key twice. */
  predicate DistinctKeys(es: seq<Entry>)
  {
    forall i, j :: 0 <= i < j < |es| ==> es[i].key != es[j].key
  }

  /** Every stored count is at least one. */
  predicate Positive(es: seq<Entry>)
  {
    forall i :: 0 <= i < |es| ==> es[i].count >= 1
  }

  /** `record[k] || 0`: the count stored under `k`, or 0 when `k` is absent. */
  function Get(es: seq<Entry>, k: string): nat
  {
    if es == [] then 0 else if es[0].key == k then es[0].count else Get(es[1..], k)
  }

  /** `Object.values(record).reduce((sum, count) => sum + count, 0)`. */
  function Total(es: seq<Entry>): nat
  {
    if es == [] then 0 else es[0].count + Total(es[1..])
  }

  /** Reading an object whose first entry is `e` and whose other entries are `rest`. */
  lemma Unfold(e: Entry, rest: seq<Entry>)
    ensures Keys([e] + rest) == [e.key] + Keys(rest)
    ensures Total([e] + rest) == e.count + Total(rest)
    ensures forall k :: Get([e] + rest, k) == if e.key == k then e.count else Get(rest, k)
  {
    assert ([e] + rest)[1..] == rest;
  }

  /**
   * `record[k] = (record[k] || 0) + 1`: an existing key keeps its place in the
   * enumeration order, a new key is enumerated last.
   */
  function Increment(es: seq<Entry>, k: string): (r: seq<Entry>)
    ensures Get(r, k) == Get(es, k) + 1
    ensures forall k' :: k' != k ==> Get(r, k') == Get(es, k')
    ensures Keys(r) == if k in Keys(es) then Keys(es) else Keys(es) + [k]
    ensures Total(r) == Total(es) + 1
    ensures Positive(es) ==> Positive(r)
  {
    if es == [] then
      Unfold(Entry(k, 1), []);
      [Entry(k, 1)]
    else
      assert es == [es[0]] + es[1..];
      Unfold(es[0], es[1..]);
      if es[0].key == k then
        Unfold(Entry(k, es[0].count + 1), es[1..]);
        [Entry(k, es[0].count + 1)] + es[1..]
      else
        var tail := Increment(es[1..], k);
        Unfold(es[0], tail);
        [es[0]] + tail
  }

  /** No single entry holds more than the counter's total. */
  lemma {:induction false} EntryAtMostTotal(es: seq<Entry>, e: Entry)
    requires e in multiset(es)
    ensures e.count <= Total(es)
  {
    if es[0] != e {
      assert es == [es[0]] + es[1..];
      assert e in multiset(es[1..]);
      EntryAtMostTotal(es[1..], e);
    }
  }

  /** Incrementing a counter never makes two entries share a key. */
  lemma IncrementKeepsKeysDistinct(es: seq<Entry>, k: string)
    requires DistinctKeys(es)
    ensures DistinctKeys(Increment(es, k))
  {
    var r := Increment(es, k);
    forall i, j | 0 <= i < j < |r|
      ensures r[i].key != r[j].key
    {
      assert r[i].key == Keys(r)[i] && r[j].key == Keys(r)[j];
      if j < |es| {
        assert Keys(r)[i] == es[i].key && Keys(r)[j] == es[j].key;
      } else {
        assert Keys(r)[i] == Keys(es)[i];
      }
    }
  }

  /** The elements of `ks` in the order of their first occurrence. */
  function FirstOccurrences(ks: seq<string>): (r: seq<string>)
    ensures forall k :: k in r <==> k in ks
  {
    if ks == [] then []
    else
      var prefix := FirstOccurrences(ks[..|ks| - 1]);
      if ks[|ks| - 1] in ks[..|ks| - 1] then prefix else prefix + [ks[|ks| - 1]]
  }

  /** Starting from `{}`, increments the counter of every key of `ks` in turn. */
  function Tally(ks: seq<string>): seq<Entry>
  {
    if ks == [] then [] else Increment(Tally(ks[..|ks| - 1]), ks[|ks| - 1])
  }

  /**
   * The counter built by `Tally` holds each key once, counts it as often as
   * it occurs, has counts summing to `|ks|`, and enumerates the keys in the
   * order of their first occurrence.
   */
  lemma {:induction false} TallyCounts(ks: seq<string>)
    ensures DistinctKeys(Tally(ks)) && Positive(Tally(ks))
    ensures forall k :: Get(Tally(ks), k) == multiset(ks)[k]
    ensures Total(Tally(ks)) == |ks|
    ensures Keys(Tally(ks)) == FirstOccurrences(ks)
  {
    if ks != [] {
      var prefix, last := ks[..|ks| - 1], ks[|ks| - 1];
      assert ks == prefix + [last];
      TallyCounts(prefix);
      IncrementKeepsKeysDistinct(Tally(prefix), last);
    }
  }

  /** Counting one more key is one more `Increment`. */
  lemma TallySnoc(ks: seq<string>, k: string)
    ensures Tally(ks + [k]) == Increment(Tally(ks), k)
  {
    assert (ks + [k])[..|ks|] == ks;
  }
}
