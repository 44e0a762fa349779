/** Bounded-memory aggregation by key: buffered contributions, sorted and compacted runs, and a k-way merge that adds equal keys up. */
module Aggregation {
  import opened Words
  import opened SortedRuns

  datatype Keyed<V> = Keyed(key: Triple, value: V)

  ghost predicate Lawful<V(!new)>(add: (V, V) -> V) {
    && (forall a, b :: add(a, b) == add(b, a))
    && (forall a, b, c :: add(add(a, b), c) == add(a, add(b, c)))
  }

  function Both<V>(add: (V, V) -> V, x: Option<V>, y: Option<V>): Option<V> {
    if x.None? then y else if y.None? then x else Some(add(x.value, y.value))
  }

  lemma BothCommutes<V(!new)>(add: (V, V) -> V, x: Option<V>, y: Option<V>)
    requires Lawful(add)
    ensures Both(add, x, y) == Both(add, y, x)
  {
  }

  lemma BothAssociates<V(!new)>(add: (V, V) -> V, x: Option<V>, y: Option<V>, z: Option<V>)
    requires Lawful(add)
    ensures Both(add, Both(add, x, y), z) == Both(add, x, Both(add, y, z))
  {
  }

  /** Moving the middle of three to the front. */
  lemma BothSwaps<V(!new)>(add: (V, V) -> V, x: Option<V>, y: Option<V>, z: Option<V>)
    requires Lawful(add)
    ensures Both(add, x, Both(add, y, z)) == Both(add, y, Both(add, x, z))
  {
    hide Lawful, Both;
    BothAssociates(add, x, y, z);
    BothAssociates(add, y, x, z);
    BothCommutes(add, x, y);
  }

  function At<V>(r: Keyed<V>, key: Triple): Option<V> {
    if r.key == key then Some(r.value) else None
  }

  /** Everything a list contributes to a key; nothing if the key does not occur. */
  function Total<V>(add: (V, V) -> V, s: seq<Keyed<V>>, key: Triple): Option<V> {
    if s == [] then None else Both(add, At(s[0], key), Total(add, s[1..], key))
  }

  lemma {:induction false} TotalConcat<V(!new)>(add: (V, V) -> V, s: seq<Keyed<V>>, t: seq<Keyed<V>>, key: Triple)
    requires Lawful(add)
    ensures Total(add, s + t, key) == Both(add, Total(add, s, key), Total(add, t, key))
  {
    hide Lawful;
    if s == [] {
      assert s + t == t;
    } else {
      assert (s + t)[1..] == s[1..] + t;
      TotalConcat(add, s[1..], t, key);
      BothAssociates(add, At(s[0], key), Total(add, s[1..], key), Total(add, t, key));
    }
  }

  lemma TotalOfOne<V>(add: (V, V) -> V, r: Keyed<V>, key: Triple)
    ensures Total(add, [r], key) == At(r, key)
  {
  }

  predicate RunSorted<V>(s: seq<Keyed<V>>) {
    forall i, j :: 0 <= i < j < |s| ==> Less(s[i].key, s[j].key)
  }

  predicate WeaklySorted<V>(s: seq<Keyed<V>>) {
    forall i, j :: 0 <= i < j < |s| ==> !Less(s[j].key, s[i].key)
  }

  function InsertByKey<V>(x: Keyed<V>, s: seq<Keyed<V>>): seq<Keyed<V>> {
    if s == [] || !Less(s[0].key, x.key) then [x] + s else [s[0]] + InsertByKey(x, s[1..])
  }

  /** std::ranges::sort by key. */
  function SortByKey<V>(s: seq<Keyed<V>>): seq<Keyed<V>> {
    if s == [] then [] else InsertByKey(s[0], SortByKey(s[1..]))
  }

  lemma {:induction false} InsertMembers<V>(x: Keyed<V>, s: seq<Keyed<V>>, y: Keyed<V>)
    ensures y in InsertByKey(x, s) <==> y == x || y in s
  {
    if s == [] || !Less(s[0].key, x.key) {
    } else {
      InsertMembers(x, s[1..], y);
      assert s == [s[0]] + s[1..];
    }
  }

  lemma {:induction false} InsertSorts<V>(x: Keyed<V>, s: seq<Keyed<V>>)
    requires WeaklySorted(s)
    ensures WeaklySorted(InsertByKey(x, s))
  {
    if s == [] || !Less(s[0].key, x.key) {
    } else {
      InsertSorts(x, s[1..]);
      var rest := InsertByKey(x, s[1..]);
      forall j | 0 <= j < |rest|
        ensures !Less(rest[j].key, s[0].key)
      {
        InsertMembers(x, s[1..], rest[j]);
        assert rest[j] in rest;
      }
    }
  }

  lemma {:induction false} InsertTotal<V(!new)>(add: (V, V) -> V, x: Keyed<V>, s: seq<Keyed<V>>, key: Triple)
    requires Lawful(add)
    ensures Total(add, InsertByKey(x, s), key) == Both(add, At(x, key), Total(add, s, key))
  {
    hide Lawful, Both, At;
    if s == [] || !Less(s[0].key, x.key) {
      assert ([x] + s)[1..] == s;
    } else {
      InsertTotal(add, x, s[1..], key);
      assert InsertByKey(x, s)[1..] == InsertByKey(x, s[1..]);
      BothSwaps(add, At(x, key), At(s[0], key), Total(add, s[1..], key));
    }
  }

  lemma {:induction false} SortTotal<V(!new)>(add: (V, V) -> V, s: seq<Keyed<V>>, key: Triple)
    requires Lawful(add)
    ensures Total(add, SortByKey(s), key) == Total(add, s, key)
  {
    hide Lawful, Both, At;
    if s != [] {
      SortTotal(add, s[1..], key);
      InsertTotal(add, s[0], SortByKey(s[1..]), key);
    }
  }

  lemma {:induction false} SortByKeySorts<V>(s: seq<Keyed<V>>)
    ensures WeaklySorted(SortByKey(s))
  {
    if s != [] {
      SortByKeySorts(s[1..]);
      InsertSorts(s[0], SortByKey(s[1..]));
    }
  }

  // Runs under merge.

  function TotalAll<V>(add: (V, V) -> V, runs: seq<seq<Keyed<V>>>, key: Triple): Option<V> {
    if runs == [] then None else Both(add, Total(add, runs[0], key), TotalAll(add, runs[1..], key))
  }

  lemma {:induction false} TotalAllAppends<V(!new)>(add: (V, V) -> V, runs: seq<seq<Keyed<V>>>, run: seq<Keyed<V>>, key: Triple)
    requires Lawful(add)
    ensures TotalAll(add, runs + [run], key) == Both(add, TotalAll(add, runs, key), Total(add, run, key))
  {
    hide Lawful, Total;
    if runs == [] {
      assert (runs + [run])[1..] == [];
    } else {
      TotalAllAppends(add, runs[1..], run, key);
      assert (runs + [run])[1..] == runs[1..] + [run];
      BothAssociates(add, Total(add, runs[0], key), TotalAll(add, runs[1..], key), Total(add, run, key));
    }
  }

  predicate RunsSorted<V>(runs: seq<seq<Keyed<V>>>) {
    forall i :: 0 <= i < |runs| ==> RunSorted(runs[i])
  }

  predicate AllRead<V>(runs: seq<seq<Keyed<V>>>) {
    forall i :: 0 <= i < |runs| ==> runs[i] == []
  }

  /** A run the heap may hand out: its current key is least. */
  predicate LeastRun<V>(runs: seq<seq<Keyed<V>>>, i: nat) {
    && i < |runs| && runs[i] != []
    && forall j :: 0 <= j < |runs| && runs[j] != [] ==> !Less(runs[j][0].key, runs[i][0].key)
  }

  lemma {:induction false} LeastRunExists<V>(runs: seq<seq<Keyed<V>>>)
    requires !AllRead(runs)
    ensures exists i :: 0 <= i < |runs| && LeastRun(runs, i)
  {
    var n := |runs| - 1;
    if AllRead(runs[..n]) {
      assert forall j :: 0 <= j < n ==> runs[..n][j] == runs[j] == [];
      assert LeastRun(runs, n);
    } else {
      LeastRunExists(runs[..n]);
      var i :| 0 <= i < n && LeastRun(runs[..n], i);
      assert forall j :: 0 <= j < n ==> runs[..n][j] == runs[j];
      assert LeastRun(runs, if runs[n] != [] && Less(runs[n][0].key, runs[i][0].key) then n else i);
    }
  }

  function Remaining<V>(runs: seq<seq<Keyed<V>>>): nat {
    if runs == [] then 0 else |runs[0]| + Remaining(runs[1..])
  }

  lemma {:induction false} AdvanceTotal<V(!new)>(add: (V, V) -> V, runs: seq<seq<Keyed<V>>>, i: nat, key: Triple)
    requires Lawful(add) && i < |runs| && runs[i] != []
    ensures TotalAll(add, runs, key) == Both(add, At(runs[i][0], key), TotalAll(add, runs[i := runs[i][1..]], key))
  {
    hide Lawful, Both, At;
    var rest := runs[i := runs[i][1..]];
    if i > 0 {
      AdvanceTotal(add, runs[1..], i - 1, key);
      assert rest[1..] == runs[1..][i - 1 := runs[i][1..]];
      BothSwaps(add, Total(add, runs[0], key), At(runs[i][0], key), TotalAll(add, rest[1..], key));
    } else {
      assert rest[1..] == runs[1..];
      BothAssociates(add, At(runs[0][0], key), Total(add, runs[0][1..], key), TotalAll(add, runs[1..], key));
    }
  }

  lemma {:induction false} AdvanceShrinks<V>(runs: seq<seq<Keyed<V>>>, i: nat)
    requires i < |runs| && runs[i] != []
    ensures Remaining(runs[i := runs[i][1..]]) < Remaining(runs)
  {
    if i > 0 {
      AdvanceShrinks(runs[1..], i - 1);
      assert runs[i := runs[i][1..]][1..] == runs[1..][i - 1 := runs[i][1..]];
    } else {
      assert runs[0 := runs[0][1..]][1..] == runs[1..];
    }
  }

  lemma {:induction false} NothingRemains<V>(add: (V, V) -> V, runs: seq<seq<Keyed<V>>>, key: Triple)
    requires AllRead(runs)
    ensures TotalAll(add, runs, key) == None
  {
    if runs != [] {
      NothingRemains(add, runs[1..], key);
    }
  }

  /** No record left in the runs has a key below this one. */
  predicate NoneBelow<V>(runs: seq<seq<Keyed<V>>>, key: Triple) {
    forall i, j :: 0 <= i < |runs| && 0 <= j < |runs[i]| ==> !Less(runs[i][j].key, key)
  }

  /** Nor one at or below it. */
  predicate AllAbove<V>(runs: seq<seq<Keyed<V>>>, key: Triple) {
    forall i, j :: 0 <= i < |runs| && 0 <= j < |runs[i]| ==> Less(key, runs[i][j].key)
  }

  lemma LeastBounds<V>(runs: seq<seq<Keyed<V>>>, i: nat)
    requires RunsSorted(runs) && LeastRun(runs, i)
    ensures NoneBelow(runs, runs[i][0].key)
  {
    forall j, k | 0 <= j < |runs| && 0 <= k < |runs[j]|
      ensures !Less(runs[j][k].key, runs[i][0].key)
    {
      assert !Less(runs[j][0].key, runs[i][0].key);
      assert k > 0 ==> Less(runs[j][0].key, runs[j][k].key);
    }
  }

  lemma AdvanceKeeps<V>(runs: seq<seq<Keyed<V>>>, i: nat)
    requires RunsSorted(runs) && i < |runs| && runs[i] != []
    ensures RunsSorted(runs[i := runs[i][1..]])
    ensures forall key :: NoneBelow(runs, key) ==> NoneBelow(runs[i := runs[i][1..]], key)
  {
    var rest := runs[i := runs[i][1..]];
    forall j | 0 <= j < |rest|
      ensures RunSorted(rest[j])
    {
      assert RunSorted(runs[j]);
    }
  }

  /** When the least remaining key is another one, everything left lies above. */
  lemma KeyDone<V>(runs: seq<seq<Keyed<V>>>, key: Triple)
    requires RunsSorted(runs) && NoneBelow(runs, key)
    requires forall i :: 0 <= i < |runs| && runs[i] != [] ==> runs[i][0].key != key
    ensures AllAbove(runs, key)
  {
    forall i, j | 0 <= i < |runs| && 0 <= j < |runs[i]|
      ensures Less(key, runs[i][j].key)
    {
      assert !Less(runs[i][0].key, key);
      assert RunSorted(runs[i]);
      assert j > 0 ==> Less(runs[i][0].key, runs[i][j].key);
    }
  }

  // Sorted aggregates as maps.

  /** In a compacted run a key's total is its one record. */
  lemma {:induction false} SortedTotal<V>(add: (V, V) -> V, s: seq<Keyed<V>>, key: Triple)
    requires RunSorted(s)
    ensures forall i :: 0 <= i < |s| && s[i].key == key ==> Total(add, s, key) == Some(s[i].value)
    ensures Total(add, s, key).Some? ==> exists i :: 0 <= i < |s| && s[i] == Keyed(key, Total(add, s, key).value)
  {
    if s != [] {
      SortedTotal(add, s[1..], key);
      forall i | 0 < i < |s|
        ensures s[i] == s[1..][i - 1] && Less(s[0].key, s[i].key)
      {
      }
      if Total(add, s[1..], key).Some? {
        var i :| 0 <= i < |s[1..]| && s[1..][i] == Keyed(key, Total(add, s[1..], key).value);
        assert s[i + 1] == s[1..][i];
      } else if s[0].key == key {
        assert s[0] == Keyed(key, s[0].value);
      }
    }
  }

  /** A compacted, sorted aggregate is determined by its totals. */
  lemma {:induction false} AggregateIsUnique<V>(add: (V, V) -> V, s: seq<Keyed<V>>, t: seq<Keyed<V>>)
    requires RunSorted(s) && RunSorted(t) && forall key :: Total(add, s, key) == Total(add, t, key)
    ensures s == t
  {
    if s == [] && t != [] {
      SortedTotal(add, t, t[0].key);
      assert false;
    } else if s != [] && t == [] {
      SortedTotal(add, s, s[0].key);
      assert false;
    } else if s != [] {
      FirstKeys(add, s, t);
      FirstKeys(add, t, s);
      SortedTotal(add, s, s[0].key);
      SortedTotal(add, t, s[0].key);
      assert s[0].key == t[0].key && s[0] == t[0];
      forall key
        ensures Total(add, s[1..], key) == Total(add, t[1..], key)
      {
        RestTotal(add, s, key);
        RestTotal(add, t, key);
      }
      AggregateIsUnique(add, s[1..], t[1..]);
      assert s == [s[0]] + s[1..] && t == [t[0]] + t[1..];
    }
  }

  lemma FirstKeys<V>(add: (V, V) -> V, s: seq<Keyed<V>>, t: seq<Keyed<V>>)
    requires RunSorted(s) && RunSorted(t) && s != [] && t != [] && forall key :: Total(add, s, key) == Total(add, t, key)
    ensures !Less(s[0].key, t[0].key)
  {
    SortedTotal(add, s, s[0].key);
    SortedTotal(add, t, s[0].key);
    var i :| 0 <= i < |t| && t[i].key == s[0].key;
  }

  lemma RestTotal<V>(add: (V, V) -> V, s: seq<Keyed<V>>, key: Triple)
    requires RunSorted(s) && s != []
    ensures Total(add, s[1..], key) == if key == s[0].key then None else Total(add, s, key)
  {
    if key == s[0].key {
      SortedTotal(add, s[1..], key);
    }
  }

  class ExternalAggregation<V(!new)> {
    const add: (V, V) -> V
    const threshold: nat
    var buffer: seq<Keyed<V>>
    var runs: seq<seq<Keyed<V>>>

    ghost predicate Valid()
      reads this
    {
      Lawful(add) && RunsSorted(runs)
    }

    /** What has been added for a key so far. */
    ghost function Sum(key: Triple): Option<V>
      reads this
    {
      Both(add, TotalAll(add, runs, key), Total(add, buffer, key))
    }

    constructor (add: (V, V) -> V, threshold: nat)
      requires Lawful(add)
      ensures Valid() && forall key :: Sum(key) == None
      ensures this.add == add && this.threshold == threshold
    {
      this.add, this.threshold := add, threshold;
      buffer, runs := [], [];
    }

    /** add_root, add_edge, visit: buffer a contribution, spill a full buffer. */
    method Add(key: Triple, value: V)
      requires Valid()
      modifies this
      ensures Valid()
      ensures forall k :: Sum(k) == Both(add, old(Sum(k)), At(Keyed(key, value), k))
    {
      hide Lawful, Total, TotalAll, RunsSorted;
      forall k
        ensures Both(add, TotalAll(add, runs, k), Total(add, buffer + [Keyed(key, value)], k)) == Both(add, Sum(k), At(Keyed(key, value), k))
      {
        TotalConcat(add, buffer, [Keyed(key, value)], k);
        TotalOfOne(add, Keyed(key, value), k);
        BothAssociates(add, TotalAll(add, runs, k), Total(add, buffer, k), At(Keyed(key, value), k));
      }
      hide Both, At;
      buffer := buffer + [Keyed(key, value)];
      if |buffer| >= threshold {
        Spill();
      }
    }

    /** spill_roots, spill_edges, spill_current_buffer: the sorted buffer, equal keys compacted, becomes a run. */
    method Spill()
      requires Valid()
      modifies this
      ensures Valid() && buffer == []
      ensures forall k :: Sum(k) == old(Sum(k))
    {
      hide Lawful, Total, TotalAll, Both, RunSorted, SortByKey;
      if buffer == [] {
        return;
      }
      SortByKeySorts(buffer);
      var run := Compact(add, SortByKey(buffer));
      forall k
        ensures Both(add, TotalAll(add, runs + [run], k), Total(add, [], k)) == Sum(k)
      {
        SortTotal(add, buffer, k);
        TotalAllAppends(add, runs, run, k);
        BothNothing(add, TotalAll(add, runs + [run], k), k);
      }
      runs := runs + [run];
      buffer := [];
    }

    /** merge_roots, merge_edges, hash_visit_counter::finalize: one record per key, in key order. */
    method Merge() returns (out: seq<Keyed<V>>)
      requires Valid()
      modifies this
      ensures Valid() && RunSorted(out)
      ensures forall k :: Sum(k) == old(Sum(k))
      ensures forall k :: Total(add, out, k) == old(Sum(k))
    {
      hide Lawful, Total, TotalAll, Both, At, RunsSorted, RunSorted, AllAbove, NoneBelow, LeastRun;
      Spill();
      forall k
        ensures Sum(k) == TotalAll(add, runs, k)
      {
        BothNothing(add, TotalAll(add, runs, k), k);
      }
      out := [];
      var cursors := runs;
      forall k
        ensures TotalAll(add, runs, k) == Both(add, Total(add, out, k), TotalAll(add, cursors, k))
      {
        NothingFirst(add, TotalAll(add, cursors, k), k);
      }
      EmptyRun<V>();
      while !AllRead(cursors)
        invariant RunsSorted(cursors) && RunSorted(out)
        invariant out != [] ==> AllAbove(cursors, out[|out| - 1].key)
        invariant forall k :: TotalAll(add, runs, k) == Both(add, Total(add, out, k), TotalAll(add, cursors, k))
        decreases Remaining(cursors)
        modifies {}
      {
        var merged;
        merged, cursors := MergeKey(add, cursors, out, runs);
        out := out + [merged];
      }
      forall k
        ensures Total(add, out, k) == TotalAll(add, runs, k)
      {
        NothingRemains(add, cursors, k);
        BothNone(add, Total(add, out, k));
      }
    }
  }

  lemma EmptyRun<V>()
    ensures RunSorted<V>([])
  {
  }

  lemma BothNone<V>(add: (V, V) -> V, x: Option<V>)
    ensures Both(add, x, None) == x && Both(add, None, x) == x
  {
  }

  lemma BothNothing<V>(add: (V, V) -> V, x: Option<V>, key: Triple)
    ensures Both(add, x, Total(add, [], key)) == x
  {
  }

  lemma NothingFirst<V>(add: (V, V) -> V, x: Option<V>, key: Triple)
    ensures Both(add, Total(add, [], key), x) == x
  {
  }

  lemma AppendTotal<V(!new)>(add: (V, V) -> V, out: seq<Keyed<V>>, r: Keyed<V>, rest: seq<seq<Keyed<V>>>, key: Triple)
    requires Lawful(add)
    ensures Both(add, Total(add, out + [r], key), TotalAll(add, rest, key))
         == Both(add, Total(add, out, key), Both(add, At(r, key), TotalAll(add, rest, key)))
  {
    hide Lawful, Total, TotalAll, Both, At;
    TotalConcat(add, out, [r], key);
    TotalOfOne(add, r, key);
    BothAssociates(add, Total(add, out, key), At(r, key), TotalAll(add, rest, key));
  }

  lemma AppendAbove<V>(out: seq<Keyed<V>>, r: Keyed<V>)
    requires RunSorted(out) && (out != [] ==> Less(out[|out| - 1].key, r.key))
    ensures RunSorted(out + [r])
  {
    forall i | 0 <= i < |out|
      ensures Less(out[i].key, r.key)
    {
      assert i < |out| - 1 ==> Less(out[i].key, out[|out| - 1].key);
    }
  }

  /** One round of the merge: all records of the least key, added up. */
  method MergeKey<V(!new)>(add: (V, V) -> V, start: seq<seq<Keyed<V>>>, ghost out: seq<Keyed<V>>, ghost runs: seq<seq<Keyed<V>>>)
    returns (merged: Keyed<V>, cursors: seq<seq<Keyed<V>>>)
    requires Lawful(add) && RunsSorted(start) && RunSorted(out) && !AllRead(start)
    requires out != [] ==> AllAbove(start, out[|out| - 1].key)
    requires forall k :: TotalAll(add, runs, k) == Both(add, Total(add, out, k), TotalAll(add, start, k))
    ensures RunsSorted(cursors) && RunSorted(out + [merged]) && AllAbove(cursors, merged.key)
    ensures forall k :: TotalAll(add, runs, k) == Both(add, Total(add, out + [merged], k), TotalAll(add, cursors, k))
    ensures Remaining(cursors) < Remaining(start)
  {
    hide Lawful, Total, TotalAll, Both, At, RunsSorted, RunSorted, NoneBelow;
    LeastRunExists(start);
    var i :| 0 <= i < |start| && LeastRun(start, i);
    merged := start[i][0];
    cursors := start[i := start[i][1..]];
    LeastBounds(start, i);
    AdvanceKeeps(start, i);
    AdvanceShrinks(start, i);
    AppendAbove(out, merged);
    forall k
      ensures TotalAll(add, start, k) == Both(add, At(merged, k), TotalAll(add, cursors, k))
    {
      AdvanceTotal(add, start, i, k);
    }
    var key := merged.key;
    while exists j :: 0 <= j < |cursors| && cursors[j] != [] && cursors[j][0].key == key
      invariant merged.key == key && RunsSorted(cursors) && NoneBelow(cursors, key) && RunSorted(out + [merged])
      invariant Remaining(cursors) < Remaining(start)
      invariant forall k :: TotalAll(add, start, k) == Both(add, At(merged, k), TotalAll(add, cursors, k))
      decreases Remaining(cursors)
    {
      var j :| 0 <= j < |cursors| && cursors[j] != [] && cursors[j][0].key == key;
      ghost var before, was := cursors, merged;
      merged := Keyed(key, add(merged.value, cursors[j][0].value));
      cursors := cursors[j := cursors[j][1..]];
      AdvanceKeeps(before, j);
      AdvanceShrinks(before, j);
      SameKeys(out, was, merged);
      forall k
        ensures TotalAll(add, start, k) == Both(add, At(merged, k), TotalAll(add, cursors, k))
      {
        AdvanceTotal(add, before, j, k);
        BothAssociates(add, At(was, k), At(before[j][0], k), TotalAll(add, cursors, k));
        AtAdds(add, was, before[j][0], k);
      }
    }
    KeyDone(cursors, key);
    forall k
      ensures TotalAll(add, runs, k) == Both(add, Total(add, out + [merged], k), TotalAll(add, cursors, k))
    {
      AppendTotal(add, out, merged, cursors, k);
    }
  }

  lemma SameKeys<V>(out: seq<Keyed<V>>, a: Keyed<V>, b: Keyed<V>)
    requires RunSorted(out + [a]) && a.key == b.key
    ensures RunSorted(out + [b])
  {
    forall i, j | 0 <= i < j < |out + [b]|
      ensures Less((out + [b])[i].key, (out + [b])[j].key)
    {
      assert Less((out + [a])[i].key, (out + [a])[j].key);
    }
  }

  lemma AtAdds<V>(add: (V, V) -> V, a: Keyed<V>, b: Keyed<V>, key: Triple)
    requires a.key == b.key
    ensures Both(add, At(a, key), At(b, key)) == At(Keyed(a.key, add(a.value, b.value)), key)
  {
  }

  /** The in-place compaction of a sorted buffer: neighbours with equal keys are added up. */
  method Compact<V(!new)>(add: (V, V) -> V, s: seq<Keyed<V>>) returns (run: seq<Keyed<V>>)
    requires Lawful(add) && WeaklySorted(s)
    ensures RunSorted(run) && forall k :: Total(add, run, k) == Total(add, s, k)
  {
    hide Lawful, Total, Both, At, RunSorted;
    var records := new Keyed<V>[|s|](i requires 0 <= i < |s| => s[i]);
    var writeIndex := 0;
    EmptyRun<V>();
    for index := 0 to |s|
      invariant writeIndex <= index && (index > 0 ==> writeIndex > 0 && records[writeIndex - 1].key == s[index - 1].key)
      invariant records[index..] == s[index..]
      invariant RunSorted(records[..writeIndex])
      invariant forall k :: Total(add, records[..writeIndex], k) == Total(add, s[..index], k)
    {
      var record := records[index];
      assert record == records[index..][0] == s[index];
      ghost var done := records[..writeIndex];
      assert s[..index + 1] == s[..index] + [record];
      if writeIndex == 0 || records[writeIndex - 1].key != record.key {
        records[writeIndex] := record;
        writeIndex := writeIndex + 1;
        assert records[..writeIndex] == done + [record];
        assert done != [] ==> done[|done| - 1].key == s[index - 1].key && !Less(s[index].key, s[index - 1].key);
        AppendAbove(done, record);
        forall k
          ensures Total(add, done + [record], k) == Total(add, s[..index + 1], k)
        {
          TotalConcat(add, done, [record], k);
          TotalConcat(add, s[..index], [record], k);
        }
      } else {
        ghost var last := done[|done| - 1];
        ghost var added := Keyed(last.key, add(last.value, record.value));
        records[writeIndex - 1] := Keyed(records[writeIndex - 1].key, add(records[writeIndex - 1].value, record.value));
        ghost var front := done[..|done| - 1];
        assert records[..writeIndex] == front + [added] && done == front + [last];
        SameKeys(front, last, added);
        forall k
          ensures Total(add, front + [added], k) == Total(add, s[..index + 1], k)
        {
          AddedTotal(add, front, last, record, k);
          TotalConcat(add, done, [record], k);
          TotalConcat(add, s[..index], [record], k);
        }
      }
      assert records[index + 1..] == s[index + 1..];
    }
    assert s[..|s|] == s;
    run := records[..writeIndex];
  }

  lemma AddedTotal<V(!new)>(add: (V, V) -> V, front: seq<Keyed<V>>, last: Keyed<V>, r: Keyed<V>, key: Triple)
    requires Lawful(add) && last.key == r.key
    ensures Total(add, front + [Keyed(last.key, add(last.value, r.value))], key) == Total(add, front + [last] + [r], key)
  {
    hide Lawful, Total, Both, At;
    var added := Keyed(last.key, add(last.value, r.value));
    TotalConcat(add, front, [added], key);
    TotalConcat(add, front + [last], [r], key);
    TotalConcat(add, front, [last], key);
    TotalOfOne(add, added, key);
    TotalOfOne(add, last, key);
    TotalOfOne(add, r, key);
    AtAdds(add, last, r, key);
    BothAssociates(add, Total(add, front, key), At(last, key), At(r, key));
  }
}
