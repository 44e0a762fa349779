/** Lexicographically ordered records, sorted runs, and the strictly ascending list of a finite set of records. */
module SortedRuns {

  /** A spill record: (hash, game, ply), (prefix, game, 0), (hash, 0, 0) or (root hash, move, child hash). */
  datatype Triple = Triple(first: nat, second: nat, third: nat)

  predicate Less(a: Triple, b: Triple) {
    a.first < b.first || (a.first == b.first && (a.second < b.second || (a.second == b.second && a.third < b.third)))
  }

  predicate Sorted(s: seq<Triple>) {
    forall i, j :: 0 <= i < j < |s| ==> !Less(s[j], s[i])
  }

  predicate StrictlySorted(s: seq<Triple>) {
    forall i, j :: 0 <= i < j < |s| ==> Less(s[i], s[j])
  }

  function Elements<T>(s: seq<T>): set<T> {
    set x | x in s
  }

  // Sizes of sets of records.

  lemma {:induction false} DistinctElements(s: seq<Triple>)
    requires StrictlySorted(s)
    ensures |Elements(s)| == |s|
  {
    if s != [] {
      var front, last := s[..|s| - 1], s[|s| - 1];
      DistinctElements(front);
      assert s == front + [last];
      assert Elements(s) == Elements(front) + {last};
      assert forall i :: 0 <= i < |front| ==> front[i] == s[i] && Less(s[i], s[|s| - 1]);
    }
  }

  lemma {:induction false} ElementsAreFew<T>(s: seq<T>)
    ensures |Elements(s)| <= |s|
  {
    if s != [] {
      var front, last := s[..|s| - 1], s[|s| - 1];
      ElementsAreFew(front);
      assert s == front + [last];
      assert Elements(s) == Elements(front) + {last};
    }
  }

  lemma UnionIsSmall<T>(a: set<T>, b: set<T>)
    ensures |a + b| <= |a| + |b|
  {
    assert a + b == a + (b - a);
    assert |b - a| <= |b| by {
      assert b == (b - a) + b * a;
    }
  }

  function Insert(x: Triple, s: seq<Triple>): seq<Triple> {
    if s == [] || !Less(s[0], x) then [x] + s else [s[0]] + Insert(x, s[1..])
  }

  /** std::ranges::sort: some sorted rearrangement; equal records are indistinguishable. */
  function Sort(s: seq<Triple>): seq<Triple> {
    if s == [] then [] else Insert(s[0], Sort(s[1..]))
  }

  lemma {:induction false} InsertKeeps(x: Triple, s: seq<Triple>)
    ensures multiset(Insert(x, s)) == multiset{x} + multiset(s)
    ensures Sorted(s) ==> Sorted(Insert(x, s))
  {
    if s == [] || !Less(s[0], x) {
      assert [x] + s == Insert(x, s);
    } else {
      InsertKeeps(x, s[1..]);
      var rest := Insert(x, s[1..]);
      assert s == [s[0]] + s[1..];
      if Sorted(s) {
        forall j | 0 <= j < |rest|
          ensures !Less(rest[j], s[0])
        {
          assert rest[j] in multiset(rest);
          assert rest[j] == x || rest[j] in s[1..];
        }
      }
    }
  }

  lemma {:induction false} SortSorts(s: seq<Triple>)
    ensures Sorted(Sort(s)) && multiset(Sort(s)) == multiset(s)
    ensures Elements(Sort(s)) == Elements(s)
  {
    if s != [] {
      SortSorts(s[1..]);
      InsertKeeps(s[0], Sort(s[1..]));
      assert s == [s[0]] + s[1..];
    }
    forall x
      ensures x in Sort(s) <==> x in s
    {
      assert x in multiset(Sort(s)) <==> x in multiset(s);
    }
  }

  /** A strictly ascending list is determined by its set of elements. */
  lemma {:induction false} StrictlySortedIsUnique(s: seq<Triple>, t: seq<Triple>)
    requires StrictlySorted(s) && StrictlySorted(t) && Elements(s) == Elements(t)
    ensures s == t
  {
    assert s != [] ==> s[0] in Elements(s);
    assert t != [] ==> t[0] in Elements(t);
    if s != [] {
      assert s[0] in Elements(t);
      assert t[0] in Elements(s);
      var i :| 0 <= i < |s| && s[i] == t[0];
      var j :| 0 <= j < |t| && t[j] == s[0];
      assert i == 0 && j == 0;
      forall x
        ensures x in s[1..] <==> x in t[1..]
      {
        RestOf(s, x);
        RestOf(t, x);
      }
      StrictlySortedIsUnique(s[1..], t[1..]);
      assert s == [s[0]] + s[1..] && t == [t[0]] + t[1..];
    }
  }

  lemma RestOf(s: seq<Triple>, x: Triple)
    requires s != [] && StrictlySorted(s)
    ensures x in s[1..] <==> x in Elements(s) && x != s[0]
  {
    assert s == [s[0]] + s[1..];
  }

  // Cursors of a k-way merge: what is left of each run.

  ghost predicate InCursors(cursors: seq<seq<Triple>>, x: Triple) {
    exists i :: 0 <= i < |cursors| && x in cursors[i]
  }

  predicate AllSorted(cursors: seq<seq<Triple>>) {
    forall i :: 0 <= i < |cursors| ==> Sorted(cursors[i])
  }

  /** A cursor the heap may hand out: it has a current record and no other current record is smaller. */
  predicate IsLeast(cursors: seq<seq<Triple>>, i: nat) {
    && i < |cursors| && cursors[i] != []
    && forall j :: 0 <= j < |cursors| && cursors[j] != [] ==> !Less(cursors[j][0], cursors[i][0])
  }

  predicate Exhausted(cursors: seq<seq<Triple>>) {
    forall i :: 0 <= i < |cursors| ==> cursors[i] == []
  }

  lemma {:induction false} LeastExists(cursors: seq<seq<Triple>>)
    requires !Exhausted(cursors)
    ensures exists i: nat :: IsLeast(cursors, i)
  {
    var n := |cursors| - 1;
    if Exhausted(cursors[..n]) {
      assert forall j :: 0 <= j < n ==> cursors[..n][j] == cursors[j] == [];
      assert IsLeast(cursors, n);
    } else {
      LeastExists(cursors[..n]);
      var i: nat :| IsLeast(cursors[..n], i);
      assert forall j :: 0 <= j < n ==> cursors[..n][j] == cursors[j];
      if cursors[n] != [] && Less(cursors[n][0], cursors[i][0]) {
        assert IsLeast(cursors, n);
      } else {
        assert IsLeast(cursors, i);
      }
    }
  }

  function Records(cursors: seq<seq<Triple>>): nat {
    if cursors == [] then 0 else |cursors[0]| + Records(cursors[1..])
  }

  lemma {:induction false} AdvanceShrinks(cursors: seq<seq<Triple>>, i: nat)
    requires i < |cursors| && cursors[i] != []
    ensures Records(cursors[i := cursors[i][1..]]) < Records(cursors)
  {
    if i > 0 {
      AdvanceShrinks(cursors[1..], i - 1);
      assert cursors[i := cursors[i][1..]][1..] == cursors[1..][i - 1 := cursors[i][1..]];
    } else {
      assert cursors[0 := cursors[0][1..]][1..] == cursors[1..];
    }
  }

  /** Popping a least cursor removes nothing but its record, and leaves nothing smaller behind. */
  lemma PopLeast(cursors: seq<seq<Triple>>, i: nat)
    requires AllSorted(cursors) && IsLeast(cursors, i)
    ensures
      var rest := cursors[i := cursors[i][1..]];
      && AllSorted(rest)
      && (forall x :: InCursors(cursors, x) <==> x == cursors[i][0] || InCursors(rest, x))
      && (forall x :: InCursors(rest, x) ==> !Less(x, cursors[i][0]))
      && Records(rest) < Records(cursors)
  {
    var rest := cursors[i := cursors[i][1..]];
    AdvanceShrinks(cursors, i);
    assert cursors[i] == [cursors[i][0]] + cursors[i][1..];
    forall x
      ensures InCursors(cursors, x) <==> x == cursors[i][0] || InCursors(rest, x)
    {
      if InCursors(cursors, x) && x != cursors[i][0] {
        var j :| 0 <= j < |cursors| && x in cursors[j];
        assert x in rest[j];
      }
      if InCursors(rest, x) {
        var j :| 0 <= j < |rest| && x in rest[j];
        assert x in cursors[j];
      }
      if x == cursors[i][0] {
        assert x in cursors[i];
      }
    }
    forall x | InCursors(rest, x)
      ensures !Less(x, cursors[i][0])
    {
      var j :| 0 <= j < |rest| && x in rest[j];
      var k :| 0 <= k < |rest[j]| && rest[j][k] == x;
      assert x == if j == i then cursors[j][k + 1] else cursors[j][k];
    }
  }

  lemma LeastIndexExists(cursors: seq<seq<Triple>>)
    requires !Exhausted(cursors)
    ensures exists i :: 0 <= i < |cursors| && IsLeast(cursors, i)
  {
    LeastExists(cursors);
    var i: nat :| IsLeast(cursors, i);
    assert 0 <= i < |cursors|;
  }

  lemma LeastIsCurrent(cursors: seq<seq<Triple>>, i: nat)
    requires IsLeast(cursors, i)
    ensures i < |cursors| && cursors[i] != [] && InCursors(cursors, cursors[i][0])
  {
    assert cursors[i][0] in cursors[i];
  }

  lemma NoneLeft(cursors: seq<seq<Triple>>, t: Triple)
    requires Exhausted(cursors)
    ensures !InCursors(cursors, t)
  {
  }

  // The records of a list of runs.

  function Union(runs: seq<seq<Triple>>): set<Triple> {
    if runs == [] then {} else Union(runs[..|runs| - 1]) + Elements(runs[|runs| - 1])
  }

  lemma {:induction false} InUnion(runs: seq<seq<Triple>>, t: Triple)
    ensures t in Union(runs) <==> InCursors(runs, t)
  {
    if runs != [] {
      var n := |runs| - 1;
      InUnion(runs[..n], t);
      if InCursors(runs[..n], t) {
        var i :| 0 <= i < n && t in runs[..n][i];
        assert t in runs[i];
      }
      if t in runs[n] {
        assert InCursors(runs, t);
      }
    }
  }

  lemma UnionAppends(runs: seq<seq<Triple>>, run: seq<Triple>)
    ensures Union(runs + [run]) == Union(runs) + Elements(run)
  {
    assert (runs + [run])[..|runs|] == runs;
  }

  lemma BufferGrows(records: seq<Triple>, t: Triple)
    ensures Elements(records + [t]) == Elements(records) + {t}
  {
  }
}
