/** What the three projections of a posting block mean in terms of its one occurrence list. */
module PostingOrder {
  import opened Words
  import opened PostingBlock
  import Uleb128

  predicate Before(a: Occurrence, b: Occurrence) {
    a.id < b.id || (a.id == b.id && a.ply < b.ply)
  }

  predicate Ascending(s: seq<Occurrence>) {
    forall i, j :: 0 <= i < j < |s| ==> Before(s[i], s[j])
  }

  lemma {:induction false} OccurrencesCons(g: GameGroup, gs: seq<GameGroup>)
    ensures Occurrences([g] + gs) == GroupOccurrences(g) + Occurrences(gs)
    decreases |gs|
  {
    hide GroupOccurrences;
    if gs == [] {
      assert ([g] + gs)[..0] == [] && ([g] + gs)[0] == g;
      assert Occurrences([]) + GroupOccurrences(g) == GroupOccurrences(g) + Occurrences([]);
    } else {
      var n := |gs| - 1;
      OccurrencesCons(g, gs[..n]);
      assert ([g] + gs)[..|gs|] == [g] + gs[..n];
      assert GroupOccurrences(g) + (Occurrences(gs[..n]) + GroupOccurrences(gs[n]))
          == GroupOccurrences(g) + Occurrences(gs[..n]) + GroupOccurrences(gs[n]);
    }
  }

  lemma {:induction false} PliesRise(prev: nat, plies: seq<nat>)
    requires RisingFrom(prev, plies)
    ensures forall i :: 0 <= i < |plies| ==> prev < plies[i] <= U16_MAX
    ensures forall i, j :: 0 <= i < j < |plies| ==> plies[i] < plies[j]
    decreases |plies|
  {
    if plies != [] {
      PliesRise(plies[0], plies[1..]);
    }
  }

  lemma GroupRises(g: GameGroup)
    requires ValidGroup(g)
    ensures forall i :: 0 <= i < |g.plies| ==> g.plies[0] <= g.plies[i] <= U16_MAX
    ensures Ascending(GroupOccurrences(g))
    ensures forall o :: o in GroupOccurrences(g) ==> o.id == g.id && g.plies[0] <= o.ply <= U16_MAX
    ensures Occurrence(g.id, g.plies[0]) in GroupOccurrences(g)
  {
    PliesRise(g.plies[0], g.plies[1..]);
    assert GroupOccurrences(g)[0] == Occurrence(g.id, g.plies[0]);
  }

  /** Occurrences come in strictly ascending (game, ply) order. */
  lemma {:induction false} OccurrencesAscend(prev: nat, gs: seq<GameGroup>)
    requires ValidGroups(prev, gs)
    ensures Ascending(Occurrences(gs))
    ensures forall o :: o in Occurrences(gs) ==> prev < o.id <= U32_MAX && o.ply <= U16_MAX
    decreases |gs|
  {
    if gs != [] {
      hide GroupOccurrences;
      GroupRises(gs[0]);
      OccurrencesAscend(gs[0].id, gs[1..]);
      OccurrencesCons(gs[0], gs[1..]);
      assert [gs[0]] + gs[1..] == gs;
      var a, b := GroupOccurrences(gs[0]), Occurrences(gs[1..]);
      forall i, j | 0 <= i < j < |a + b|
        ensures Before((a + b)[i], (a + b)[j])
      {
        if i < |a| && |a| <= j {
          assert a[i] in a && b[j - |a|] in b;
        }
      }
    }
  }

  lemma GroupIds(g: GameGroup)
    requires g.plies != []
    ensures forall o :: o in GroupOccurrences(g) ==> o.id == g.id
    ensures Occurrence(g.id, g.plies[0]) in GroupOccurrences(g)
  {
    assert GroupOccurrences(g)[0] == Occurrence(g.id, g.plies[0]);
  }

  /** The distinct-id projection of any accepted block: strictly ascending, and exactly the games that occur. */
  lemma {:induction false} GameIdsProject(prev: nat, gs: seq<GameGroup>)
    requires StoredGroups(prev, gs)
    ensures forall i :: 0 <= i < |gs| ==> prev < GameIds(gs)[i] <= U32_MAX
    ensures forall i, j :: 0 <= i < j < |gs| ==> GameIds(gs)[i] < GameIds(gs)[j]
    ensures forall id :: id in GameIds(gs) <==> exists o :: o in Occurrences(gs) && o.id == id
    decreases |gs|
  {
    if gs != [] {
      hide GroupOccurrences;
      GroupIds(gs[0]);
      GameIdsProject(gs[0].id, gs[1..]);
      OccurrencesCons(gs[0], gs[1..]);
      assert [gs[0]] + gs[1..] == gs;
      assert GameIds(gs) == [gs[0].id] + GameIds(gs[1..]);
      forall id
        ensures id in GameIds(gs) <==> exists o :: o in Occurrences(gs) && o.id == id
      {
        if id == gs[0].id {
          assert Occurrence(id, gs[0].plies[0]) in Occurrences(gs);
        } else if id in GameIds(gs) {
          var o :| o in Occurrences(gs[1..]) && o.id == id;
          assert o in Occurrences(gs);
        }
      }
    }
  }

  lemma {:induction false} FirstsCons(g: GameGroup, gs: seq<GameGroup>, requested: seq<nat>)
    requires g.plies != []
    ensures FirstOccurrences([g] + gs, requested)
         == (if g.id in requested then [Occurrence(g.id, g.plies[0])] else []) + FirstOccurrences(gs, requested)
    decreases |gs|
  {
    if gs == [] {
      assert ([g] + gs)[..0] == [] && ([g] + gs)[0] == g;
    } else {
      var n := |gs| - 1;
      FirstsCons(g, gs[..n], requested);
      assert ([g] + gs)[..|gs|] == [g] + gs[..n];
    }
  }

  lemma {:induction false} LaterIds(prev: nat, gs: seq<GameGroup>)
    requires StoredGroups(prev, gs)
    ensures forall o :: o in Occurrences(gs) ==> prev < o.id
    decreases |gs|
  {
    if gs != [] {
      hide GroupOccurrences;
      GroupIds(gs[0]);
      LaterIds(gs[0].id, gs[1..]);
      OccurrencesCons(gs[0], gs[1..]);
      assert [gs[0]] + gs[1..] == gs;
    }
  }

  /** Where a game's occurrences begin in the list. */
  predicate IsFirstAt(s: seq<Occurrence>, k: nat) {
    k < |s| && forall j :: 0 <= j < k ==> s[j].id != s[k].id
  }

  /** The first-occurrence projection of any accepted block: the first list entry of every requested game. */
  lemma {:induction false} FirstsAreFirst(prev: nat, gs: seq<GameGroup>, requested: seq<nat>)
    requires StoredGroups(prev, gs)
    ensures forall o :: o in FirstOccurrences(gs, requested) <==>
      o.id in requested && exists k: nat :: IsFirstAt(Occurrences(gs), k) && Occurrences(gs)[k] == o
    decreases |gs|
  {
    if gs != [] {
      var g, rest := gs[0], gs[1..];
      assert [g] + rest == gs;
      LaterIds(g.id, rest);
      OccurrencesCons(g, rest);
      FirstsCons(g, rest, requested);
      FirstsAreFirst(g.id, rest, requested);
      var a, b := GroupOccurrences(g), Occurrences(rest);
      assert Occurrences(gs) == a + b;
      forall o
        ensures o in FirstOccurrences(gs, requested) <==>
          o.id in requested && exists k: nat :: IsFirstAt(a + b, k) && (a + b)[k] == o
      {
        FirstOfParts(a, b, g.id, o);
      }
    }
  }

  lemma FirstOfParts(a: seq<Occurrence>, b: seq<Occurrence>, id: nat, o: Occurrence)
    requires a != [] && (forall x :: x in a ==> x.id == id) && (forall x :: x in b ==> id < x.id)
    ensures (exists k: nat :: IsFirstAt(a + b, k) && (a + b)[k] == o) <==> o == a[0] || exists k: nat :: IsFirstAt(b, k) && b[k] == o
  {
    var s := a + b;
    assert forall j :: 0 <= j < |a| ==> s[j] == a[j] && a[j] in a;
    assert forall j :: 0 <= j < |b| ==> s[|a| + j] == b[j] && b[j] in b;
    if k: nat :| IsFirstAt(s, k) && s[k] == o {
      if k < |a| {
        assert s[0] in a && s[k] in a;
      } else {
        forall j | 0 <= j < k - |a|
          ensures b[j].id != b[k - |a|].id
        {
          assert s[|a| + j].id != s[k].id;
        }
        assert IsFirstAt(b, k - |a|);
      }
    }
    if o == a[0] {
      assert IsFirstAt(s, 0) && s[0] == o;
    }
    if k: nat :| IsFirstAt(b, k) && b[k] == o {
      forall j | 0 <= j < |a| + k
        ensures s[j].id != s[|a| + k].id
      {
        if j >= |a| {
          assert s[j] == b[j - |a|];
        } else {
          assert s[j] in a && b[k] in b;
        }
      }
      assert IsFirstAt(s, |a| + k);
    }
  }

  lemma {:induction false} RisingPlies(prev: nat, plies: seq<nat>)
    requires ChangingFrom(prev, plies)
    requires plies != [] ==> prev < plies[0]
    requires forall i :: 0 <= i < |plies| - 1 ==> plies[i] < plies[i + 1]
    ensures RisingFrom(prev, plies)
    decreases |plies|
  {
    if plies != [] {
      assert forall i :: 0 <= i < |plies[1..]| ==> plies[1..][i] == plies[i + 1];
      RisingPlies(plies[0], plies[1..]);
    }
  }

  lemma AscendingGroup(g: GameGroup)
    requires StoredGroup(g) && Ascending(GroupOccurrences(g))
    ensures ValidGroup(g)
  {
    var rest, s := g.plies[1..], GroupOccurrences(g);
    assert rest != [] ==> Before(s[0], s[1]) && rest[0] == g.plies[1];
    forall i | 0 <= i < |rest| - 1
      ensures rest[i] < rest[i + 1]
    {
      assert Before(s[i + 1], s[i + 2]) && rest[i] == g.plies[i + 1] && rest[i + 1] == g.plies[i + 2];
    }
    RisingPlies(g.plies[0], rest);
  }

  lemma {:induction false} AscendingIsValid(prev: nat, gs: seq<GameGroup>)
    requires StoredGroups(prev, gs) && Ascending(Occurrences(gs))
    ensures ValidGroups(prev, gs)
    decreases |gs|
  {
    if gs != [] {
      hide GroupOccurrences;
      var a, b := GroupOccurrences(gs[0]), Occurrences(gs[1..]);
      OccurrencesCons(gs[0], gs[1..]);
      assert [gs[0]] + gs[1..] == gs;
      var s := Occurrences(gs);
      assert forall i :: 0 <= i < |a| ==> a[i] == s[i];
      assert forall i :: 0 <= i < |b| ==> b[i] == s[|a| + i];
      AscendingGroup(gs[0]);
      AscendingIsValid(gs[0].id, gs[1..]);
    }
  }

  /** An accepted block lists its occurrences in ascending order exactly when no stored ply delta exceeds 65535. */
  lemma AcceptedAscends(data: seq<byte>, entry: Entry, gs: seq<GameGroup>)
    requires Decode(data, entry) == Some(gs)
    ensures Ascending(Occurrences(gs)) <==> SmallDeltas(gs)
  {
    DecodeAcceptsExactlyBlocks(data, entry, gs);
    AcceptedIsAscending(data, entry, gs);
    if SmallDeltas(gs) {
      OccurrencesAscend(0, gs);
    }
    if Ascending(Occurrences(gs)) {
      AscendingIsValid(0, gs);
    }
  }

  /** The first-occurrence projection: in ascending order, exactly the lowest-ply occurrence of every requested game. */
  lemma {:induction false} FirstOccurrencesProject(prev: nat, gs: seq<GameGroup>, requested: seq<nat>)
    requires ValidGroups(prev, gs)
    ensures Ascending(FirstOccurrences(gs, requested))
    ensures forall o :: o in FirstOccurrences(gs, requested) <==>
      o in Occurrences(gs) && o.id in requested && forall p :: p in Occurrences(gs) && p.id == o.id ==> o.ply <= p.ply
    decreases |gs|
  {
    if gs != [] {
      hide GroupOccurrences;
      var g, rest := gs[0], gs[1..];
      assert [g] + rest == gs;
      GroupRises(g);
      OccurrencesAscend(g.id, rest);
      OccurrencesCons(g, rest);
      FirstsCons(g, rest, requested);
      FirstOccurrencesProject(g.id, rest, requested);
      var firsts := FirstOccurrences(rest, requested);
      forall i | 0 <= i < |firsts|
        ensures g.id < firsts[i].id
      {
        assert firsts[i] in firsts;
      }
      forall o
        ensures o in FirstOccurrences(gs, requested) <==>
          o in Occurrences(gs) && o.id in requested && forall p :: p in Occurrences(gs) && p.id == o.id ==> o.ply <= p.ply
      {
        if o.id == g.id {
          assert Occurrence(g.id, g.plies[0]) in Occurrences(gs);
          assert o !in firsts && o !in Occurrences(rest);
        } else {
          assert o !in GroupOccurrences(g);
          assert forall p: Occurrence :: p.id == o.id ==> (p in Occurrences(gs) <==> p in Occurrences(rest));
        }
      }
    }
  }

  lemma {:induction false} PliesLength(prev: nat, plies: seq<nat>)
    ensures |EncodePlies(prev, plies)| >= |plies|
    decreases |plies|
  {
    if plies != [] {
      PliesLength(plies[0], plies[1..]);
    }
  }

  /** A posting block has at least one byte per occurrence, as the directory check demands. */
  lemma {:induction false} BlockLength(prev: nat, gs: seq<GameGroup>)
    requires ValidGroups(prev, gs)
    ensures |EncodeGroups(prev, gs)| >= |Occurrences(gs)| + 2 * |gs|
    ensures |Occurrences(gs)| >= |gs|
    ensures gs != [] ==> prev + |gs| <= U32_MAX
    decreases |gs|
  {
    if gs != [] {
      hide GroupOccurrences, Uleb128.Encode;
      PliesLength(gs[0].plies[0], gs[0].plies[1..]);
      BlockLength(gs[0].id, gs[1..]);
      OccurrencesCons(gs[0], gs[1..]);
      assert [gs[0]] + gs[1..] == gs;
    }
  }

  lemma {:induction false} PlyRange(s: seq<Occurrence>)
    requires s != [] && forall o :: o in s ==> o.ply <= U16_MAX
    ensures MinPly(s) <= MaxPly(s) <= U16_MAX
    ensures forall o :: o in s ==> MinPly(s) <= o.ply <= MaxPly(s)
  {
    var front, last := s[..|s| - 1], s[|s| - 1];
    assert s == front + [last];
    if front != [] {
      PlyRange(front);
    } else {
      assert s[..|s| - 1] == [];
    }
  }

  // Appending to a block under construction.

  function LastId(prev: nat, gs: seq<GameGroup>): nat {
    if gs == [] then prev else gs[|gs| - 1].id
  }

  function LastPly(prev: nat, plies: seq<nat>): nat {
    if plies == [] then prev else plies[|plies| - 1]
  }

  lemma {:induction false} PliesAppend(prev: nat, plies: seq<nat>, ply: nat)
    ensures RisingFrom(prev, plies + [ply]) <==> RisingFrom(prev, plies) && LastPly(prev, plies) < ply <= U16_MAX
    ensures EncodePlies(prev, plies + [ply]) == EncodePlies(prev, plies) + Uleb128.Encode(PlyDelta(ply, LastPly(prev, plies)))
    decreases |plies|
  {
    hide Uleb128.Encode;
    if plies == [] {
      assert [ply][1..] == [] && [] + [ply] == [ply];
    } else {
      PliesAppend(plies[0], plies[1..], ply);
      assert (plies + [ply])[1..] == plies[1..] + [ply];
      assert LastPly(prev, plies) == LastPly(plies[0], plies[1..]);
    }
  }

  lemma {:induction false} GroupsAppend(prev: nat, gs: seq<GameGroup>, g: GameGroup)
    ensures ValidGroups(prev, gs + [g]) <==> ValidGroups(prev, gs) && LastId(prev, gs) < g.id <= U32_MAX && ValidGroup(g)
    ensures EncodeGroups(prev, gs + [g]) == EncodeGroups(prev, gs) + EncodeGroup(LastId(prev, gs), g)
    ensures Occurrences(gs + [g]) == Occurrences(gs) + GroupOccurrences(g)
    decreases |gs|
  {
    hide EncodeGroup, GroupOccurrences, ValidGroup;
    assert (gs + [g])[..|gs|] == gs;
    if gs == [] {
      assert [g][1..] == [] && [] + [g] == [g];
    } else {
      GroupsAppend(gs[0].id, gs[1..], g);
      assert (gs + [g])[1..] == gs[1..] + [g];
      assert LastId(prev, gs) == LastId(gs[0].id, gs[1..]);
    }
  }

  lemma NothingOccurs()
    ensures Occurrences([]) == []
  {
  }
}
