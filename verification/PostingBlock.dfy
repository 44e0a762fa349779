/** One hash's posting block: for each game the id delta, the number of plies, the first ply and the ply deltas. */
module PostingBlock {
  import opened Words
  import Uleb128

  datatype GameGroup = GameGroup(id: nat, plies: seq<nat>)

  datatype Occurrence = Occurrence(id: nat, ply: nat)

  /** A directory entry: where a hash's posting block lies and what it must contain. */
  datatype Entry = Entry(hash: nat, offset: nat, length: nat, occurrences: nat, games: nat, minPly: nat, maxPly: nat)

  predicate RisingFrom(prev: nat, plies: seq<nat>)
    decreases |plies|
  {
    plies == [] || (prev < plies[0] <= U16_MAX && RisingFrom(plies[0], plies[1..]))
  }

  predicate ValidGroup(g: GameGroup) {
    g.plies != [] && g.plies[0] <= U16_MAX && RisingFrom(g.plies[0], g.plies[1..])
  }

  predicate ValidGroups(prev: nat, gs: seq<GameGroup>)
    decreases |gs|
  {
    gs == [] || (prev < gs[0].id <= U32_MAX && ValidGroup(gs[0]) && ValidGroups(gs[0].id, gs[1..]))
  }

  // What the decoders let through: their 64-bit sum of a ply and its delta may wrap.

  predicate ChangingFrom(prev: nat, plies: seq<nat>)
    decreases |plies|
  {
    plies == [] || (prev != plies[0] <= U16_MAX && ChangingFrom(plies[0], plies[1..]))
  }

  predicate StoredGroup(g: GameGroup) {
    0 < |g.plies| <= U64_MAX && g.plies[0] <= U16_MAX && ChangingFrom(g.plies[0], g.plies[1..])
  }

  /** Ids ascend, but a ply need only differ from the one before it. */
  predicate StoredGroups(prev: nat, gs: seq<GameGroup>)
    decreases |gs|
  {
    gs == [] || (prev < gs[0].id <= U32_MAX && StoredGroup(gs[0]) && StoredGroups(gs[0].id, gs[1..]))
  }

  /** Addition of 64-bit words. */
  function WrappedSum(a: nat, b: nat): nat {
    if U64_MAX < a + b <= 2 * U64_MAX + 1 then a + b - (U64_MAX + 1) else a + b
  }

  /** The difference of two ascending values. */
  function Delta(value: nat, prev: nat): nat {
    if value < prev then 0 else value - prev
  }

  /** What 64-bit addition must add to one ply to get to the next. */
  function PlyDelta(value: nat, prev: nat): nat {
    if value >= prev then value - prev else if prev - value <= U64_MAX then U64_MAX + 1 - (prev - value) else 0
  }

  function EncodePlies(prev: nat, plies: seq<nat>): seq<byte>
    decreases |plies|
  {
    if plies == [] then [] else Uleb128.Encode(PlyDelta(plies[0], prev)) + EncodePlies(plies[0], plies[1..])
  }

  function EncodeGroup(prev: nat, g: GameGroup): seq<byte> {
    if g.plies == [] then []
    else
      Uleb128.Encode(Delta(g.id, prev)) + Uleb128.Encode(|g.plies|) + Uleb128.Encode(g.plies[0])
      + EncodePlies(g.plies[0], g.plies[1..])
  }

  function EncodeGroups(prev: nat, gs: seq<GameGroup>): seq<byte>
    decreases |gs|
  {
    if gs == [] then [] else EncodeGroup(prev, gs[0]) + EncodeGroups(gs[0].id, gs[1..])
  }

  function GroupOccurrences(g: GameGroup): (s: seq<Occurrence>)
    ensures |s| == |g.plies|
  {
    seq(|g.plies|, i requires 0 <= i < |g.plies| => Occurrence(g.id, g.plies[i]))
  }

  /** All occurrences of a block in canonical (game, ply) order. */
  function Occurrences(gs: seq<GameGroup>): seq<Occurrence> {
    if gs == [] then [] else Occurrences(gs[..|gs| - 1]) + GroupOccurrences(gs[|gs| - 1])
  }

  function MinPly(s: seq<Occurrence>): nat {
    if s == [] then U16_MAX else Min(MinPly(s[..|s| - 1]), s[|s| - 1].ply)
  }

  function MaxPly(s: seq<Occurrence>): nat {
    if s == [] then 0 else Max(MaxPly(s[..|s| - 1]), s[|s| - 1].ply)
  }

  function GameIds(gs: seq<GameGroup>): (ids: seq<nat>)
    ensures |ids| == |gs|
  {
    seq(|gs|, i requires 0 <= i < |gs| => gs[i].id)
  }

  /** The first stored occurrence of every requested game of the block. */
  function FirstOccurrences(gs: seq<GameGroup>, requested: seq<nat>): seq<Occurrence> {
    if gs == [] then []
    else
      var g := gs[|gs| - 1];
      FirstOccurrences(gs[..|gs| - 1], requested)
      + if g.id in requested && g.plies != [] then [Occurrence(g.id, g.plies[0])] else []
  }

  /** The entry's counts and ply range are those of the block. */
  predicate Describes(entry: Entry, gs: seq<GameGroup>) {
    && |gs| == entry.games
    && |Occurrences(gs)| == entry.occurrences
    && MinPly(Occurrences(gs)) == entry.minPly
    && MaxPly(Occurrences(gs)) == entry.maxPly
  }

  /** The contents of a byte block under a directory entry, if the block is acceptable at all. */
  predicate IsBlock(data: seq<byte>, entry: Entry, gs: seq<GameGroup>) {
    StoredGroups(0, gs) && EncodeGroups(0, gs) == data && Describes(entry, gs)
  }

  // Reference parser.

  ghost function ParsePlies(data: seq<byte>, offset: nat, prev: nat, n: nat): Option<(seq<nat>, nat)>
    decreases n
  {
    if n == 0 then Some(([], offset))
    else match Uleb128.At(data, offset)
      case None => None
      case Some((delta, next)) =>
        var ply := WrappedSum(prev, delta);
        if delta == 0 || ply > U16_MAX then None
        else PrependPlies([ply], ParsePlies(data, next, ply, n - 1))
  }

  ghost function PrependPlies(plies: seq<nat>, r: Option<(seq<nat>, nat)>): Option<(seq<nat>, nat)> {
    if r.None? then None else Some((plies + r.value.0, r.value.1))
  }

  /** The id, number of plies and first ply that open a group, and the offset after them. */
  datatype GroupHead = GroupHead(id: nat, plyCount: nat, first: nat, next: nat)

  ghost function ParseHead(data: seq<byte>, offset: nat, prev: nat): Option<GroupHead> {
    match Uleb128.At(data, offset)
    case None => None
    case Some((delta, afterId)) =>
      if delta == 0 || prev + delta > U32_MAX then None
      else match Uleb128.At(data, afterId)
        case None => None
        case Some((count, afterCount)) =>
          if count == 0 then None
          else match Uleb128.At(data, afterCount)
            case None => None
            case Some((first, next)) => if first > U16_MAX then None else Some(GroupHead(prev + delta, count, first, next))
  }

  ghost function ParseGroup(data: seq<byte>, offset: nat, prev: nat): Option<(GameGroup, nat)> {
    match ParseHead(data, offset, prev)
    case None => None
    case Some(head) =>
      match ParsePlies(data, head.next, head.first, head.plyCount - 1)
      case None => None
      case Some((plies, next)) => Some((GameGroup(head.id, [head.first] + plies), next))
  }

  ghost function ParseGroups(data: seq<byte>, offset: nat, prev: nat, n: nat): Option<(seq<GameGroup>, nat)>
    decreases n
  {
    if n == 0 then Some(([], offset))
    else match ParseGroup(data, offset, prev)
      case None => None
      case Some((g, next)) => PrependGroups([g], ParseGroups(data, next, g.id, n - 1))
  }

  ghost function PrependGroups(gs: seq<GameGroup>, r: Option<(seq<GameGroup>, nat)>): Option<(seq<GameGroup>, nat)> {
    if r.None? then None else Some((gs + r.value.0, r.value.1))
  }

  ghost function Decode(data: seq<byte>, entry: Entry): Option<seq<GameGroup>> {
    match ParseGroups(data, 0, 0, entry.games)
    case None => None
    case Some((gs, end)) => if end == |data| && Describes(entry, gs) then Some(gs) else None
  }

  lemma {:induction false} ParsedPlies(data: seq<byte>, offset: nat, prev: nat, n: nat)
    requires offset <= |data| && prev <= U16_MAX
    ensures
      var r := ParsePlies(data, offset, prev, n);
      r.Some? ==>
        && |r.value.0| == n
        && ChangingFrom(prev, r.value.0)
        && r.value.1 == offset + |EncodePlies(prev, r.value.0)| <= |data|
        && Holds(data, offset, EncodePlies(prev, r.value.0))
    decreases n
  {
    hide Holds;
    hide Uleb128.At;
    hide Uleb128.Encode;
    HoldsNothing(data, offset);
    if n > 0 && ParsePlies(data, offset, prev, n).Some? {
      var (delta, next) := Uleb128.At(data, offset).value;
      var ply := WrappedSum(prev, delta);
      var (plies, end) := ParsePlies(data, next, ply, n - 1).value;
      ParsedPlies(data, next, ply, n - 1);
      assert ([ply] + plies)[1..] == plies;
      HoldsConcat(data, offset, Uleb128.Encode(delta), EncodePlies(ply, plies));
    }
  }

  lemma {:induction false} EncodedPliesParse(data: seq<byte>, offset: nat, prev: nat, plies: seq<nat>)
    requires ChangingFrom(prev, plies) && prev <= U16_MAX
    requires Holds(data, offset, EncodePlies(prev, plies))
    ensures ParsePlies(data, offset, prev, |plies|) == Some((plies, offset + |EncodePlies(prev, plies)|))
    decreases |plies|
  {
    if plies != [] {
      var delta := PlyDelta(plies[0], prev);
      HoldsConcat(data, offset, Uleb128.Encode(delta), EncodePlies(plies[0], plies[1..]));
      Uleb128.StoredIsRead(data, offset, delta);
      EncodedPliesParse(data, offset + |Uleb128.Encode(delta)|, plies[0], plies[1..]);
      assert [plies[0]] + plies[1..] == plies;
    }
  }

  lemma ParsedGroup(data: seq<byte>, offset: nat, prev: nat)
    requires offset <= |data|
    ensures
      var r := ParseGroup(data, offset, prev);
      r.Some? ==>
        && prev < r.value.0.id <= U32_MAX && StoredGroup(r.value.0)
        && r.value.1 == offset + |EncodeGroup(prev, r.value.0)| <= |data|
        && Holds(data, offset, EncodeGroup(prev, r.value.0))
  {
    hide Holds;
    hide Uleb128.At;
    if ParseGroup(data, offset, prev).Some? {
      var (delta, afterId) := Uleb128.At(data, offset).value;
      var head := ParseHead(data, offset, prev).value;
      var (plies, next) := ParsePlies(data, head.next, head.first, head.plyCount - 1).value;
      ParsedPlies(data, head.next, head.first, head.plyCount - 1);
      assert ([head.first] + plies)[1..] == plies;
      GroupHolds(data, offset, prev, GameGroup(head.id, [head.first] + plies));
    }
  }

  /** A group lies at an offset exactly when its four fields lie there one after the other. */
  lemma GroupHolds(data: seq<byte>, offset: nat, prev: nat, g: GameGroup)
    requires prev < g.id && StoredGroup(g)
    ensures
      var afterId := offset + |Uleb128.Encode(g.id - prev)|;
      var afterCount := afterId + |Uleb128.Encode(|g.plies|)|;
      var afterFirst := afterCount + |Uleb128.Encode(g.plies[0])|;
      && (Holds(data, offset, EncodeGroup(prev, g)) <==>
          && Holds(data, offset, Uleb128.Encode(g.id - prev))
          && Holds(data, afterId, Uleb128.Encode(|g.plies|))
          && Holds(data, afterCount, Uleb128.Encode(g.plies[0]))
          && Holds(data, afterFirst, EncodePlies(g.plies[0], g.plies[1..])))
      && offset + |EncodeGroup(prev, g)| == afterFirst + |EncodePlies(g.plies[0], g.plies[1..])|
  {
    hide Holds;
    hide Uleb128.Encode;
    hide EncodePlies;
    var id, count, first := Uleb128.Encode(g.id - prev), Uleb128.Encode(|g.plies|), Uleb128.Encode(g.plies[0]);
    HoldsConcat(data, offset, id, count);
    HoldsConcat(data, offset, id + count, first);
    HoldsConcat(data, offset, id + count + first, EncodePlies(g.plies[0], g.plies[1..]));
  }

  lemma EncodedGroupParses(data: seq<byte>, offset: nat, prev: nat, g: GameGroup)
    requires prev < g.id <= U32_MAX && StoredGroup(g)
    requires Holds(data, offset, EncodeGroup(prev, g))
    ensures ParseGroup(data, offset, prev) == Some((g, offset + |EncodeGroup(prev, g)|))
  {
    hide Holds;
    hide Uleb128.At;
    hide Uleb128.Encode;
    GroupHolds(data, offset, prev, g);
    var afterId := offset + |Uleb128.Encode(g.id - prev)|;
    var afterCount := afterId + |Uleb128.Encode(|g.plies|)|;
    Uleb128.StoredIsRead(data, offset, g.id - prev);
    Uleb128.StoredIsRead(data, afterId, |g.plies|);
    Uleb128.StoredIsRead(data, afterCount, g.plies[0]);
    EncodedPliesParse(data, afterCount + |Uleb128.Encode(g.plies[0])|, g.plies[0], g.plies[1..]);
    assert [g.plies[0]] + g.plies[1..] == g.plies;
  }

  lemma {:induction false} ParsedGroups(data: seq<byte>, offset: nat, prev: nat, n: nat)
    requires offset <= |data|
    ensures
      var r := ParseGroups(data, offset, prev, n);
      r.Some? ==>
        && |r.value.0| == n
        && StoredGroups(prev, r.value.0)
        && r.value.1 == offset + |EncodeGroups(prev, r.value.0)| <= |data|
        && Holds(data, offset, EncodeGroups(prev, r.value.0))
    decreases n
  {
    hide Holds;
    hide ParseGroup;
    hide EncodeGroup;
    HoldsNothing(data, offset);
    if n > 0 && ParseGroups(data, offset, prev, n).Some? {
      ParsedGroup(data, offset, prev);
      var (g, next) := ParseGroup(data, offset, prev).value;
      var (gs, end) := ParseGroups(data, next, g.id, n - 1).value;
      ParsedGroups(data, next, g.id, n - 1);
      assert ([g] + gs)[1..] == gs;
      HoldsConcat(data, offset, EncodeGroup(prev, g), EncodeGroups(g.id, gs));
    }
  }

  lemma {:induction false} EncodedGroupsParse(data: seq<byte>, offset: nat, prev: nat, gs: seq<GameGroup>)
    requires StoredGroups(prev, gs)
    requires Holds(data, offset, EncodeGroups(prev, gs))
    ensures ParseGroups(data, offset, prev, |gs|) == Some((gs, offset + |EncodeGroups(prev, gs)|))
    decreases |gs|
  {
    hide Holds;
    hide ParseGroup;
    hide EncodeGroup;
    if gs != [] {
      HoldsConcat(data, offset, EncodeGroup(prev, gs[0]), EncodeGroups(gs[0].id, gs[1..]));
      EncodedGroupParses(data, offset, prev, gs[0]);
      EncodedGroupsParse(data, offset + |EncodeGroup(prev, gs[0])|, gs[0].id, gs[1..]);
      assert [gs[0]] + gs[1..] == gs;
    }
  }

  lemma {:induction false} RisingLength(prev: nat, plies: seq<nat>)
    requires RisingFrom(prev, plies)
    ensures plies != [] ==> prev + |plies| <= U16_MAX
    decreases |plies|
  {
    if plies != [] {
      RisingLength(plies[0], plies[1..]);
    }
  }

  /** The decoders' acceptance criterion: exactly the encodings of groups of changing plies that the entry describes. */
  lemma DecodeAcceptsExactlyBlocks(data: seq<byte>, entry: Entry, gs: seq<GameGroup>)
    ensures Decode(data, entry) == Some(gs) <==> IsBlock(data, entry, gs)
  {
    if Decode(data, entry) == Some(gs) {
      ParsedGroups(data, 0, 0, entry.games);
    }
    if IsBlock(data, entry, gs) {
      EncodedGroupsParse(data, 0, 0, gs);
    }
  }

  // Where the decoders and the writer part.

  /** No stored ply delta exceeds the width of a ply. */
  predicate SmallSteps(prev: nat, plies: seq<nat>)
    decreases |plies|
  {
    plies == [] || (PlyDelta(plies[0], prev) <= U16_MAX && SmallSteps(plies[0], plies[1..]))
  }

  predicate SmallDeltas(gs: seq<GameGroup>) {
    forall i :: 0 <= i < |gs| && gs[i].plies != [] ==> SmallSteps(gs[i].plies[0], gs[i].plies[1..])
  }

  lemma {:induction false} SmallStepsRise(prev: nat, plies: seq<nat>)
    requires ChangingFrom(prev, plies) && prev <= U16_MAX
    ensures RisingFrom(prev, plies) <==> SmallSteps(prev, plies)
    decreases |plies|
  {
    if plies != [] {
      SmallStepsRise(plies[0], plies[1..]);
    }
  }

  lemma {:induction false} RisingIsChanging(prev: nat, plies: seq<nat>)
    requires RisingFrom(prev, plies)
    ensures ChangingFrom(prev, plies)
    decreases |plies|
  {
    if plies != [] {
      RisingIsChanging(plies[0], plies[1..]);
    }
  }

  /** What the writer stores, the decoders accept. */
  lemma {:induction false} ValidIsStored(prev: nat, gs: seq<GameGroup>)
    requires ValidGroups(prev, gs)
    ensures StoredGroups(prev, gs)
    decreases |gs|
  {
    if gs != [] {
      RisingIsChanging(gs[0].plies[0], gs[0].plies[1..]);
      RisingLength(gs[0].plies[0], gs[0].plies[1..]);
      ValidIsStored(gs[0].id, gs[1..]);
    }
  }

  /** The groups of an accepted block have ascending plies exactly when no stored ply delta exceeds 65535. */
  lemma {:induction false} StoredIsValid(prev: nat, gs: seq<GameGroup>)
    requires StoredGroups(prev, gs)
    ensures ValidGroups(prev, gs) <==> SmallDeltas(gs)
    decreases |gs|
  {
    if gs != [] {
      SmallStepsRise(gs[0].plies[0], gs[0].plies[1..]);
      StoredIsValid(gs[0].id, gs[1..]);
      assert gs == [gs[0]] + gs[1..];
      assert SmallDeltas(gs) ==> forall i :: 0 <= i < |gs[1..]| ==> gs[1..][i] == gs[i + 1];
    }
  }

  lemma AcceptedIsAscending(data: seq<byte>, entry: Entry, gs: seq<GameGroup>)
    requires Decode(data, entry) == Some(gs)
    ensures ValidGroups(0, gs) <==> SmallDeltas(gs)
  {
    DecodeAcceptsExactlyBlocks(data, entry, gs);
    StoredIsValid(0, gs);
  }

  /** The wrapped delta from ply 10 to ply 5. */
  const WRAPPED_DELTA: nat := U64_MAX + 1 - 5

  /**
   * Thirteen bytes that every decoder accepts: game 1 at ply 10, then a delta of 2^64 - 5. The window descends from ply 10 to ply 5,
   * and the first occurrence is at ply 10 although ply 5 is lower.
   */
  lemma WrappedBlockIsAccepted(hash: nat, offset: nat) returns (data: seq<byte>)
    ensures data == [1, 2, 10] + Uleb128.Encode(WRAPPED_DELTA) && |data| == 13
    ensures
      var entry, gs := Entry(hash, offset, 13, 2, 1, 5, 10), [GameGroup(1, [10, 5])];
      && Decode(data, entry) == Some(gs)
      && Occurrences(gs) == [Occurrence(1, 10), Occurrence(1, 5)]
      && FirstOccurrences(gs, [1]) == [Occurrence(1, 10)]
      && !ValidGroups(0, gs) && !SmallDeltas(gs)
  {
    data := [1, 2, 10] + Uleb128.Encode(WRAPPED_DELTA);
    var entry, gs := Entry(hash, offset, 13, 2, 1, 5, 10), [GameGroup(1, [10, 5])];
    WrappedBlockBytes();
    WrappedBlockIs(gs[0]);
    DecodeAcceptsExactlyBlocks(data, entry, gs);
    StoredIsValid(0, gs);
  }

  lemma WrappedBlockBytes()
    ensures |Uleb128.Encode(WRAPPED_DELTA)| == 10
    ensures EncodeGroups(0, [GameGroup(1, [10, 5])]) == [1, 2, 10] + Uleb128.Encode(WRAPPED_DELTA)
  {
    var g := GameGroup(1, [10, 5]);
    var bytes := Uleb128.Encode(WRAPPED_DELTA);
    Uleb128.EncodedSize(WRAPPED_DELTA);
    Uleb128.EncodeIsCanonical(WRAPPED_DELTA);
    Uleb128.PayloadBound(bytes);
    Uleb128.PlacesOf64Bits();
    if |bytes| < 10 {
      Uleb128.PlaceGrows(|bytes|, 9);
    }
    assert g.plies[1..] == [5] && [5][1..] == [] && [g][1..] == [];
    assert EncodePlies(10, [5]) == Uleb128.Encode(WRAPPED_DELTA) + [];
    assert Uleb128.Encode(1) == [1] && Uleb128.Encode(2) == [2] && Uleb128.Encode(10) == [10];
  }

  lemma WrappedBlockIs(g: GameGroup)
    requires g == GameGroup(1, [10, 5])
    ensures StoredGroups(0, [g]) && !ValidGroups(0, [g])
    ensures Occurrences([g]) == [Occurrence(1, 10), Occurrence(1, 5)]
    ensures FirstOccurrences([g], [1]) == [Occurrence(1, 10)]
    ensures MinPly(Occurrences([g])) == 5 && MaxPly(Occurrences([g])) == 10
  {
    assert g.plies[1..] == [5] && [5][1..] == [] && [g][1..] == [];
    assert Occurrences([g]) == GroupOccurrences(g);
    var s := [Occurrence(1, 10), Occurrence(1, 5)];
    assert s[..1] == [Occurrence(1, 10)] && s[..1][..0] == [];
    assert MinPly(s[..1]) == Min(MinPly(s[..1][..0]), 10) && MaxPly(s[..1]) == Max(MaxPly(s[..1][..0]), 10);
  }

  // Decoders.

  function Window<T>(s: seq<T>, skip: nat, count: nat): seq<T> {
    s[Min(skip, |s|)..Min(skip + count, |s|)]
  }

  /** The page of a list from `skip` on; a zero limit asks for everything. */
  function Page<T>(s: seq<T>, limit: nat, skip: nat): seq<T> {
    var rest := s[Min(skip, |s|)..];
    if limit == 0 then rest else rest[..Min(limit, |rest|)]
  }

  /** At most `length` items of the list, from `from` on. */
  predicate IsSlice<T(==)>(part: seq<T>, all: seq<T>, from: nat, length: nat) {
    && |part| == (if |all| <= from then 0 else if |all| - from <= length then |all| - from else length)
    && forall k :: 0 <= k < |part| ==> part[k] == all[from + k]
  }

  lemma PageIsSlice<T>(s: seq<T>, limit: nat, skip: nat)
    ensures IsSlice(Page(s, limit, skip), s, skip, if limit == 0 then |s| else limit)
  {
  }

  lemma {:induction false} StepParsed(data: seq<byte>, gs: seq<GameGroup>, g: GameGroup, next: nat, n: nat, offset: nat, prev: nat)
    requires n > 0 && ParseGroup(data, offset, prev) == Some((g, next))
    ensures ParseGroups(data, offset, prev, n) == PrependGroups([g], ParseGroups(data, next, g.id, n - 1))
    ensures PrependGroups(gs, ParseGroups(data, offset, prev, n)) == PrependGroups(gs + [g], ParseGroups(data, next, g.id, n - 1))
    ensures Occurrences(gs + [g]) == Occurrences(gs) + GroupOccurrences(g)
  {
    var rest := ParseGroups(data, next, g.id, n - 1);
    if rest.Some? {
      assert gs + ([g] + rest.value.0) == gs + [g] + rest.value.0;
    }
    assert (gs + [g])[..|gs|] == gs;
  }

  /** A block whose next group has no readable head is no block. */
  lemma HeadFails(data: seq<byte>, entry: Entry, gs: seq<GameGroup>, offset: nat, prev: nat, n: nat)
    requires n > 0 && ParseHead(data, offset, prev).None?
    requires ParseGroups(data, 0, 0, entry.games) == PrependGroups(gs, ParseGroups(data, offset, prev, n))
    ensures Decode(data, entry) == None
  {
  }

  /** Nor is one whose next ply is missing, does not change, or is too large. */
  lemma PlyFails(data: seq<byte>, entry: Entry, gs: seq<GameGroup>, offset: nat, prev: nat, n: nat,
                 plies: seq<nat>, plyOffset: nat, ply: nat, m: nat)
    requires n > 0 && m > 0 && ParseHead(data, offset, prev).Some?
    requires ParseGroups(data, 0, 0, entry.games) == PrependGroups(gs, ParseGroups(data, offset, prev, n))
    requires
      var head := ParseHead(data, offset, prev).value;
      ParsePlies(data, head.next, head.first, head.plyCount - 1) == PrependPlies(plies, ParsePlies(data, plyOffset, ply, m))
    requires
      var delta := Uleb128.At(data, plyOffset);
      delta.None? || delta.value.0 == 0 || WrappedSum(ply, delta.value.0) > U16_MAX
    ensures Decode(data, entry) == None
  {
    hide Uleb128.At;
    hide ParseHead;
  }

  lemma StepPly(data: seq<byte>, plies: seq<nat>, offset: nat, prev: nat, n: nat)
    requires n > 0 && Uleb128.At(data, offset).Some?
    requires Uleb128.At(data, offset).value.0 > 0 && WrappedSum(prev, Uleb128.At(data, offset).value.0) <= U16_MAX
    ensures
      var (delta, next) := Uleb128.At(data, offset).value;
      var ply := WrappedSum(prev, delta);
      PrependPlies(plies, ParsePlies(data, offset, prev, n)) == PrependPlies(plies + [ply], ParsePlies(data, next, ply, n - 1))
  {
    var (delta, next) := Uleb128.At(data, offset).value;
    var ply := WrappedSum(prev, delta);
    var rest := ParsePlies(data, next, ply, n - 1);
    if rest.Some? {
      assert plies + ([ply] + rest.value.0) == plies + [ply] + rest.value.0;
    }
  }

  lemma PrependNothing(r: Option<(seq<GameGroup>, nat)>)
    ensures PrependGroups([], r) == r
  {
    assert r.Some? ==> [] + r.value.0 == r.value.0;
  }

  lemma PrependNoPlies(r: Option<(seq<nat>, nat)>)
    ensures PrependPlies([], r) == r
  {
    assert r.Some? ==> [] + r.value.0 == r.value.0;
  }

  lemma GroupGrows(id: nat, plies: seq<nat>, ply: nat)
    ensures GroupOccurrences(GameGroup(id, plies + [ply])) == GroupOccurrences(GameGroup(id, plies)) + [Occurrence(id, ply)]
    ensures plies == [] ==> GroupOccurrences(GameGroup(id, plies + [ply])) == [Occurrence(id, ply)]
  {
  }

  /** The fields that open the group-th group of a block. */
  method ReadHead(data: seq<byte>, offset: nat, group: nat, previousId: nat) returns (r: Option<GroupHead>)
    requires group == 0 ==> previousId == 0
    ensures r == ParseHead(data, offset, previousId)
    ensures r.Some? ==> r.value.plyCount >= 1 && r.value.first <= U16_MAX && previousId < r.value.id
  {
    hide Uleb128.At;
    var id := Uleb128.Read(data, offset);
    if id.None? || (group > 0 && id.value.0 == 0) || previousId > U64_MAX - id.value.0 {
      return None;
    }
    var currentId := previousId + id.value.0;
    if currentId == 0 || currentId > U32_MAX {
      return None;
    }
    var plyCount := Uleb128.Read(data, id.value.1);
    if plyCount.None? || plyCount.value.0 == 0 {
      return None;
    }
    var first := Uleb128.Read(data, plyCount.value.1);
    if first.None? || first.value.0 > U16_MAX {
      return None;
    }
    return Some(GroupHead(currentId, plyCount.value.0, first.value.0, first.value.1));
  }

  /** decode_posting_block_window: the requested window of a block that is nevertheless checked to its end. */
  method DecodeWindow(data: seq<byte>, entry: Entry, limit: nat, skip: nat) returns (r: Result<seq<Occurrence>>)
    requires |data| <= U64_MAX
    ensures r == match Decode(data, entry)
      case None => Err(SchemaMismatch)
      case Some(gs) => Ok(Page(Occurrences(gs), limit, skip))
  {
    hide Uleb128.At;
    hide ParseHead;
    hide ParseGroups;
    hide ParsePlies;
    hide PrependGroups;
    hide PrependPlies;
    hide FirstOccurrences;
    hide Occurrences;
    hide GroupOccurrences;
    hide MinPly;
    hide MaxPly;
    hide KeepsWindow;
    hide Page;
    var begin := Min(skip, entry.occurrences);
    var remaining := entry.occurrences - begin;
    var count := if limit == 0 then remaining else Min(limit, remaining);
    var kept: Kept := Kept([], 0, U16_MAX, 0);
    var offset: nat, previousId: nat := 0, 0;
    ghost var gs: seq<GameGroup> := [];
    NothingKept(begin, count);
    PrependNothing(ParseGroups(data, 0, 0, entry.games));
    for group := 0 to entry.games
      invariant ParseGroups(data, 0, 0, entry.games)
             == PrependGroups(gs, ParseGroups(data, offset, previousId, entry.games - group))
      invariant |gs| == group && (group == 0 ==> previousId == 0)
      invariant KeepsWindow(kept, Occurrences(gs), begin, count)
    {
      var head := ReadHead(data, offset, group, previousId);
      if head.None? {
        HeadFails(data, entry, gs, offset, previousId, entry.games - group);
        return Err(SchemaMismatch);
      }
      var currentId: nat, ply: nat := head.value.id, head.value.first;
      ghost var parsed := offset;
      ghost var plies: seq<nat> := [ply];
      offset := head.value.next;
      GroupGrows(currentId, [], ply);
      assert [] + [ply] == plies && plies[1..] == [];
      kept := AppendIfRequested(Occurrences(gs), Occurrence(currentId, ply), begin, count, kept);
      var index := 1;
      PrependNoPlies(ParsePlies(data, offset, ply, head.value.plyCount - 1));
      while index < head.value.plyCount
        invariant 1 <= index <= head.value.plyCount
        invariant plies != [] && plies[0] == head.value.first
        invariant ParsePlies(data, head.value.next, head.value.first, head.value.plyCount - 1)
               == PrependPlies(plies[1..], ParsePlies(data, offset, ply, head.value.plyCount - index))
        invariant KeepsWindow(kept, Occurrences(gs) + GroupOccurrences(GameGroup(currentId, plies)), begin, count)
      {
        var delta := Uleb128.Read(data, offset);
        if delta.None? || delta.value.0 == 0 || WrappedSum(ply, delta.value.0) > U16_MAX {
          PlyFails(data, entry, gs, parsed, previousId, entry.games - group, plies[1..], offset, ply,
                   head.value.plyCount - index);
          return Err(SchemaMismatch);
        }
        StepPly(data, plies[1..], offset, ply, head.value.plyCount - index);
        offset := delta.value.1;
        ply := WrappedSum(ply, delta.value.0);
        GroupGrows(currentId, plies, ply);
        kept := AppendIfRequested(Occurrences(gs) + GroupOccurrences(GameGroup(currentId, plies)), Occurrence(currentId, ply),
                                  begin, count, kept);
        assert Occurrences(gs) + GroupOccurrences(GameGroup(currentId, plies + [ply]))
            == Occurrences(gs) + GroupOccurrences(GameGroup(currentId, plies)) + [Occurrence(currentId, ply)];
        assert (plies + [ply])[1..] == plies[1..] + [ply];
        plies := plies + [ply];
        index := index + 1;
      }
      PrependNoMore(plies, data, offset, ply);
      StepParsed(data, gs, GameGroup(currentId, plies), offset, entry.games - group, parsed, previousId);
      gs := gs + [GameGroup(currentId, plies)];
      previousId := currentId;
    }
    NoMoreGroups(gs, data, offset, previousId);
    WindowIsPage(kept, Occurrences(gs), entry.occurrences, limit, skip);
    if offset != |data| || kept.seen != entry.occurrences || kept.minPly != entry.minPly || kept.maxPly != entry.maxPly {
      return Err(SchemaMismatch);
    }
    return Ok(kept.occurrences);
  }

  /** The running result of the window decoder. */
  datatype Kept = Kept(occurrences: seq<Occurrence>, seen: nat, minPly: nat, maxPly: nat)

  predicate KeepsWindow(kept: Kept, s: seq<Occurrence>, begin: nat, count: nat) {
    kept == Kept(Window(s, begin, count), |s|, MinPly(s), MaxPly(s))
  }

  lemma WindowIsPage(kept: Kept, s: seq<Occurrence>, total: nat, limit: nat, skip: nat)
    requires
      var remaining := total - Min(skip, total);
      KeepsWindow(kept, s, Min(skip, total), if limit == 0 then remaining else Min(limit, remaining))
    ensures kept.seen == |s| && kept.minPly == MinPly(s) && kept.maxPly == MaxPly(s)
    ensures kept.seen == total ==> kept.occurrences == Page(s, limit, skip)
  {
  }

  lemma NothingKept(begin: nat, count: nat)
    ensures KeepsWindow(Kept([], 0, U16_MAX, 0), Occurrences([]), begin, count)
  {
  }

  lemma NoMoreGroups(gs: seq<GameGroup>, data: seq<byte>, offset: nat, prev: nat)
    ensures PrependGroups(gs, ParseGroups(data, offset, prev, 0)) == Some((gs, offset))
  {
    assert gs + [] == gs;
  }

  lemma PrependNoMore(plies: seq<nat>, data: seq<byte>, offset: nat, ply: nat)
    requires plies != []
    ensures PrependPlies(plies[1..], ParsePlies(data, offset, ply, 0)) == Some((plies[1..], offset))
    ensures [plies[0]] + plies[1..] == plies
  {
    assert plies[1..] + [] == plies[1..];
  }

  /** The decoder's local step: count the occurrence, and keep it when it falls into the window. */
  method AppendIfRequested(ghost s: seq<Occurrence>, occurrence: Occurrence, begin: nat, count: nat, kept: Kept)
    returns (kept': Kept)
    requires KeepsWindow(kept, s, begin, count)
    ensures KeepsWindow(kept', s + [occurrence], begin, count)
  {
    assert (s + [occurrence])[..|s|] == s;
    var occurrences := kept.occurrences;
    if kept.seen >= begin && |occurrences| < count {
      occurrences := occurrences + [occurrence];
    }
    kept' := Kept(occurrences, kept.seen + 1, Min(kept.minPly, occurrence.ply), Max(kept.maxPly, occurrence.ply));
  }

  /** The ply range seen so far. */
  predicate Spans(minPly: nat, maxPly: nat, s: seq<Occurrence>) {
    minPly == MinPly(s) && maxPly == MaxPly(s)
  }

  lemma SpanGrows(minPly: nat, maxPly: nat, s: seq<Occurrence>, id: nat, plies: seq<nat>, ply: nat)
    requires Spans(minPly, maxPly, s + GroupOccurrences(GameGroup(id, plies)))
    ensures Spans(Min(minPly, ply), Max(maxPly, ply), s + GroupOccurrences(GameGroup(id, plies + [ply])))
  {
    GroupGrows(id, plies, ply);
    var before := s + GroupOccurrences(GameGroup(id, plies));
    assert s + GroupOccurrences(GameGroup(id, plies + [ply])) == before + [Occurrence(id, ply)];
    assert (before + [Occurrence(id, ply)])[..|before|] == before;
  }

  lemma NoSpan(s: seq<Occurrence>, id: nat)
    ensures s + GroupOccurrences(GameGroup(id, [])) == s
    ensures s == [] ==> Spans(U16_MAX, 0, s)
  {
  }

  /** decode_posting_block_game_ids: the distinct games, every ply still checked. */
  method DecodeGameIds(data: seq<byte>, entry: Entry) returns (r: Result<seq<nat>>)
    requires |data| <= U64_MAX
    ensures r == match Decode(data, entry)
      case None => Err(SchemaMismatch)
      case Some(gs) => Ok(GameIds(gs))
  {
    hide Uleb128.At;
    hide ParseHead;
    hide ParseGroups;
    hide ParsePlies;
    hide PrependGroups;
    hide PrependPlies;
    hide FirstOccurrences;
    hide Occurrences;
    hide GroupOccurrences;
    hide Spans;
    var ids: seq<nat> := [];
    var offset: nat, previousId: nat, total: nat, minPly: nat, maxPly: nat := 0, 0, 0, U16_MAX, 0;
    ghost var gs: seq<GameGroup> := [];
    NothingKept(0, 0);
    NoSpan(Occurrences(gs), 0);
    PrependNothing(ParseGroups(data, 0, 0, entry.games));
    for group := 0 to entry.games
      invariant ParseGroups(data, 0, 0, entry.games)
             == PrependGroups(gs, ParseGroups(data, offset, previousId, entry.games - group))
      invariant |gs| == group && (group == 0 ==> previousId == 0)
      invariant ids == GameIds(gs)
      invariant total == |Occurrences(gs)| <= offset <= |data|
      invariant Spans(minPly, maxPly, Occurrences(gs))
    {
      var head := ReadHead(data, offset, group, previousId);
      if head.None? {
        HeadFails(data, entry, gs, offset, previousId, entry.games - group);
        return Err(SchemaMismatch);
      }
      HeadAdvances(data, offset, previousId);
      var currentId: nat, ply: nat := head.value.id, head.value.first;
      ghost var parsed := offset;
      ghost var plies: seq<nat> := [ply];
      offset := head.value.next;
      NoSpan(Occurrences(gs), currentId);
      SpanGrows(minPly, maxPly, Occurrences(gs), currentId, [], ply);
      assert [] + [ply] == plies && plies[1..] == [];
      minPly, maxPly := Min(minPly, ply), Max(maxPly, ply);
      var index := 1;
      PrependNoPlies(ParsePlies(data, offset, ply, head.value.plyCount - 1));
      while index < head.value.plyCount
        invariant 1 <= index == |plies| <= head.value.plyCount && plies[0] == head.value.first
        invariant ParsePlies(data, head.value.next, head.value.first, head.value.plyCount - 1)
               == PrependPlies(plies[1..], ParsePlies(data, offset, ply, head.value.plyCount - index))
        invariant total + index <= offset <= |data|
        invariant Spans(minPly, maxPly, Occurrences(gs) + GroupOccurrences(GameGroup(currentId, plies)))
      {
        var delta := Uleb128.Read(data, offset);
        if delta.None? || delta.value.0 == 0 || WrappedSum(ply, delta.value.0) > U16_MAX {
          PlyFails(data, entry, gs, parsed, previousId, entry.games - group, plies[1..], offset, ply,
                   head.value.plyCount - index);
          return Err(SchemaMismatch);
        }
        StepPly(data, plies[1..], offset, ply, head.value.plyCount - index);
        offset := delta.value.1;
        ply := WrappedSum(ply, delta.value.0);
        SpanGrows(minPly, maxPly, Occurrences(gs), currentId, plies, ply);
        minPly, maxPly := Min(minPly, ply), Max(maxPly, ply);
        assert (plies + [ply])[1..] == plies[1..] + [ply];
        plies := plies + [ply];
        index := index + 1;
      }
      PrependNoMore(plies, data, offset, ply);
      StepParsed(data, gs, GameGroup(currentId, plies), offset, entry.games - group, parsed, previousId);
      if total > U64_MAX - head.value.plyCount {
        return Err(SchemaMismatch);
      }
      total := total + head.value.plyCount;
      ids := ids + [currentId];
      gs := gs + [GameGroup(currentId, plies)];
      previousId := currentId;
    }
    NoMoreGroups(gs, data, offset, previousId);
    SpanIs(minPly, maxPly, Occurrences(gs));
    if offset != |data| || total != entry.occurrences || minPly != entry.minPly || maxPly != entry.maxPly {
      return Err(SchemaMismatch);
    }
    return Ok(ids);
  }

  lemma SpanIs(minPly: nat, maxPly: nat, s: seq<Occurrence>)
    requires Spans(minPly, maxPly, s)
    ensures minPly == MinPly(s) && maxPly == MaxPly(s)
  {
  }

  lemma HeadAdvances(data: seq<byte>, offset: nat, prev: nat)
    ensures
      var head := ParseHead(data, offset, prev);
      head.Some? ==> offset + 3 <= head.value.next <= |data|
  {
    hide Uleb128.At;
  }

  lemma NoFirsts(requested: seq<nat>)
    ensures FirstOccurrences([], requested) == []
  {
  }

  lemma FirstsGrow(gs: seq<GameGroup>, g: GameGroup, requested: seq<nat>)
    requires g.plies != []
    ensures FirstOccurrences(gs + [g], requested)
         == FirstOccurrences(gs, requested) + if g.id in requested then [Occurrence(g.id, g.plies[0])] else []
  {
    assert (gs + [g])[..|gs|] == gs;
  }

  /** decode_posting_block_first_occurrences: the first stored occurrence of each requested game, the whole block checked. */
  method DecodeFirstOccurrences(data: seq<byte>, entry: Entry, requested: seq<nat>) returns (r: Result<seq<Occurrence>>)
    requires |data| <= U64_MAX
    ensures r == match Decode(data, entry)
      case None => Err(SchemaMismatch)
      case Some(gs) => Ok(FirstOccurrences(gs, requested))
  {
    hide Uleb128.At;
    hide ParseHead;
    hide ParseGroups;
    hide ParsePlies;
    hide PrependGroups;
    hide PrependPlies;
    hide FirstOccurrences;
    hide Occurrences;
    hide GroupOccurrences;
    hide Spans;
    var occurrences: seq<Occurrence> := [];
    NoFirsts(requested);
    var offset: nat, previousId: nat, total: nat, minPly: nat, maxPly: nat := 0, 0, 0, U16_MAX, 0;
    ghost var gs: seq<GameGroup> := [];
    NothingKept(0, 0);
    NoSpan(Occurrences(gs), 0);
    PrependNothing(ParseGroups(data, 0, 0, entry.games));
    for group := 0 to entry.games
      invariant ParseGroups(data, 0, 0, entry.games)
             == PrependGroups(gs, ParseGroups(data, offset, previousId, entry.games - group))
      invariant |gs| == group && (group == 0 ==> previousId == 0)
      invariant occurrences == FirstOccurrences(gs, requested)
      invariant total == |Occurrences(gs)| <= offset <= |data|
      invariant Spans(minPly, maxPly, Occurrences(gs))
    {
      var head := ReadHead(data, offset, group, previousId);
      if head.None? {
        HeadFails(data, entry, gs, offset, previousId, entry.games - group);
        return Err(SchemaMismatch);
      }
      HeadAdvances(data, offset, previousId);
      var currentId: nat, ply: nat := head.value.id, head.value.first;
      ghost var parsed := offset;
      ghost var plies: seq<nat> := [ply];
      offset := head.value.next;
      // a sorted copy of the requested ids is searched in the original
      if currentId in requested {
        occurrences := occurrences + [Occurrence(currentId, ply)];
      }
      NoSpan(Occurrences(gs), currentId);
      SpanGrows(minPly, maxPly, Occurrences(gs), currentId, [], ply);
      assert [] + [ply] == plies && plies[1..] == [];
      minPly, maxPly := Min(minPly, ply), Max(maxPly, ply);
      var index := 1;
      PrependNoPlies(ParsePlies(data, offset, ply, head.value.plyCount - 1));
      while index < head.value.plyCount
        invariant 1 <= index == |plies| <= head.value.plyCount && plies[0] == head.value.first
        invariant ParsePlies(data, head.value.next, head.value.first, head.value.plyCount - 1)
               == PrependPlies(plies[1..], ParsePlies(data, offset, ply, head.value.plyCount - index))
        invariant total + index <= offset <= |data|
        invariant Spans(minPly, maxPly, Occurrences(gs) + GroupOccurrences(GameGroup(currentId, plies)))
      {
        var delta := Uleb128.Read(data, offset);
        if delta.None? || delta.value.0 == 0 || WrappedSum(ply, delta.value.0) > U16_MAX {
          PlyFails(data, entry, gs, parsed, previousId, entry.games - group, plies[1..], offset, ply,
                   head.value.plyCount - index);
          return Err(SchemaMismatch);
        }
        StepPly(data, plies[1..], offset, ply, head.value.plyCount - index);
        offset := delta.value.1;
        ply := WrappedSum(ply, delta.value.0);
        SpanGrows(minPly, maxPly, Occurrences(gs), currentId, plies, ply);
        minPly, maxPly := Min(minPly, ply), Max(maxPly, ply);
        assert (plies + [ply])[1..] == plies[1..] + [ply];
        plies := plies + [ply];
        index := index + 1;
      }
      PrependNoMore(plies, data, offset, ply);
      FirstsGrow(gs, GameGroup(currentId, plies), requested);
      StepParsed(data, gs, GameGroup(currentId, plies), offset, entry.games - group, parsed, previousId);
      if total > U64_MAX - head.value.plyCount {
        return Err(SchemaMismatch);
      }
      total := total + head.value.plyCount;
      gs := gs + [GameGroup(currentId, plies)];
      previousId := currentId;
    }
    NoMoreGroups(gs, data, offset, previousId);
    SpanIs(minPly, maxPly, Occurrences(gs));
    if offset != |data| || total != entry.occurrences || minPly != entry.minPly || maxPly != entry.maxPly {
      return Err(SchemaMismatch);
    }
    return Ok(occurrences);
  }
}
