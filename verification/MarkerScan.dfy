/** The estimate of a file's games: a chunked scan that carries seven characters from one chunk to the next. */
module MarkerScan {
  import opened Words

  const MARKER: string := "[Event \""
  const OVERLAP: nat := 7

  predicate StartsAt(text: string, data: string, i: nat) {
    i + |text| <= |data| && data[i..i + |text|] == text
  }

  predicate MarkerAt(data: string, i: nat) {
    i + |MARKER| <= |data| && data[i..i + |MARKER|] == MARKER
  }

  /** How many markers start in the range. */
  function Markers(data: string, from: nat, to: nat): nat {
    if to <= from then 0 else Markers(data, from, to - 1) + if MarkerAt(data, to - 1) then 1 else 0
  }

  lemma {:induction false} MarkersAre(data: string, from: nat, to: nat)
    ensures Markers(data, from, to) == |set i: nat | from <= i < to && MarkerAt(data, i)|
  {
    hide MarkerAt;
    if from < to {
      MarkersAre(data, from, to - 1);
      var before, all := set i: nat | from <= i < to - 1 && MarkerAt(data, i), set i: nat | from <= i < to && MarkerAt(data, i);
      if MarkerAt(data, to - 1) {
        assert all == before + {to - 1};
      } else {
        assert all == before;
      }
    } else {
      assert (set i: nat | from <= i < to && MarkerAt(data, i)) == {};
    }
  }

  lemma MarkersInFile(file: string, start: nat)
    ensures Markers(file, start, |file|) == |set i: nat | start <= i < |file| && StartsAt("[Event \"", file, i)|
  {
    MarkersAre(file, start, |file|);
    assert (set i: nat | start <= i < |file| && MarkerAt(file, i)) == set i: nat | start <= i < |file| && StartsAt("[Event \"", file, i);
  }

  lemma {:induction false} MarkersSplit(data: string, from: nat, mid: nat, to: nat)
    requires from <= mid <= to
    ensures Markers(data, from, to) == Markers(data, from, mid) + Markers(data, mid, to)
  {
    if mid < to {
      MarkersSplit(data, from, mid, to - 1);
    }
  }

  lemma {:induction false} NoMarkers(data: string, from: nat, to: nat)
    requires forall i :: from <= i < to ==> !MarkerAt(data, i)
    ensures Markers(data, from, to) == 0
  {
    if from < to {
      NoMarkers(data, from, to - 1);
    }
  }

  /** The marker has no border: two of them never overlap. */
  lemma MarkersDoNotOverlap(data: string, i: nat, j: nat)
    requires MarkerAt(data, i) && i < j < i + |MARKER|
    ensures !MarkerAt(data, j)
  {
    assert data[j] == data[i..i + |MARKER|][j - i] == MARKER[j - i] != '[';
    assert j + |MARKER| <= |data| ==> data[j..j + |MARKER|][0] == data[j];
  }

  /** std::search: the first marker from a position on, or the end. */
  method Search(data: string, from: nat) returns (at: nat)
    requires from <= |data|
    ensures from <= at <= |data| && forall i :: from <= i < at ==> !MarkerAt(data, i)
    ensures at < |data| ==> MarkerAt(data, at)
  {
    at := from;
    while at < |data| && !MarkerAt(data, at)
      invariant from <= at <= |data| && forall i :: from <= i < at ==> !MarkerAt(data, i)
    {
      at := at + 1;
    }
  }

  /** The inner loop: it skips whole markers and still counts every one. */
  method CountIn(data: string) returns (count: nat)
    ensures count == Markers(data, 0, |data|)
  {
    hide MarkerAt;
    count := 0;
    var pos := 0;
    while pos < |data|
      invariant pos <= |data| && count == Markers(data, 0, pos)
    {
      var at := Search(data, pos);
      NoMarkers(data, pos, at);
      MarkersSplit(data, 0, pos, at);
      if at == |data| {
        return;
      }
      var next := at + |MARKER|;
      assert next <= |data| by { MarkerFits(data, at); }
      forall j | at + 1 <= j < next
        ensures !MarkerAt(data, j)
      {
        MarkersDoNotOverlap(data, at, j);
      }
      NoMarkers(data, at + 1, next);
      MarkersSplit(data, 0, at + 1, next);
      count := count + 1;
      pos := next;
    }
  }

  lemma MarkerFits(data: string, i: nat)
    requires MarkerAt(data, i)
    ensures i + |MARKER| <= |data|
  {
  }

  /** Where a marker that ends by the position may start at the latest, plus one. */
  function StartLimit(start: nat, at: nat): nat {
    if at < start + OVERLAP then start else at - OVERLAP
  }

  lemma {:induction false} ShiftedMarkers(file: string, piece: string, base: nat, limit: nat, n: nat)
    requires base <= limit && forall i: nat :: i < n ==> (MarkerAt(piece, i) <==> base + i < limit && MarkerAt(file, base + i))
    ensures Markers(piece, 0, n) == Markers(file, base, Min(base + n, limit))
  {
    hide MarkerAt;
    if n > 0 {
      ShiftedMarkers(file, piece, base, limit, n - 1);
      assert MarkerAt(piece, n - 1) <==> base + (n - 1) < limit && MarkerAt(file, base + (n - 1));
    }
  }

  /** Markers that lie in a piece of the file are the piece's markers. */
  lemma PieceMarkers(file: string, base: nat, end: nat, n: nat)
    requires base <= end <= |file| && n <= end - base
    ensures Markers(file[base..end], 0, n) == Markers(file, base, Min(base + n, StartLimit(base, end)))
  {
    hide MarkerAt, StartLimit, Markers;
    LimitIsBehind(base, end);
    forall i: nat | i < n
      ensures MarkerAt(file[base..end], i) <==> base + i < StartLimit(base, end) && MarkerAt(file, base + i)
    {
      MarkerInPiece(file, base, end, i);
    }
    ShiftedMarkers(file, file[base..end], base, StartLimit(base, end), n);
  }

  lemma LimitIsBehind(start: nat, at: nat)
    ensures StartLimit(start, at) >= start
  {
  }

  lemma MarkerInPiece(file: string, base: nat, end: nat, i: nat)
    requires base <= end <= |file| && i < end - base
    ensures MarkerAt(file[base..end], i) <==> base + i < StartLimit(base, end) && MarkerAt(file, base + i)
  {
    if i + |MARKER| <= end - base {
      SliceOfSlice(file, base, end, i, i + |MARKER|);
    }
  }

  lemma SliceOfSlice(file: string, base: nat, end: nat, i: nat, j: nat)
    requires base <= end <= |file| && i <= j <= end - base
    ensures file[base..end][i..j] == file[base + i..base + j]
  {
    var a, b := file[base..end][i..j], file[base + i..base + j];
    assert |a| == |b|;
    forall k | 0 <= k < |a|
      ensures a[k] == b[k]
    {
      assert a[k] == file[base..end][i + k];
    }
  }

  /** count_games: every marker from the start offset on, once, for every size of the read buffer. */
  method CountGames(file: string, startOffset: nat, bufSize: nat) returns (r: Result<nat>)
    requires bufSize > 0
    ensures startOffset > |file| ==> r == Err(IoFailure)
    ensures startOffset <= |file| ==> r == Ok(|set i: nat | startOffset <= i < |file| && StartsAt("[Event \"", file, i)|)
  {
    hide MarkerAt, Markers, StartLimit;
    if startOffset > |file| {
      return Err(IoFailure);
    }
    if startOffset == |file| {
      NoMarkers(file, startOffset, |file|);
      MarkersInFile(file, startOffset);
      return Ok(0);
    }
    var buf := new char[bufSize + OVERLAP](_ => '\0');
    var count, carry, position := 0, 0, startOffset;
    NothingRead(file, startOffset);
    while true
      invariant startOffset <= position <= |file|
      invariant carry == Carried(startOffset, position)
      invariant buf[..carry] == file[position - carry..position]
      invariant count == Markers(file, startOffset, StartLimit(startOffset, position))
      decreases |file| - position, carry
    {
      var readLength := ReadChunk(file, position, buf, carry, bufSize);
      if readLength == 0 && carry == 0 {
        break;
      }
      var total := carry + readLength;
      var found := CountIn(buf[..total]);
      PieceCounts(file, startOffset, position, carry, readLength);
      count := count + found;
      position := position + readLength;
      if readLength == 0 {
        break;
      }
      var keep := Min(total, OVERLAP);
      PieceEnds(file, position - total, position, keep);
      MoveToFront(buf, total, keep);
      carry := keep;
    }
    LateStarts(file, startOffset);
    MarkersInFile(file, startOffset);
    return Ok(count);
  }

  function Carried(start: nat, position: nat): nat
    requires start <= position
  {
    Min(position - start, OVERLAP)
  }

  lemma PieceEnds(file: string, base: nat, end: nat, keep: nat)
    requires base <= end <= |file| && keep <= end - base
    ensures file[base..end][end - base - keep..] == file[end - keep..end]
  {
  }

  /** A piece that starts with the carry holds exactly the markers that end in it and not before. */
  lemma PieceCounts(file: string, start: nat, position: nat, carry: nat, n: nat)
    requires start <= position && position + n <= |file| && carry == Carried(start, position)
    ensures
      Markers(file, start, StartLimit(start, position + n))
      == Markers(file, start, StartLimit(start, position)) + Markers(file[position - carry..position + n], 0, carry + n)
  {
    hide Markers;
    var base, end := position - carry, position + n;
    PieceMarkers(file, base, end, carry + n);
    MarkersSplit(file, start, base, StartLimit(base, end));
    assert StartLimit(base, end) == StartLimit(start, end) && StartLimit(start, position) == base;
  }

  lemma NothingRead(file: string, start: nat)
    ensures Markers(file, start, StartLimit(start, start)) == 0
  {
  }

  lemma LateStarts(file: string, start: nat)
    requires start <= |file|
    ensures Markers(file, start, |file|) == Markers(file, start, StartLimit(start, |file|))
  {
    NoMarkers(file, StartLimit(start, |file|), |file|);
    MarkersSplit(file, start, StartLimit(start, |file|), |file|);
  }

  /** istream::read into the buffer behind the carry: a short read only at the end of the file. */
  method ReadChunk(file: string, position: nat, buf: array<char>, carry: nat, bufSize: nat) returns (readLength: nat)
    requires carry <= position <= |file| && carry <= OVERLAP && buf.Length == bufSize + OVERLAP
    requires buf[..carry] == file[position - carry..position]
    modifies buf
    ensures readLength == Min(bufSize, |file| - position)
    ensures buf[..carry + readLength] == file[position - carry..position + readLength]
  {
    readLength := Min(bufSize, |file| - position);
    for i := 0 to readLength
      invariant buf[..carry + i] == file[position - carry..position + i]
    {
      buf[carry + i] := file[position + i];
    }
  }

  /** memmove of the last characters to the front. */
  method MoveToFront(buf: array<char>, total: nat, keep: nat)
    requires keep <= total <= buf.Length
    modifies buf
    ensures buf[..keep] == old(buf[..total])[total - keep..]
  {
    for i := 0 to keep
      invariant buf[..i] == old(buf[..total])[total - keep..total - keep + i]
      invariant forall k :: i <= k < buf.Length ==> buf[k] == old(buf[k])
    {
      buf[i] := buf[total - keep + i];
    }
  }
}
