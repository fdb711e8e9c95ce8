/**
 The receiving side on values: trimming an incoming segment to the receive buffer, and the
 meaning of the ring and of the list of segments that arrived ahead of their turn.

 `origin` is the stream position of the first unread byte, so ring cell `p - origin` is the
 place of stream byte `p`.
 */
module Reassembly {
  import opened Wrap32
  import opened Fifo

  datatype RSegment = RSegment(seqno: u32, len: nat)

  // Trimming.

  /** The part of the incoming segment that lies behind `rcvNxt`, cut as the source cuts it. */
  function TrimFront(seqno: u32, data: seq<byte>, rcvNxt: u32): (u32, seq<byte>) {
    if Smaller(seqno, rcvNxt) then
      var nAdjust := Sub32(rcvNxt, seqno);
      if nAdjust < |data| then (Add32(seqno, nAdjust), data[nAdjust..]) else (seqno, [])
    else (seqno, data)
  }

  /** The part that fits the free space. */
  function TrimBack(seqno: u32, data: seq<byte>, rcvNxt: u32, space: nat): seq<byte> {
    var reach := Sub32(seqno + |data|, rcvNxt);
    if reach > space then
      var nAdjust := reach - space;
      if nAdjust < |data| then data[..|data| - nAdjust] else []
    else data
  }

  function Max(a: int, b: int): int {
    if a < b then b else a
  }

  lemma TrimFrontExact(irs: u32, pos: int, data: seq<byte>, rcv: int)
    requires Near(pos, rcv)
    ensures TrimFront(At(irs, pos), data, At(irs, rcv)) ==
              if pos >= rcv then (At(irs, pos), data)
              else if rcv < pos + |data| then (At(irs, rcv), data[rcv - pos..])
              else (At(irs, pos), [])
  {
    ComparisonsOrderPositions(irs, pos, rcv);
    if pos < rcv {
      AtDistance(irs, rcv, pos);
      AtPlus(irs, pos, rcv - pos);
    }
  }

  lemma TrimBackExact(irs: u32, start: int, data: seq<byte>, rcv: int, space: nat)
    requires rcv <= start && start + |data| - rcv < WORD
    ensures TrimBack(At(irs, start), data, At(irs, rcv), space) ==
              if start + |data| <= rcv + space then data
              else if start < rcv + space then data[..rcv + space - start]
              else []
  {
    SubAdd(At(irs, start), |data|, At(irs, rcv));
    AtPlus(irs, start, |data|);
    AtDistance(irs, start + |data|, rcv);
  }

  /** Together they keep exactly the bytes whose positions lie in [rcv, rcv + space). */
  lemma TrimExact(irs: u32, pos: int, data: seq<byte>, rcv: int, space: nat)
    requires Near(pos, rcv) && |data| < HALF
    ensures var (seqno, front) := TrimFront(At(irs, pos), data, At(irs, rcv));
            var kept := TrimBack(seqno, front, At(irs, rcv), space);
            var lo := Max(pos, rcv);
            var hi := Min(pos + |data|, rcv + space);
            if lo < hi then seqno == At(irs, lo) && kept == data[lo - pos..hi - pos] else kept == []
  {
    TrimFrontExact(irs, pos, data, rcv);
    if pos >= rcv {
      TrimBackExact(irs, pos, data, rcv, space);
    } else if rcv < pos + |data| {
      TrimBackExact(irs, rcv, data[rcv - pos..], rcv, space);
    }
  }

  function Trim(seqno: u32, data: seq<byte>, rcvNxt: u32, space: nat): (u32, seq<byte>) {
    var (start, front) := TrimFront(seqno, data, rcvNxt);
    (start, TrimBack(start, front, rcvNxt, space))
  }

  lemma SliceOfSlice(s: seq<byte>, a: nat, b: nat, i: nat, j: nat)
    requires a <= b <= |s| && i <= j <= b - a
    ensures s[a..b][i..j] == s[a + i..a + j]
  {
    var part := s[a..b];
    forall k | 0 <= k < j - i ensures part[i..j][k] == s[a + i..a + j][k] {
      assert part[i..j][k] == part[i + k];
    }
  }

  /** Trimming a slice of the stream leaves a slice of the stream. */
  lemma TrimSlice(irs: u32, pos: int, data: seq<byte>, rcv: nat, space: nat, stream: seq<byte>)
    requires Near(pos, rcv) && |data| < HALF
    requires data != [] ==> 0 <= pos && pos + |data| <= |stream| && data == stream[pos..pos + |data|]
    ensures var (start, kept) := Trim(At(irs, pos), data, At(irs, rcv), space);
            var lo := Max(pos, rcv);
            if lo < Min(pos + |data|, rcv + space) then
              start == At(irs, lo) && lo + |kept| == Min(pos + |data|, rcv + space) && kept == stream[lo..lo + |kept|]
            else kept == []
  {
    TrimExact(irs, pos, data, rcv, space);
    hide TrimFront, TrimBack;
    var lo, hi := Max(pos, rcv), Min(pos + |data|, rcv + space);
    if lo < hi {
      SliceOfSlice(stream, pos, pos + |data|, lo - pos, hi - pos);
    }
  }

  /** With the expected number one too far, the next segment loses its first byte and the rest moves up. */
  lemma TrimSkips(irs: u32, pos: nat, data: seq<byte>, space: nat)
    requires 1 < |data| < WINDOW && |data| - 1 <= space
    ensures Trim(At(irs, pos), data, At(irs, pos + 1), space) == (At(irs, pos + 1), data[1..])
  {
    hide TrimFront, TrimBack;
    TrimFrontExact(irs, pos, data, pos + 1);
    TrimBackExact(irs, pos + 1, data[1..], pos + 1, space);
  }

  lemma SubAdd(a: int, n: int, b: int)
    ensures Sub32(a + n, b) == Sub32(Add32(a, n), b)
  {
    var k := (a + n) / WORD;
    var d := Add32(a, n) - b;
    assert a + n == k * WORD + Add32(a, n);
    ModUnique(a + n - b, k + d / WORD, d % WORD);
  }

  // The ring against the peer's stream.

  /** The ring holds the stream bytes [lo, hi) at their places. */
  ghost predicate Holds(ring: seq<byte>, origin: nat, stream: seq<byte>, lo: nat, hi: nat) {
    && origin <= lo <= hi <= |stream|
    && hi - origin <= |ring|
    && forall p {:trigger stream[p]} :: lo <= p < hi ==> ring[p - origin] == stream[p]
  }

  lemma HoldsAfterWrite(ring: seq<byte>, origin: nat, stream: seq<byte>, pos: nat, n: nat, lo: nat, hi: nat)
    requires origin <= pos && pos + n <= |stream| && pos + n - origin <= |ring|
    requires Holds(ring, origin, stream, lo, hi)
    ensures Holds(Overlay(ring, pos - origin, stream[pos..pos + n]), origin, stream, lo, hi)
    ensures Holds(Overlay(ring, pos - origin, stream[pos..pos + n]), origin, stream, pos, pos + n)
  {
  }

  lemma HoldsAfterRead(ring: seq<byte>, origin: nat, stream: seq<byte>, n: nat, lo: nat, hi: nat)
    requires Holds(ring, origin, stream, lo, hi) && origin + n <= lo && n <= |ring|
    ensures Holds(Rotate(ring, n), origin + n, stream, lo, hi)
  {
    forall p {:trigger stream[p]} | lo <= p < hi ensures Rotate(ring, n)[p - origin - n] == stream[p] {
    }
  }

  /** Contents of the ring, read as a slice of the stream. */
  lemma HoldsPrefix(ring: seq<byte>, origin: nat, stream: seq<byte>, n: nat)
    requires Holds(ring, origin, stream, origin, origin + n)
    ensures ring[..n] == stream[origin..origin + n]
  {
    forall k | 0 <= k < n ensures ring[k] == stream[origin + k] {
      assert ring[(origin + k) - origin] == stream[origin + k];
    }
  }

  /** The saved segments: sorted, each starting beyond `rcv`, each already in place in the ring. */
  ghost predicate Saved(rlist: seq<RSegment>, rpos: seq<nat>, irs: u32, ring: seq<byte>, origin: nat,
                        stream: seq<byte>, rcv: nat)
  {
    && |rpos| == |rlist|
    && (forall i {:trigger rpos[i]} :: 0 <= i < |rpos| ==>
          && rlist[i].seqno == At(irs, rpos[i]) && rlist[i].len >= 1 && rcv < rpos[i]
          && Holds(ring, origin, stream, rpos[i], rpos[i] + rlist[i].len))
    && forall i, j :: 0 <= i < j < |rpos| ==> rpos[i] <= rpos[j]
  }

  lemma SavedAfterWrite(rlist: seq<RSegment>, rpos: seq<nat>, irs: u32, ring: seq<byte>, origin: nat,
                        stream: seq<byte>, rcv: nat, pos: nat, n: nat)
    requires Saved(rlist, rpos, irs, ring, origin, stream, rcv)
    requires origin <= pos && pos + n <= |stream| && pos + n - origin <= |ring|
    ensures Saved(rlist, rpos, irs, Overlay(ring, pos - origin, stream[pos..pos + n]), origin, stream, rcv)
  {
    forall i {:trigger rpos[i]} | 0 <= i < |rpos|
      ensures Holds(Overlay(ring, pos - origin, stream[pos..pos + n]), origin, stream, rpos[i], rpos[i] + rlist[i].len)
    {
      HoldsAfterWrite(ring, origin, stream, pos, n, rpos[i], rpos[i] + rlist[i].len);
    }
  }

  lemma SavedAfterRead(rlist: seq<RSegment>, rpos: seq<nat>, irs: u32, ring: seq<byte>, origin: nat,
                       stream: seq<byte>, rcv: nat, n: nat)
    requires Saved(rlist, rpos, irs, ring, origin, stream, rcv)
    requires origin + n <= rcv && n <= |ring|
    ensures Saved(rlist, rpos, irs, Rotate(ring, n), origin + n, stream, rcv)
  {
    forall i {:trigger rpos[i]} | 0 <= i < |rpos|
      ensures Holds(Rotate(ring, n), origin + n, stream, rpos[i], rpos[i] + rlist[i].len)
    {
      HoldsAfterRead(ring, origin, stream, n, rpos[i], rpos[i] + rlist[i].len);
    }
  }

  /** Nothing changes when the peer's stream grows. */
  lemma SavedAfterGrowth(rlist: seq<RSegment>, rpos: seq<nat>, irs: u32, ring: seq<byte>, origin: nat,
                         stream: seq<byte>, longer: seq<byte>, rcv: nat)
    requires Saved(rlist, rpos, irs, ring, origin, stream, rcv) && stream <= longer
    ensures Saved(rlist, rpos, irs, ring, origin, longer, rcv)
  {
    forall i {:trigger rpos[i]} | 0 <= i < |rpos|
      ensures Holds(ring, origin, longer, rpos[i], rpos[i] + rlist[i].len)
    {
      HoldsAfterGrowth(ring, origin, stream, longer, rpos[i], rpos[i] + rlist[i].len);
    }
  }

  lemma HoldsAfterGrowth(ring: seq<byte>, origin: nat, stream: seq<byte>, longer: seq<byte>, lo: nat, hi: nat)
    requires Holds(ring, origin, stream, lo, hi) && stream <= longer
    ensures Holds(ring, origin, longer, lo, hi)
  {
    forall p {:trigger longer[p]} | lo <= p < hi ensures ring[p - origin] == longer[p] {
      assert stream[p] == longer[p];
    }
  }

  /** Inserting a saved segment before the first one that does not start earlier keeps the list sorted. */
  lemma SavedAfterInsert(rlist: seq<RSegment>, rpos: seq<nat>, irs: u32, ring: seq<byte>, origin: nat,
                         stream: seq<byte>, rcv: nat, k: nat, s: RSegment, pos: nat)
    requires Saved(rlist, rpos, irs, ring, origin, stream, rcv)
    requires k <= |rlist|
    requires forall i :: 0 <= i < k ==> rpos[i] < pos
    requires k < |rpos| ==> pos <= rpos[k]
    requires s.seqno == At(irs, pos) && s.len >= 1 && rcv < pos
    requires Holds(ring, origin, stream, pos, pos + s.len)
    ensures Saved(rlist[..k] + [s] + rlist[k..], rpos[..k] + [pos] + rpos[k..], irs, ring, origin, stream, rcv)
  {
    var rlist', rpos' := rlist[..k] + [s] + rlist[k..], rpos[..k] + [pos] + rpos[k..];
    forall i {:trigger rpos'[i]} | 0 <= i < |rpos'|
      ensures rpos'[i] == (if i < k then rpos[i] else if i == k then pos else rpos[i - 1])
      ensures rlist'[i] == (if i < k then rlist[i] else if i == k then s else rlist[i - 1])
    {
    }
  }

  lemma HoldsJoin(ring: seq<byte>, origin: nat, stream: seq<byte>, lo: nat, mid: nat, from: nat, hi: nat)
    requires Holds(ring, origin, stream, lo, mid) && Holds(ring, origin, stream, from, hi)
    requires from <= mid <= hi
    ensures Holds(ring, origin, stream, lo, hi)
  {
  }

  /** Saved segments of which the first, hence every one, starts beyond `rcv`. */
  lemma SavedBeyond(rlist: seq<RSegment>, rpos: seq<nat>, irs: u32, ring: seq<byte>, origin: nat,
                    stream: seq<byte>, from: nat, rcv: nat)
    requires Saved(rlist, rpos, irs, ring, origin, stream, from)
    requires rpos != [] ==> rcv < rpos[0]
    ensures Saved(rlist, rpos, irs, ring, origin, stream, rcv)
  {
  }

  lemma SavedPop(rlist: seq<RSegment>, rpos: seq<nat>, irs: u32, ring: seq<byte>, origin: nat,
                 stream: seq<byte>, from: nat)
    requires Saved(rlist, rpos, irs, ring, origin, stream, from) && rlist != []
    ensures Saved(rlist[1..], rpos[1..], irs, ring, origin, stream, from)
  {
    forall i {:trigger rpos[1..][i]} | 0 <= i < |rpos[1..]|
      ensures rpos[1..][i] == rpos[i + 1] && rlist[1..][i] == rlist[i + 1]
    {
    }
  }

  /** No saved segment reaches past `edge`. */
  ghost predicate SavedWithin(rlist: seq<RSegment>, rpos: seq<nat>, edge: nat) {
    && |rpos| == |rlist|
    && forall i {:trigger rpos[i]} :: 0 <= i < |rpos| ==> rpos[i] + rlist[i].len <= edge
  }

  lemma SavedWithinInsert(rlist: seq<RSegment>, rpos: seq<nat>, edge: nat, k: nat, s: RSegment, pos: nat)
    requires SavedWithin(rlist, rpos, edge) && k <= |rlist| && pos + s.len <= edge
    ensures SavedWithin(rlist[..k] + [s] + rlist[k..], rpos[..k] + [pos] + rpos[k..], edge)
  {
    var rlist', rpos' := rlist[..k] + [s] + rlist[k..], rpos[..k] + [pos] + rpos[k..];
    forall i {:trigger rpos'[i]} | 0 <= i < |rpos'|
      ensures rpos'[i] == (if i < k then rpos[i] else if i == k then pos else rpos[i - 1])
      ensures rlist'[i] == (if i < k then rlist[i] else if i == k then s else rlist[i - 1])
    {
    }
  }

  /** The place for a saved segment: before the first one that does not start earlier. */
  method Insert(rlist: seq<RSegment>, s: RSegment, ghost rpos: seq<nat>, ghost pos: nat, ghost irs: u32,
                ghost ring: seq<byte>, ghost origin: nat, ghost stream: seq<byte>, ghost rcv: nat, ghost edge: nat)
    returns (rlist': seq<RSegment>, ghost rpos': seq<nat>)
    requires Saved(rlist, rpos, irs, ring, origin, stream, rcv) && |ring| < WINDOW && origin <= rcv
    requires s.seqno == At(irs, pos) && s.len >= 1 && rcv < pos && Holds(ring, origin, stream, pos, pos + s.len)
    ensures Saved(rlist', rpos', irs, ring, origin, stream, rcv)
    ensures multiset(rlist') == multiset(rlist) + multiset{s}
    ensures SavedWithin(rlist, rpos, edge) && pos + s.len <= edge ==> SavedWithin(rlist', rpos', edge)
  {
    var k := 0;
    while k < |rlist| && Smaller(rlist[k].seqno, s.seqno)
      invariant 0 <= k <= |rlist|
      invariant forall i :: 0 <= i < k ==> rpos[i] < pos
    {
      NearSaved(rlist, rpos, irs, ring, origin, stream, rcv, k, pos);
      k := k + 1;
    }
    if k < |rlist| {
      NearSaved(rlist, rpos, irs, ring, origin, stream, rcv, k, pos);
    }
    SavedAfterInsert(rlist, rpos, irs, ring, origin, stream, rcv, k, s, pos);
    if SavedWithin(rlist, rpos, edge) && pos + s.len <= edge {
      SavedWithinInsert(rlist, rpos, edge, k, s, pos);
    }
    assert rlist == rlist[..k] + rlist[k..];
    rlist' := rlist[..k] + [s] + rlist[k..];
    rpos' := rpos[..k] + [pos] + rpos[k..];
  }

  lemma NearSaved(rlist: seq<RSegment>, rpos: seq<nat>, irs: u32, ring: seq<byte>, origin: nat,
                  stream: seq<byte>, rcv: nat, k: nat, pos: nat)
    requires Saved(rlist, rpos, irs, ring, origin, stream, rcv) && |ring| < WINDOW && origin <= rcv < pos
    requires k < |rlist| && pos - origin <= |ring|
    ensures Smaller(rlist[k].seqno, At(irs, pos)) <==> rpos[k] < pos
  {
    var p := rpos[k];
    assert rlist[k].seqno == At(irs, p) && Holds(ring, origin, stream, p, p + rlist[k].len);
    ComparisonsOrderPositions(irs, p, pos);
  }

  /**
   What was delivered is a prefix of the stream, the ring holds what follows it, and saved segments
   start beyond `from`.
   */
  ghost predicate InPlace(ring: seq<byte>, delivered: seq<byte>, dataLength: nat, stream: seq<byte>,
                          rlist: seq<RSegment>, rpos: seq<nat>, irs: u32, from: nat)
  {
    && delivered <= stream
    && Holds(ring, |delivered|, stream, |delivered|, |delivered| + dataLength)
    && Saved(rlist, rpos, irs, ring, |delivered|, stream, from)
  }

  /** Reading some bytes: they continue what was delivered, and all else stays in place. */
  lemma ReadStep(ring: seq<byte>, delivered: seq<byte>, dataLength: nat, stream: seq<byte>, rlist: seq<RSegment>,
                 rpos: seq<nat>, irs: u32, bytes: seq<byte>)
    requires InPlace(ring, delivered, dataLength, stream, rlist, rpos, irs, |delivered| + dataLength)
    requires |bytes| <= dataLength <= |ring| && bytes == ring[..dataLength][..|bytes|]
    ensures InPlace(Rotate(ring, |bytes|), delivered + bytes, dataLength - |bytes|, stream, rlist, rpos, irs,
                    |delivered| + dataLength)
  {
    var origin, n := |delivered|, |bytes|;
    HoldsPrefix(ring, origin, stream, dataLength);
    assert ring[..dataLength][..n] == stream[origin..origin + n];
    assert delivered + stream[origin..origin + n] == stream[..origin + n];
    HoldsAfterRead(ring, origin, stream, n, origin + n, origin + dataLength);
    SavedAfterRead(rlist, rpos, irs, ring, origin, stream, origin + dataLength, n);
  }
}
