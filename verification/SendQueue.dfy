/**
 The segment list of the pseudo-TCP sender.

 `slist` holds every queued segment that is not yet acknowledged, oldest first; `unsent` holds
 the identities of those never transmitted. The segments tile the stream between the oldest
 unacknowledged byte and the end of the queued data.
 */
module SendQueue {
  import opened Wrap32

  type SegmentId = nat

  datatype SSegment = SSegment(id: SegmentId, seqno: u32, len: nat, xmit: nat, flags: byte)

  /**
   The segments follow each other in the stream: segment `i` covers [marks[i], marks[i + 1]),
   and carries the sequence number of its first byte.
   */
  ghost predicate Tiles(slist: seq<SSegment>, marks: seq<nat>, iss: u32) {
    && |marks| == |slist| + 1
    && forall i {:trigger slist[i]} :: 0 <= i < |slist| ==>
         marks[i + 1] == marks[i] + slist[i].len && slist[i].seqno == At(iss, marks[i])
  }

  lemma {:induction false} MarksIncrease(slist: seq<SSegment>, marks: seq<nat>, iss: u32, i: nat, j: nat)
    requires Tiles(slist, marks, iss) && i <= j <= |slist|
    ensures marks[i] <= marks[j]
    decreases j
  {
    if i < j {
      MarksIncrease(slist, marks, iss, i, j - 1);
      assert slist[j - 1].len >= 0;
    }
  }

  /** Position of a segment in a list, as found by `g_queue_find`. */
  function Find(segs: seq<SSegment>, id: SegmentId): (i: nat)
    ensures i <= |segs|
    ensures i < |segs| ==> segs[i].id == id
    ensures forall j :: 0 <= j < i ==> segs[j].id != id
  {
    if segs == [] || segs[0].id == id then 0 else 1 + Find(segs[1..], id)
  }

  /** Number of segments of `slist` that have been transmitted. */
  function SentCount(slist: seq<SSegment>, unsent: seq<SegmentId>): int {
    |slist| - |unsent|
  }

  /** `unsent` names, in order, exactly the segments never transmitted; they are the tail of `slist`. */
  ghost predicate UnsentIsTail(slist: seq<SSegment>, unsent: seq<SegmentId>) {
    var k := SentCount(slist, unsent);
    && 0 <= k
    && (forall i {:trigger slist[i]} :: 0 <= i < |slist| ==> (slist[i].xmit == 0 <==> k <= i))
    && (forall i {:trigger slist[i]} :: k <= i < |slist| ==> unsent[i - k] == slist[i].id)
  }

  /** Only a lone waiting segment may be empty. */
  ghost predicate NonEmpty(slist: seq<SSegment>, unsent: seq<SegmentId>) {
    forall i {:trigger slist[i]} :: 0 <= i < |slist| && (|unsent| != 1 || i < |slist| - 1) ==> slist[i].len >= 1
  }

  ghost predicate Distinct(slist: seq<SSegment>, nextId: nat) {
    && (forall i, j :: 0 <= i < j < |slist| ==> slist[i].id != slist[j].id)
    && forall i :: 0 <= i < |slist| ==> slist[i].id < nextId
  }

  /** All segments carry plain data. */
  ghost predicate Plain(slist: seq<SSegment>) {
    forall i :: 0 <= i < |slist| ==> slist[i].flags == 0
  }

  /**
   The queue invariant: `slist` tiles [una, end) without gap or overlap, the transmitted
   segments are a prefix that ends at `nxt`, and `unsent` names exactly the rest.
   */
  ghost predicate Queued(slist: seq<SSegment>, unsent: seq<SegmentId>, marks: seq<nat>, nextId: nat, iss: u32,
                         una: nat, nxt: nat, end: nat)
  {
    && Tiles(slist, marks, iss)
    && UnsentIsTail(slist, unsent)
    && NonEmpty(slist, unsent)
    && Distinct(slist, nextId)
    && Plain(slist)
    && marks[0] == una && marks[SentCount(slist, unsent)] == nxt && marks[|slist|] == end
  }

  lemma {:induction false} MarksLength(slist: seq<SSegment>, unsent: seq<SegmentId>, marks: seq<nat>, nextId: nat,
                                       iss: u32, una: nat, nxt: nat, end: nat)
    requires Queued(slist, unsent, marks, nextId, iss, una, nxt, end)
    ensures |marks| == |slist| + 1
  {
  }

  /** Bytes in flight exist exactly when a transmitted segment is at the head. */
  lemma {:induction false} HeadInFlight(slist: seq<SSegment>, unsent: seq<SegmentId>, marks: seq<nat>, nextId: nat,
                                        iss: u32, una: nat, nxt: nat, end: nat)
    requires Queued(slist, unsent, marks, nextId, iss, una, nxt, end)
    ensures una <= nxt <= end
    ensures una < nxt <==> SentCount(slist, unsent) > 0
    ensures una < nxt <==> slist != [] && slist[0].xmit != 0
    ensures una < nxt ==>
              && slist[0].seqno == At(iss, una) && 1 <= slist[0].len <= nxt - una
              && slist[0].xmit >= 1 && slist[0].flags == 0
  {
    var k := SentCount(slist, unsent);
    MarksIncrease(slist, marks, iss, 0, k);
    MarksIncrease(slist, marks, iss, k, |slist|);
    assert slist != [] ==> (slist[0].xmit == 0 <==> k <= 0);
    if k > 0 {
      assert slist[0].len >= 1;
      MarksIncrease(slist, marks, iss, 1, k);
    }
  }

  /** Bytes waiting exist exactly when the first waiting segment is not empty. */
  lemma {:induction false} HeadWaiting(slist: seq<SSegment>, unsent: seq<SegmentId>, marks: seq<nat>, nextId: nat,
                                       iss: u32, una: nat, nxt: nat, end: nat)
    requires Queued(slist, unsent, marks, nextId, iss, una, nxt, end)
    ensures nxt < end <==> unsent != [] && slist[SentCount(slist, unsent)].len >= 1
    ensures unsent != [] ==>
              && slist[SentCount(slist, unsent)].seqno == At(iss, nxt)
              && slist[SentCount(slist, unsent)].len <= end - nxt
              && slist[SentCount(slist, unsent)].flags == 0 && slist[SentCount(slist, unsent)].xmit == 0
              && slist[SentCount(slist, unsent)].id == unsent[0]
              && Find(slist, unsent[0]) == SentCount(slist, unsent)
  {
    var k := SentCount(slist, unsent);
    if unsent != [] {
      var s := slist[k];
      MarksIncrease(slist, marks, iss, k + 1, |slist|);
      assert unsent[0] == s.id;
    }
  }

  // queue

  /** `queue` on the list: extend the last segment if it is waiting and of the same kind, else append one. */
  function Enqueue(slist: seq<SSegment>, nextId: nat, seqno: u32, len: nat, flags: byte): seq<SSegment> {
    if slist != [] && slist[|slist| - 1].flags == flags && slist[|slist| - 1].xmit == 0 then
      slist[|slist| - 1 := slist[|slist| - 1].(len := slist[|slist| - 1].len + len)]
    else
      slist + [SSegment(nextId, seqno, len, 0, flags)]
  }

  function EnqueueMarks(slist: seq<SSegment>, marks: seq<nat>, end: nat, len: nat): seq<nat>
    requires |marks| == |slist| + 1
  {
    if slist != [] && slist[|slist| - 1].xmit == 0 then marks[|slist| := end + len] else marks + [end + len]
  }

  /** Queueing `n` more bytes extends the tiling by `n`. */
  lemma {:induction false} EnqueueQueued(slist: seq<SSegment>, unsent: seq<SegmentId>, marks: seq<nat>, nextId: nat,
                                         iss: u32, una: nat, nxt: nat, end: nat, n: nat)
    requires Queued(slist, unsent, marks, nextId, iss, una, nxt, end)
    ensures var slist' := Enqueue(slist, nextId, At(iss, end), n, 0);
            var appended := |slist'| > |slist|;
            Queued(slist', if appended then unsent + [nextId] else unsent, EnqueueMarks(slist, marks, end, n),
                   if appended then nextId + 1 else nextId, iss, una, nxt, end + n)
  {
    var k := SentCount(slist, unsent);
    assert unsent == [] ==> k == |slist|;
    if slist != [] {
      var last := slist[|slist| - 1];
      assert last.xmit == 0 <==> unsent != [];
      assert slist[|slist| - 1].flags == 0;
    }
  }

  // splitting and transmission

  /** Break segment `i` after `n` bytes; the second part is a new segment. */
  function Split(slist: seq<SSegment>, i: nat, n: nat, subId: SegmentId): seq<SSegment>
    requires i < |slist| && n <= slist[i].len
  {
    var s := slist[i];
    slist[..i] + [s.(len := n), SSegment(subId, Add32(s.seqno, n), s.len - n, s.xmit, s.flags)] + slist[i + 1..]
  }

  function SplitMarks(marks: seq<nat>, i: nat, n: nat): seq<nat>
    requires i < |marks|
  {
    marks[..i + 1] + [marks[i] + n] + marks[i + 1..]
  }

  lemma {:induction false} SplitTiles(slist: seq<SSegment>, marks: seq<nat>, iss: u32, i: nat, n: nat, subId: SegmentId)
    requires Tiles(slist, marks, iss) && i < |slist| && n <= slist[i].len
    ensures Tiles(Split(slist, i, n, subId), SplitMarks(marks, i, n), iss)
  {
    var t, m := Split(slist, i, n, subId), SplitMarks(marks, i, n);
    AtPlus(iss, marks[i], n);
    forall j {:trigger t[j]} | 0 <= j < |t| ensures m[j + 1] == m[j] + t[j].len && t[j].seqno == At(iss, m[j]) {
      if j < i {
        assert t[j] == slist[j];
      } else if j > i + 1 {
        assert t[j] == slist[j - 1];
      } else {
        assert marks[i + 1] == marks[i] + slist[i].len;
      }
    }
  }

  /** Splitting the first waiting segment keeps the queue and names the new part right behind it. */
  lemma {:induction false} SplitWaiting(slist: seq<SSegment>, unsent: seq<SegmentId>, marks: seq<nat>, nextId: nat,
                                        iss: u32, una: nat, nxt: nat, end: nat, n: nat)
    requires Queued(slist, unsent, marks, nextId, iss, una, nxt, end)
    requires unsent != []
    requires 0 < n < slist[SentCount(slist, unsent)].len
    ensures var k := SentCount(slist, unsent);
            Queued(Split(slist, k, n, nextId), [unsent[0], nextId] + unsent[1..], SplitMarks(marks, k, n),
                   nextId + 1, iss, una, nxt, end)
  {
    var k := SentCount(slist, unsent);
    var t := Split(slist, k, n, nextId);
    SplitTiles(slist, marks, iss, k, n, nextId);
    SplitShape(slist, k, n, nextId, nextId);
    assert t[k].len == n && t[k + 1].len == slist[k].len - n;
  }

  /** Splitting a segment in flight leaves both parts in flight. */
  lemma {:induction false} SplitInFlight(slist: seq<SSegment>, unsent: seq<SegmentId>, marks: seq<nat>, nextId: nat,
                                         iss: u32, una: nat, nxt: nat, end: nat, n: nat)
    requires Queued(slist, unsent, marks, nextId, iss, una, nxt, end)
    requires SentCount(slist, unsent) > 0
    requires 0 < n < slist[0].len
    ensures Queued(Split(slist, 0, n, nextId), unsent, SplitMarks(marks, 0, n), nextId + 1, iss, una, nxt, end)
  {
    SplitTiles(slist, marks, iss, 0, n, nextId);
    SplitShape(slist, 0, n, nextId, nextId);
  }

  lemma {:induction false} SplitShape(slist: seq<SSegment>, i: nat, n: nat, subId: SegmentId, nextId: nat)
    requires i < |slist| && n <= slist[i].len && Distinct(slist, nextId) && Plain(slist) && subId == nextId
    ensures var t := Split(slist, i, n, subId);
            && |t| == |slist| + 1 && Distinct(t, nextId + 1) && Plain(t)
            && (forall j {:trigger t[j]} :: 0 <= j < |t| ==>
                  if j < i then t[j] == slist[j]
                  else if j > i + 1 then t[j] == slist[j - 1]
                  else t[j].xmit == slist[i].xmit)
  {
    var t := Split(slist, i, n, subId);
    forall j {:trigger t[j]} | 0 <= j < |t|
      ensures t[j].id == (if j <= i then slist[j].id else if j == i + 1 then subId else slist[j - 1].id)
              && t[j].flags == 0
    {
    }
  }

  function CountXmit(slist: seq<SSegment>, i: nat): seq<SSegment>
    requires i < |slist|
  {
    slist[i := slist[i].(xmit := slist[i].xmit + 1)]
  }

  /** A first transmission moves the whole segment, and `nxt`, across the boundary. */
  lemma {:induction false} FirstTransmission(slist: seq<SSegment>, unsent: seq<SegmentId>, marks: seq<nat>, nextId: nat,
                                             iss: u32, una: nat, nxt: nat, end: nat)
    requires Queued(slist, unsent, marks, nextId, iss, una, nxt, end)
    requires unsent != [] && slist[SentCount(slist, unsent)].len >= 1
    ensures var k := SentCount(slist, unsent);
            Queued(CountXmit(slist, k), unsent[1..], marks, nextId, iss, una, nxt + slist[k].len, end)
  {
  }

  /** A retransmission of the head changes nothing but its count. */
  lemma {:induction false} Retransmission(slist: seq<SSegment>, unsent: seq<SegmentId>, marks: seq<nat>, nextId: nat,
                                          iss: u32, una: nat, nxt: nat, end: nat)
    requires Queued(slist, unsent, marks, nextId, iss, una, nxt, end)
    requires SentCount(slist, unsent) > 0
    ensures Queued(CountXmit(slist, 0), unsent, marks, nextId, iss, una, nxt, end)
  {
  }

  // acknowledgement

  /** The list once `n` bytes have been acknowledged: whole segments go, the next one loses its front. */
  function Acknowledge(slist: seq<SSegment>, n: nat): seq<SSegment>
    decreases |slist|
  {
    if n == 0 || slist == [] then slist
    else if n < slist[0].len then
      slist[0 := slist[0].(seqno := Add32(slist[0].seqno, n), len := slist[0].len - n)]
    else Acknowledge(slist[1..], n - slist[0].len)
  }

  function AcknowledgeMarks(slist: seq<SSegment>, marks: seq<nat>, n: nat): seq<nat>
    requires |marks| == |slist| + 1
    decreases |slist|
  {
    if n == 0 || slist == [] then marks
    else if n < slist[0].len then marks[0 := marks[0] + n]
    else AcknowledgeMarks(slist[1..], marks[1..], n - slist[0].len)
  }

  /** Acknowledging at most what is in flight leaves a queue that starts right behind it. */
  lemma {:induction false} AcknowledgeQueued(slist: seq<SSegment>, unsent: seq<SegmentId>, marks: seq<nat>, nextId: nat,
                                             iss: u32, una: nat, nxt: nat, end: nat, n: nat)
    requires Queued(slist, unsent, marks, nextId, iss, una, nxt, end)
    requires n <= nxt - una
    ensures Queued(Acknowledge(slist, n), unsent, AcknowledgeMarks(slist, marks, n), nextId, iss, una + n, nxt, end)
    decreases |slist|
  {
    assert |marks| == |slist| + 1;
    hide Queued;
    if n > 0 {
      HeadInFlight(slist, unsent, marks, nextId, iss, una, nxt, end);
      var s := slist[0];
      if n < s.len {
        TrimHeadQueued(slist, unsent, marks, nextId, iss, una, nxt, end, n);
      } else {
        PopQueued(slist, unsent, marks, nextId, iss, una, nxt, end);
        AcknowledgeQueued(slist[1..], unsent, marks[1..], nextId, iss, una + s.len, nxt, end, n - s.len);
      }
    }
  }

  lemma {:induction false} TrimHeadQueued(slist: seq<SSegment>, unsent: seq<SegmentId>, marks: seq<nat>, nextId: nat,
                                          iss: u32, una: nat, nxt: nat, end: nat, n: nat)
    requires Queued(slist, unsent, marks, nextId, iss, una, nxt, end)
    requires SentCount(slist, unsent) > 0 && n < slist[0].len
    ensures Queued(slist[0 := slist[0].(seqno := Add32(slist[0].seqno, n), len := slist[0].len - n)], unsent,
                   marks[0 := marks[0] + n], nextId, iss, una + n, nxt, end)
  {
    AtPlus(iss, una, n);
  }

  lemma {:induction false} PopQueued(slist: seq<SSegment>, unsent: seq<SegmentId>, marks: seq<nat>, nextId: nat,
                                     iss: u32, una: nat, nxt: nat, end: nat)
    requires Queued(slist, unsent, marks, nextId, iss, una, nxt, end)
    requires SentCount(slist, unsent) > 0
    ensures Queued(slist[1..], unsent, marks[1..], nextId, iss, una + slist[0].len, nxt, end)
  {
    var t, m := slist[1..], marks[1..];
    forall i {:trigger t[i]} | 0 <= i < |t|
      ensures m[i + 1] == m[i] + t[i].len && t[i].seqno == At(iss, m[i])
    {
      assert t[i] == slist[i + 1];
    }
  }
}
