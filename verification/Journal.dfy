/**
 The history of segments a socket has handed to the network, against the stream it sends.

 A ghost tag gives the stream positions behind a segment's wrapped sequence and acknowledgement
 numbers. All predicates are about values, so that a socket's invariant can be built from them.
 */
module Journal {
  import opened Wrap32
  import opened Header

  const PACKET_OVERHEAD := 116
  const MAX_MSS := 65535 - PACKET_OVERHEAD

  datatype WriteResult = WriteSuccess | WriteTooLarge | WriteFail

  /** Stream positions behind the sequence and acknowledgement numbers of a segment, and the network's answer to it. */
  datatype Tag = Tag(pos: int, ack: nat, answer: WriteResult)

  /** The segment's payload is the stream at its position. */
  ghost predicate Genuine(s: Segment, t: Tag, iss: u32, irs: u32, stream: seq<byte>) {
    && s.seqno == At(iss, t.pos)
    && s.ack == At(irs, t.ack)
    && s.flags == 0
    && |s.data| <= MAX_MSS && t.pos <= |stream|
    && (s.data != [] ==> 0 <= t.pos && t.pos + |s.data| <= |stream| && s.data == stream[t.pos..t.pos + |s.data|])
  }

  /** Every segment of a history is genuine. */
  ghost predicate AllGenuine(out: seq<Segment>, tags: seq<Tag>, conv: u32, iss: u32, irs: u32, stream: seq<byte>) {
    && |tags| == |out|
    && forall k {:trigger tags[k]} :: 0 <= k < |tags| ==>
         Genuine(out[k], tags[k], iss, irs, stream) && out[k].conv == conv
  }

  lemma SliceOfTail(s: seq<byte>, a: nat, i: nat, n: nat)
    requires a + i + n <= |s|
    ensures s[a..][i..i + n] == s[a + i..a + i + n]
  {
  }

  /** A history stays genuine while the stream grows. */
  lemma AllGenuineGrows(out: seq<Segment>, tags: seq<Tag>, conv: u32, iss: u32, irs: u32,
                        stream: seq<byte>, longer: seq<byte>)
    requires AllGenuine(out, tags, conv, iss, irs, stream) && stream <= longer
    ensures AllGenuine(out, tags, conv, iss, irs, longer)
  {
    forall k {:trigger tags[k]} | 0 <= k < |tags| ensures Genuine(out[k], tags[k], iss, irs, longer) {
      var s, t := out[k], tags[k];
      if s.data != [] {
        assert longer[t.pos..t.pos + |s.data|] == stream[t.pos..t.pos + |s.data|];
      }
    }
  }

  /**
   History `out` continues `out0`; the new segments carry acknowledgement position `ack` and
   window `wnd`, a position of at least `una - 1`, and no payload byte at or past position `bound`.
   */
  ghost predicate Extends(out0: seq<Segment>, tags0: seq<Tag>, out: seq<Segment>, tags: seq<Tag>,
                          una: nat, ack: nat, wnd: u16, bound: nat)
  {
    && out0 <= out && tags0 <= tags && |tags| == |out| && |tags0| == |out0|
    && forall k {:trigger tags[k]} :: |out0| <= k < |out| ==>
         && tags[k].ack == ack && out[k].wnd == wnd && una - 1 <= tags[k].pos
         && (out[k].data != [] ==> tags[k].pos + |out[k].data| <= bound)
  }

  lemma ExtendsFurther(out0: seq<Segment>, tags0: seq<Tag>, out1: seq<Segment>, tags1: seq<Tag>,
                       out2: seq<Segment>, tags2: seq<Tag>, una: nat, ack: nat, wnd: u16, bound: nat, limit: nat)
    requires Extends(out0, tags0, out1, tags1, una, ack, wnd, limit)
    requires Extends(out1, tags1, out2, tags2, una, ack, wnd, bound) && bound <= limit
    ensures Extends(out0, tags0, out2, tags2, una, ack, wnd, limit)
  {
    forall k {:trigger tags2[k]} | |out0| <= k < |out2|
      ensures tags2[k].ack == ack && out2[k].wnd == wnd && una - 1 <= tags2[k].pos
      ensures out2[k].data != [] ==> tags2[k].pos + |out2[k].data| <= limit
    {
      if k < |out1| {
        assert tags2[k] == tags1[k] && out2[k] == out1[k];
      }
    }
  }

  lemma ExtendsBelow(out0: seq<Segment>, tags0: seq<Tag>, out: seq<Segment>, tags: seq<Tag>,
                     una: nat, ack: nat, wnd: u16, bound: nat, limit: nat)
    requires Extends(out0, tags0, out, tags, una, ack, wnd, bound) && bound <= limit
    ensures Extends(out0, tags0, out, tags, una, ack, wnd, limit)
  {
    forall k {:trigger tags[k]} | |out0| <= k < |out| && out[k].data != []
      ensures tags[k].pos + |out[k].data| <= limit
    {
    }
  }

  lemma AllGenuineAppend(out: seq<Segment>, tags: seq<Tag>, conv: u32, iss: u32, irs: u32, stream: seq<byte>,
                         s: Segment, t: Tag, una: nat)
    requires AllGenuine(out, tags, conv, iss, irs, stream)
    requires Genuine(s, t, iss, irs, stream) && s.conv == conv && una - 1 <= t.pos
    ensures AllGenuine(out + [s], tags + [t], conv, iss, irs, stream)
    ensures Extends(out, tags, out + [s], tags + [t], una, t.ack, s.wnd, if s.data == [] then 0 else t.pos + |s.data|)
  {
  }

  lemma AllGenuineLength(out: seq<Segment>, tags: seq<Tag>, conv: u32, iss: u32, irs: u32, stream: seq<byte>)
    requires AllGenuine(out, tags, conv, iss, irs, stream)
    ensures |tags| == |out|
  {
  }

  /** No window ever advertised reaches past `edge`. */
  ghost predicate PromisedWithin(out: seq<Segment>, tags: seq<Tag>, scale: nat, edge: nat) {
    && |tags| == |out|
    && forall k {:trigger tags[k]} :: 0 <= k < |tags| ==> tags[k].ack + Granted(out[k].wnd, scale) <= edge
  }

  /** No payload byte ever sent lies at or past `limit`. */
  ghost predicate PayloadWithin(out: seq<Segment>, tags: seq<Tag>, limit: nat) {
    && |tags| == |out|
    && forall k {:trigger tags[k]} :: 0 <= k < |tags| ==> out[k].data != [] ==> tags[k].pos + |out[k].data| <= limit
  }

  lemma ExtendsPayload(out0: seq<Segment>, tags0: seq<Tag>, out: seq<Segment>, tags: seq<Tag>,
                       una: nat, ack: nat, wnd: u16, bound: nat, limit: nat)
    requires Extends(out0, tags0, out, tags, una, ack, wnd, bound) && bound <= limit
    requires PayloadWithin(out0, tags0, limit)
    ensures PayloadWithin(out, tags, limit)
  {
    forall k {:trigger tags[k]} | 0 <= k < |tags| && out[k].data != [] ensures tags[k].pos + |out[k].data| <= limit {
      if k < |out0| {
        assert tags[k] == tags0[k] && out[k] == out0[k];
      }
    }
  }

  lemma ExtendsPromised(out0: seq<Segment>, tags0: seq<Tag>, out: seq<Segment>, tags: seq<Tag>,
                        una: nat, ack: nat, wnd: u16, bound: nat, scale: nat, edge: nat)
    requires Extends(out0, tags0, out, tags, una, ack, wnd, bound) && ack + Granted(wnd, scale) <= edge
    requires PromisedWithin(out0, tags0, scale, edge)
    ensures PromisedWithin(out, tags, scale, edge)
  {
    forall k {:trigger tags[k]} | 0 <= k < |tags| ensures tags[k].ack + Granted(out[k].wnd, scale) <= edge {
      if k < |out0| {
        assert tags[k] == tags0[k] && out[k] == out0[k];
      }
    }
  }

  /** What every segment sent from index `n` on has in common. */
  ghost predicate SentFrom(tags: seq<Tag>, n: nat, lo: int, ackLo: nat, ackHi: nat) {
    && n <= |tags|
    && forall k {:trigger tags[k]} :: n <= k < |tags| ==> lo <= tags[k].pos && ackLo <= tags[k].ack <= ackHi
  }

  lemma SentFromTwice(tags1: seq<Tag>, tags2: seq<Tag>, n: nat, lo: int, lo': int, ackLo: nat, ackMid: nat, ackHi: nat)
    requires tags1 <= tags2 && lo <= lo' && ackLo <= ackMid <= ackHi
    requires SentFrom(tags1, n, lo, ackLo, ackMid) && SentFrom(tags2, |tags1|, lo', ackMid, ackHi)
    ensures SentFrom(tags2, n, lo, ackLo, ackHi)
  {
    forall k {:trigger tags2[k]} | n <= k < |tags2| ensures lo <= tags2[k].pos && ackLo <= tags2[k].ack <= ackHi {
      if k < |tags1| {
        assert tags2[k] == tags1[k];
      }
    }
  }

  /** The network found each of these packets too large. */
  ghost predicate AllTooLarge(tags: seq<Tag>, from: nat, to: nat)
    requires to <= |tags|
  {
    forall k {:trigger tags[k]} :: from <= k < to ==> tags[k].answer == WriteTooLarge
  }

  lemma AllTooLargeNone(tags: seq<Tag>, from: nat)
    requires from == |tags|
    ensures AllTooLarge(tags, from, |tags|)
  {
  }

  lemma AllTooLargeNext(tags: seq<Tag>, from: nat, tags': seq<Tag>)
    requires AllTooLarge(tags, from, |tags|) && tags <= tags' && |tags'| == |tags| + 1
    ensures AllTooLarge(tags', from, |tags|)
    ensures tags'[|tags|].answer == WriteTooLarge ==> AllTooLarge(tags', from, |tags'|)
    ensures from < |tags| ==> tags'[from].answer == WriteTooLarge
  {
    assert forall k {:trigger tags'[k]} :: 0 <= k < |tags| ==> tags'[k] == tags[k];
  }
}
