/**
 The wire form of a pseudo-TCP segment, and the scaled receive window it advertises.
 */
module Header {
  import opened Optional
  import opened Wrap32

  const HEADER_SIZE := 24
  const MAX_PACKET := 65532

  datatype Segment = Segment(conv: u32, seqno: u32, ack: u32, flags: byte, wnd: u16,
                             tsval: u32, tsecr: u32, data: seq<byte>)

  function Be16(x: u16): (s: seq<byte>)
    ensures |s| == 2
  {
    [x / 0x100, x % 0x100]
  }

  function Be32(x: u32): (s: seq<byte>)
    ensures |s| == 4
  {
    [x / 0x100_0000, x / 0x1_0000 % 0x100, x / 0x100 % 0x100, x % 0x100]
  }

  function FromBe16(s: seq<byte>): u16
    requires |s| == 2
  {
    s[0] as int * 0x100 + s[1]
  }

  function FromBe32(s: seq<byte>): u32
    requires |s| == 4
  {
    s[0] as int * 0x100_0000 + s[1] as int * 0x1_0000 + s[2] as int * 0x100 + s[3]
  }

  /** The 24 header bytes that `packet` writes; the control byte is always zero. */
  function EncodeHeader(s: Segment): (h: seq<byte>)
    ensures |h| == HEADER_SIZE
  {
    Be32(s.conv) + Be32(s.seqno) + Be32(s.ack) + [0, s.flags] + Be16(s.wnd) + Be32(s.tsval) + Be32(s.tsecr)
  }

  function Encode(s: Segment): seq<byte> {
    EncodeHeader(s) + s.data
  }

  function Parse(header: seq<byte>, data: seq<byte>): Option<Segment> {
    if |header| != 24 then None
    else Some(Segment(FromBe32(header[..4]), FromBe32(header[4..8]), FromBe32(header[8..12]), header[13],
                      FromBe16(header[14..16]), FromBe32(header[16..20]), FromBe32(header[20..24]), data))
  }

  /** `pseudo_tcp_socket_notify_packet` up to the call of `process`: sizes out of range are refused. */
  function Receive(packet: seq<byte>): Option<Segment> {
    if |packet| > MAX_PACKET || |packet| < HEADER_SIZE then None
    else Parse(packet[..HEADER_SIZE], packet[HEADER_SIZE..])
  }

  lemma Be32RoundTrip(x: u32)
    ensures FromBe32(Be32(x)) == x
  {
    var a := x / 0x100;
    var b := a / 0x100;
    assert x == a * 0x100 + x % 0x100 && a == b * 0x100 + a % 0x100;
    assert b == x / 0x1_0000 && b == b / 0x100 * 0x100 + b % 0x100 && b / 0x100 == x / 0x100_0000;
  }

  lemma FromBe32RoundTrip(s: seq<byte>)
    requires |s| == 4
    ensures Be32(FromBe32(s)) == s
  {
    var x := FromBe32(s);
    assert x % 0x100 == s[3] && x / 0x100 == s[0] as int * 0x1_0000 + s[1] as int * 0x100 + s[2];
    assert x / 0x100 % 0x100 == s[2] && x / 0x1_0000 == s[0] as int * 0x100 + s[1];
  }

  /** Where the fields lie in the header. */
  lemma HeaderFields(s: Segment)
    ensures var h := EncodeHeader(s);
            && h[..4] == Be32(s.conv) && h[4..8] == Be32(s.seqno) && h[8..12] == Be32(s.ack) && h[13] == s.flags
            && h[14..16] == Be16(s.wnd) && h[16..20] == Be32(s.tsval) && h[20..24] == Be32(s.tsecr)
  {
    hide Be32, Be16;
    var front := Be32(s.conv) + Be32(s.seqno) + Be32(s.ack);
    var back := Be16(s.wnd) + Be32(s.tsval) + Be32(s.tsecr);
    assert EncodeHeader(s) == front + [0, s.flags] + back;
    Slices(front, [0, s.flags], back);
    assert front[..4] == Be32(s.conv) && front[4..8] == Be32(s.seqno) && front[8..12] == Be32(s.ack);
    assert back[0..2] == Be16(s.wnd) && back[2..6] == Be32(s.tsval) && back[6..10] == Be32(s.tsecr);
  }

  lemma Slices(a: seq<byte>, b: seq<byte>, c: seq<byte>)
    ensures forall i, j :: 0 <= i <= j <= |a| ==> (a + b + c)[i..j] == a[i..j]
    ensures forall i, j :: 0 <= i <= j <= |c| ==> (a + b + c)[|a| + |b| + i..|a| + |b| + j] == c[i..j]
  {
  }

  /** What `packet` sends, `notify_packet` receives; only an oversized payload is refused. */
  lemma ReceiveEncoded(s: Segment)
    ensures Receive(Encode(s)) == if |s.data| <= MAX_PACKET - HEADER_SIZE then Some(s) else None
  {
    hide Be32, FromBe32;
    assert Encode(s)[..HEADER_SIZE] == EncodeHeader(s) && Encode(s)[HEADER_SIZE..] == s.data;
    HeaderFields(s);
    Be32RoundTrip(s.conv);
    Be32RoundTrip(s.seqno);
    Be32RoundTrip(s.ack);
    Be32RoundTrip(s.tsval);
    Be32RoundTrip(s.tsecr);
  }

  /** Conversely every packet of legal size is the encoding of what is received, but for byte 12. */
  lemma EncodeReceived(packet: seq<byte>)
    requires HEADER_SIZE <= |packet| <= MAX_PACKET
    ensures Receive(packet).Some? && Encode(Receive(packet).value) == packet[12 := 0]
  {
    var h := packet[..HEADER_SIZE];
    FromBe32RoundTrip(h[..4]);
    FromBe32RoundTrip(h[4..8]);
    FromBe32RoundTrip(h[8..12]);
    FromBe32RoundTrip(h[16..20]);
    FromBe32RoundTrip(h[20..24]);
    assert Be16(FromBe16(h[14..16])) == h[14..16];
    assert h[12 := 0] == h[..4] + h[4..8] + h[8..12] + [0, h[13]] + h[14..16] + h[16..20] + h[20..24];
    assert packet[12 := 0] == h[12 := 0] + packet[HEADER_SIZE..];
  }

  // Window scaling.

  /** The unit of a window field under a scale, `1 << k`. */
  function Unit(k: nat): nat {
    Shl(1, k)
  }

  function Shl(x: nat, k: nat): nat {
    if k == 0 then x else 2 * Shl(x, k - 1)
  }

  function Shr(x: nat, k: nat): nat {
    if k == 0 then x else Shr(x, k - 1) / 2
  }

  /** The window field for a receive window: shifted right, then cut to 16 bits. */
  function Advertised(rcvWnd: u32, scale: nat): u16 {
    Shr(rcvWnd, scale) % 0x1_0000
  }

  /** The send window granted by a window field. */
  function Granted(wnd: u16, scale: nat): u32 {
    Shl(wnd, scale) % WORD
  }

  lemma {:induction false} ShlMonotone(x: nat, y: nat, k: nat)
    requires x < y
    ensures Shl(x, k) + Unit(k) <= Shl(y, k)
  {
    if k > 0 {
      ShlMonotone(x, y, k - 1);
    }
  }

  lemma {:induction false} UnitPositive(k: nat)
    ensures Unit(k) >= 1
  {
    if k > 0 {
      UnitPositive(k - 1);
    }
  }

  /** Shifting right and back left rounds down to a multiple of the unit. */
  lemma {:induction false} ShiftRoundsDown(x: nat, k: nat)
    ensures x - Unit(k) < Shl(Shr(x, k), k) <= x
  {
    if k > 0 {
      ShiftRoundsDown(x, k - 1);
      ShlHalf(Shr(x, k - 1), k - 1);
    }
  }

  lemma {:induction false} ShlHalf(y: nat, k: nat)
    ensures 2 * Shl(y / 2, k) <= Shl(y, k) <= 2 * Shl(y / 2, k) + Unit(k)
  {
    if k > 0 {
      ShlHalf(y, k - 1);
    }
  }

  /** The loop of `resize_receive_buffer`: the least scale whose shifted size fits 16 bits. */
  method ScaleFor(requested: u32) returns (scale: nat, size: u32)
    ensures scale == 0 || Shr(requested, scale - 1) > 0xFFFF
    ensures Shr(requested, scale) <= 0xFFFF
    ensures requested - Unit(scale) < size <= requested
    ensures size <= Shl(0xFFFF, scale)
  {
    scale := 0;
    var rest := requested;
    while rest > 0xFFFF
      invariant rest == Shr(requested, scale)
      invariant scale == 0 || Shr(requested, scale - 1) > 0xFFFF
      decreases rest
    {
      scale := scale + 1;
      rest := rest / 2;
    }
    ShiftRoundsDown(requested, scale);
    if rest < 0xFFFF {
      ShlMonotone(rest, 0xFFFF, scale);
    }
    size := Shl(rest, scale);
  }

  /** The peer is granted the receive window rounded down to the scale, unless the field overflows. */
  lemma AdvertisedWindow(rcvWnd: u32, scale: nat)
    ensures Granted(Advertised(rcvWnd, scale), scale) <= rcvWnd
    ensures rcvWnd - Unit(scale) < Granted(Advertised(rcvWnd, scale), scale) <==> Shr(rcvWnd, scale) <= 0xFFFF
  {
    var q: nat := Shr(rcvWnd, scale);
    var w := Advertised(rcvWnd, scale);
    ShiftRoundsDown(rcvWnd, scale);
    if q > 0xFFFF {
      assert w < q;
      ShlMonotone(w, q, scale);
    }
  }

  /** A window within the buffer that a scale was computed for always fits its field. */
  lemma {:induction false} WindowFits(rcvWnd: u32, scale: nat)
    requires rcvWnd <= Shl(0xFFFF, scale)
    ensures Shr(rcvWnd, scale) <= 0xFFFF
  {
    ShiftRoundsDown(rcvWnd, scale);
    var q: nat := Shr(rcvWnd, scale);
    if q > 0xFFFF {
      ShlMonotone(0xFFFF, q, scale);
      UnitPositive(scale);
      assert false;
    }
  }
}
