/**
 Candidate lines in SDP (section 15.1 of RFC 5245): the printer, the parser, and what becomes of a
 candidate that goes through both.

 The text form of an IP address is a parameter.
 */
module CandidateSdp {
  import opened Optional
  import opened Wrap32
  import opened Priority
  import Decimal

  type Ip = nat

  datatype IpPort = IpPort(ip: Ip, port: u16)

  /** `base` is absent when the source's address is not valid. */
  datatype SdpCandidate = SdpCandidate(kind: CandidateType, transport: Transport, component: u32, priority: u32,
                                       foundation: string, addr: IpPort, base: Option<IpPort>)

  const MAX_FOUNDATION := 33
  const WORD64 := WORD * WORD

  datatype Codec = Codec(write: Ip -> string, read: string -> Option<Ip>)

  /** Addresses print without spaces, and parse back. */
  ghost predicate Faithful(codec: Codec) {
    forall ip: Ip :: ' ' !in codec.write(ip) && codec.read(codec.write(ip)) == Some(ip)
  }

  // Words.

  function KindWord(k: CandidateType): string {
    match k
    case ServerReflexive => "srflx"
    case PeerReflexive => "prflx"
    case Relayed => "relay"
    case Host => "host"
  }

  function KindOf(word: string): Option<CandidateType> {
    if word == "host" then Some(Host)
    else if word == "srflx" then Some(ServerReflexive)
    else if word == "prflx" then Some(PeerReflexive)
    else if word == "relay" then Some(Relayed)
    else None
  }

  function TransportWord(t: Transport): string {
    if t == Udp then "UDP" else "TCP"
  }

  function TcpTypeWord(t: Transport): string {
    match t
    case Udp => ""
    case TcpActive => "active"
    case TcpPassive => "passive"
    case TcpSo => "so"
  }

  function Lower(c: char): char {
    if 'A' <= c <= 'Z' then c - 'A' + 'a' else c
  }

  predicate SameIgnoringCase(a: string, b: string) {
    |a| == |b| && forall i :: 0 <= i < |a| ==> Lower(a[i]) == Lower(b[i])
  }

  /** A missing `tcptype` compares equal to anything, so it reads as simultaneous open. */
  function TransportOf(word: string, tcptype: Option<string>): Option<Transport> {
    if SameIgnoringCase(word, "UDP") then Some(Udp)
    else if SameIgnoringCase(word, "TCP-SO") then Some(TcpSo)
    else if SameIgnoringCase(word, "TCP-ACT") then Some(TcpActive)
    else if SameIgnoringCase(word, "TCP-PASS") then Some(TcpPassive)
    else if SameIgnoringCase(word, "TCP") then
      if tcptype.None? || SameIgnoringCase(tcptype.value, "so") then Some(TcpSo)
      else if SameIgnoringCase(tcptype.value, "active") then Some(TcpActive)
      else if SameIgnoringCase(tcptype.value, "passive") then Some(TcpPassive)
      else None
    else None
  }

  // Numbers.

  /** `%d` applied to an unsigned word. */
  function PrintSigned(x: u32): string {
    if x < HALF then Decimal.Print(x) else "-" + Decimal.Print(WORD - x)
  }

  function LeadingDigits(s: string): (d: string)
    ensures forall c :: c in d ==> Decimal.IsDigit(c)
  {
    if s == [] || !Decimal.IsDigit(s[0]) then [] else [s[0]] + LeadingDigits(s[1..])
  }

  predicate IsSpace(c: char) {
    c == ' ' || c == '\t' || c == '\n' || c == '\r' || c == '\U{000B}' || c == '\U{000C}'
  }

  function Trimmed(s: string): string {
    if s != [] && IsSpace(s[0]) then Trimmed(s[1..]) else s
  }

  /** `g_ascii_strtoull` in base ten: saturating, and a sign negates modulo 2^64. */
  function ParseNumber(s: string): nat {
    var t := Trimmed(s);
    var negative := t != [] && t[0] == '-';
    var digits := LeadingDigits(if t != [] && (t[0] == '-' || t[0] == '+') then t[1..] else t);
    var value := Decimal.Value(digits);
    var v := if value < WORD64 then value else WORD64 - 1;
    if negative then (WORD64 - v) % WORD64 else v
  }

  lemma {:induction false} AllDigits(s: string)
    requires forall c :: c in s ==> Decimal.IsDigit(c)
    ensures LeadingDigits(s) == s
  {
    if s != [] {
      assert s == [s[0]] + s[1..];
      AllDigits(s[1..]);
    }
  }

  lemma PrintedDigits(n: nat)
    ensures var s := Decimal.Print(n);
            LeadingDigits(s) == s && Decimal.Value(s) == n && Decimal.IsDigit(s[0]) && ' ' !in s
  {
    Decimal.PrintValue(n);
    AllDigits(Decimal.Print(n));
    assert Decimal.Print(n)[0] in Decimal.Print(n);
  }

  lemma ParsePrinted(n: nat)
    requires n < WORD64
    ensures ParseNumber(Decimal.Print(n)) == n && ' ' !in Decimal.Print(n)
  {
    PrintedDigits(n);
  }

  lemma ParseNegative(n: nat)
    requires 0 < n < WORD64
    ensures ParseNumber("-" + Decimal.Print(n)) == WORD64 - n && ' ' !in "-" + Decimal.Print(n)
  {
    hide LeadingDigits;
    PrintedDigits(n);
    var s := "-" + Decimal.Print(n);
    assert Trimmed(s) == s && s[0] == '-' && s[1..] == Decimal.Print(n);
  }

  /** Every word survives: a negative number is read back modulo 2^32. */
  lemma SignedRoundTrip(x: u32)
    ensures ParseNumber(PrintSigned(x)) % WORD == x && ' ' !in PrintSigned(x)
  {
    hide ParseNumber;
    if x < HALF {
      ParsePrinted(x);
    } else {
      ParseNegative(WORD - x);
      ModUnique(WORD64 - (WORD - x), WORD - 1, x);
    }
  }

  // Tokens.

  function FirstSpace(s: string): (n: nat)
    ensures n <= |s| && ' ' !in s[..n] && (n < |s| ==> s[n] == ' ')
  {
    if s == [] || s[0] == ' ' then 0
    else
      var n := FirstSpace(s[1..]);
      assert s[..n + 1] == [s[0]] + s[1..][..n];
      n + 1
  }

  /** `g_strsplit` at single spaces. */
  function Split(s: string): seq<string>
    decreases |s|
  {
    if s == [] then []
    else SplitRest(s)
  }

  function SplitRest(s: string): seq<string>
    decreases |s|
  {
    var n := FirstSpace(s);
    if n == |s| then [s] else [s[..n]] + SplitRest(s[n + 1..])
  }

  function Join(ts: seq<string>): string {
    if |ts| == 0 then [] else if |ts| == 1 then ts[0] else ts[0] + " " + Join(ts[1..])
  }

  ghost predicate Spaceless(ts: seq<string>) {
    forall i {:trigger ts[i]} :: 0 <= i < |ts| ==> ' ' !in ts[i]
  }

  lemma SplitFirst(a: string, b: string)
    requires ' ' !in a
    ensures SplitRest(a + " " + b) == [a] + SplitRest(b)
  {
    var s := a + " " + b;
    var n := FirstSpace(s);
    assert s[|a|] == ' ' && forall i :: 0 <= i < |a| ==> s[i] == a[i];
    assert s[|a|] == ' ' && s[..|a| + 1][|a|] == ' ';
    assert n == |a| && s[..n] == a && s[n + 1..] == b;
  }

  lemma SplitLast(a: string)
    requires ' ' !in a
    ensures SplitRest(a) == [a]
  {
    assert FirstSpace(a) == |a|;
  }

  /** Splitting undoes joining. */
  lemma {:induction false} SplitJoin(ts: seq<string>)
    requires ts != [] && Spaceless(ts)
    ensures SplitRest(Join(ts)) == ts
  {
    hide SplitRest;
    if |ts| == 1 {
      SplitLast(ts[0]);
    } else {
      SplitFirst(ts[0], Join(ts[1..]));
      SplitJoin(ts[1..]);
      assert ts == [ts[0]] + ts[1..];
    }
  }

  // Printing.

  function Shown(port: u16): u16 {
    if port == 0 then 9 else port
  }

  /** The base address is printed only where it is valid and differs from the address. */
  predicate ShowsBase(c: SdpCandidate) {
    c.base.Some? && c.base.value != c.addr
  }

  /** The words of a candidate line. */
  function Words(c: SdpCandidate, codec: Codec): seq<string> {
    [if |c.foundation| <= MAX_FOUNDATION then c.foundation else c.foundation[..MAX_FOUNDATION],
     PrintSigned(c.component), TransportWord(c.transport), PrintSigned(c.priority),
     codec.write(c.addr.ip), Decimal.Print(Shown(c.addr.port))] + Options(c, codec)
  }

  function Options(c: SdpCandidate, codec: Codec): seq<string> {
    ["typ", KindWord(c.kind)]
    + (if ShowsBase(c)
       then ["raddr", codec.write(c.base.value.ip), "rport", Decimal.Print(Shown(c.base.value.port))]
       else [])
    + (if c.transport != Udp then ["tcptype", TcpTypeWord(c.transport)] else [])
  }

  const PREFIX := "a=candidate:"

  lemma {:induction false} JoinOne(ws: seq<string>, w: string)
    requires ws != []
    ensures Join(ws + [w]) == Join(ws) + " " + w
  {
    if |ws| == 1 {
      assert (ws + [w])[1..] == [w];
    } else {
      assert (ws + [w])[1..] == ws[1..] + [w];
      JoinOne(ws[1..], w);
    }
  }

  lemma JoinTwo(ws: seq<string>, k: string, v: string)
    requires ws != []
    ensures Join(ws + [k, v]) == Join(ws) + " " + k + " " + v
  {
    JoinOne(ws, k);
    JoinOne(ws + [k], v);
    assert ws + [k] + [v] == ws + [k, v];
  }

  lemma JoinSix(a: string, b: string, c: string, d: string, e: string, f: string)
    ensures Join([a, b, c, d, e, f]) == a + " " + b + " " + c + " " + d + " " + e + " " + f
  {
    JoinOne([a], b);
    assert [a] + [b] == [a, b] && [a, b] + [c, d] == [a, b, c, d] && [a, b, c, d] + [e, f] == [a, b, c, d, e, f];
    JoinTwo([a, b], c, d);
    JoinTwo([a, b, c, d], e, f);
  }

  /** `_generate_candidate_sdp`: the words of the candidate, one space apart. */
  method GenerateSdp(c: SdpCandidate, codec: Codec) returns (sdp: string)
    ensures sdp == PREFIX + Join(Words(c, codec))
  {
    hide Join, PrintSigned;
    var foundation := if |c.foundation| <= MAX_FOUNDATION then c.foundation else c.foundation[..MAX_FOUNDATION];
    var line := foundation + " " + PrintSigned(c.component) + " " + TransportWord(c.transport) + " "
                + PrintSigned(c.priority) + " " + codec.write(c.addr.ip) + " " + Decimal.Print(Shown(c.addr.port));
    ghost var ws := [foundation, PrintSigned(c.component), TransportWord(c.transport), PrintSigned(c.priority),
                     codec.write(c.addr.ip), Decimal.Print(Shown(c.addr.port))];
    JoinSix(ws[0], ws[1], ws[2], ws[3], ws[4], ws[5]);
    line, ws := AppendOption(line, "typ", KindWord(c.kind), ws);
    if ShowsBase(c) {
      line, ws := AppendOption(line, "raddr", codec.write(c.base.value.ip), ws);
      line, ws := AppendOption(line, "rport", Decimal.Print(Shown(c.base.value.port)), ws);
    }
    if c.transport != Udp {
      line, ws := AppendOption(line, "tcptype", TcpTypeWord(c.transport), ws);
    }
    assert ws == Words(c, codec);
    sdp := PREFIX + line;
  }

  method AppendOption(line: string, key: string, value: string, ghost ws: seq<string>)
    returns (line': string, ghost ws': seq<string>)
    requires ws != [] && line == Join(ws)
    ensures line' == line + " " + key + " " + value
    ensures ws' == ws + [key, value] && line' == Join(ws')
  {
    JoinTwo(ws, key, value);
    ws' := ws + [key, value];
    line' := line + " " + key + " " + value;
  }

  // Parsing.

  /** What the optional attributes say. */
  datatype Attributes = Attributes(kind: Option<string>, raddr: Option<string>, rport: u16, tcptype: Option<string>)

  const NO_ATTRIBUTES := Attributes(None, None, 0, None)

  function Noted(a: Attributes, key: string, value: string): Attributes {
    if key == "typ" then a.(kind := Some(value))
    else if key == "raddr" then a.(raddr := Some(value))
    else if key == "rport" then a.(rport := ParseNumber(value) % 0x1_0000)
    else if key == "tcptype" then a.(tcptype := Some(value))
    else a
  }

  /** Attributes come in pairs; a last one without a value spoils the line. */
  function AttributesOf(ts: seq<string>, a: Attributes): Option<Attributes> {
    if ts == [] then Some(a) else if |ts| == 1 then None else AttributesOf(ts[2..], Noted(a, ts[0], ts[1]))
  }

  function Truncated(foundation: string): string {
    if |foundation| < MAX_FOUNDATION then foundation else foundation[..MAX_FOUNDATION - 1]
  }

  /** The candidate that six words and the attributes describe. */
  function Assemble(ts: seq<string>, a: Attributes, codec: Codec): Option<SdpCandidate>
    requires |ts| >= 6
  {
    if a.kind.None? || KindOf(a.kind.value).None? then None
    else if TransportOf(ts[2], a.tcptype).None? || codec.read(ts[4]).None? then None
    else if a.raddr.Some? && a.rport != 0 && codec.read(a.raddr.value).None? then None
    else
      Some(SdpCandidate(KindOf(a.kind.value).value, TransportOf(ts[2], a.tcptype).value,
                        ParseNumber(ts[1]) % WORD, ParseNumber(ts[3]) % WORD, Truncated(ts[0]),
                        IpPort(codec.read(ts[4]).value, ParseNumber(ts[5]) % 0x1_0000),
                        if a.raddr.Some? && a.rport != 0
                        then Some(IpPort(codec.read(a.raddr.value).value, a.rport)) else None))
  }

  function ParseWords(ts: seq<string>, codec: Codec): Option<SdpCandidate> {
    if |ts| < 6 then None
    else
      var a := AttributesOf(ts[6..], NO_ATTRIBUTES);
      if a.None? then None else Assemble(ts, a.value, codec)
  }

  /** `nice_agent_parse_remote_candidate_sdp`: the token loop, then the checks. */
  method ParseSdp(sdp: string, codec: Codec) returns (r: Option<SdpCandidate>)
    ensures r == if PREFIX <= sdp then ParseWords(Split(sdp[|PREFIX|..]), codec) else None
  {
    if !(PREFIX <= sdp) {
      return None;
    }
    var ts := Split(sdp[|PREFIX|..]);
    var a := NO_ATTRIBUTES;
    var i := 0;
    while i < |ts|
      invariant 0 <= i && (i <= 6 ==> i <= |ts| && a == NO_ATTRIBUTES) && (i > 6 ==> |ts| >= 6 && i <= |ts|)
      invariant i >= 6 ==> AttributesOf(ts[i..], a) == AttributesOf(ts[6..], NO_ATTRIBUTES)
    {
      if i < 6 {
        i := i + 1;
      } else {
        if i + 1 == |ts| {
          assert ts[i..] == [ts[i]];
          return None;
        }
        assert ts[i..][2..] == ts[i + 2..];
        a := Noted(a, ts[i], ts[i + 1]);
        i := i + 2;
      }
    }
    if |ts| < 6 {
      return None;
    }
    assert ts[i..] == [];
    r := Assemble(ts, a, codec);
  }

  // The round trip.

  /** What comes back: port zero is announced as nine, and only a differing base address is announced. */
  function Announced(c: SdpCandidate): SdpCandidate {
    c.(addr := c.addr.(port := Shown(c.addr.port)),
       base := if ShowsBase(c) then Some(c.base.value.(port := Shown(c.base.value.port))) else None)
  }

  lemma WordsSpaceless(c: SdpCandidate, codec: Codec)
    requires Faithful(codec) && ' ' !in c.foundation && |c.foundation| < MAX_FOUNDATION
    ensures Spaceless(Words(c, codec)) && |Words(c, codec)| >= 8 && Words(c, codec)[6..] == Options(c, codec)
  {
    hide PrintSigned, Options, TransportWord;
    assert ' ' !in TransportWord(c.transport) && |Options(c, codec)| >= 2 && Spaceless(Options(c, codec)) by {
      OptionsSpaceless(c, codec);
    }
    SignedRoundTrip(c.component);
    SignedRoundTrip(c.priority);
    ParsePrinted(Shown(c.addr.port));
  }

  lemma OptionsSpaceless(c: SdpCandidate, codec: Codec)
    requires Faithful(codec)
    ensures ' ' !in TransportWord(c.transport) && |Options(c, codec)| >= 2 && Spaceless(Options(c, codec))
  {
    if ShowsBase(c) {
      ParsePrinted(Shown(c.base.value.port));
    }
  }

  /** The attributes of the printed options. */
  function AttributesFor(c: SdpCandidate, codec: Codec): Attributes {
    Attributes(Some(KindWord(c.kind)),
               if ShowsBase(c) then Some(codec.write(c.base.value.ip)) else None,
               if ShowsBase(c) then Shown(c.base.value.port) else 0,
               if c.transport != Udp then Some(TcpTypeWord(c.transport)) else None)
  }

  lemma AttributesNext(key: string, value: string, rest: seq<string>, a: Attributes)
    ensures AttributesOf([key, value] + rest, a) == AttributesOf(rest, Noted(a, key, value))
  {
    assert ([key, value] + rest)[2..] == rest;
  }

  lemma OptionsRead(c: SdpCandidate, codec: Codec)
    requires Faithful(codec)
    ensures AttributesOf(Options(c, codec), NO_ATTRIBUTES) == Some(AttributesFor(c, codec))
  {
    hide AttributesOf, ParseNumber;
    var tcp := if c.transport != Udp then ["tcptype", TcpTypeWord(c.transport)] else [];
    var a := Attributes(Some(KindWord(c.kind)), None, 0, None);
    if ShowsBase(c) {
      var ip, port := codec.write(c.base.value.ip), Decimal.Print(Shown(c.base.value.port));
      ParsePrinted(Shown(c.base.value.port));
      assert Options(c, codec) == ["typ", KindWord(c.kind)] + (["raddr", ip] + (["rport", port] + tcp));
      AttributesNext("typ", KindWord(c.kind), ["raddr", ip] + (["rport", port] + tcp), NO_ATTRIBUTES);
      AttributesNext("raddr", ip, ["rport", port] + tcp, a);
      a := a.(raddr := Some(ip));
      AttributesNext("rport", port, tcp, a);
      a := a.(rport := Shown(c.base.value.port));
    } else {
      assert Options(c, codec) == ["typ", KindWord(c.kind)] + tcp;
      AttributesNext("typ", KindWord(c.kind), tcp, NO_ATTRIBUTES);
    }
    TcpRead(c.transport, a);
  }

  lemma TcpRead(t: Transport, a: Attributes)
    ensures var tcp := if t != Udp then ["tcptype", TcpTypeWord(t)] else [];
            AttributesOf(tcp, a) == Some(if t != Udp then a.(tcptype := Some(TcpTypeWord(t))) else a)
  {
    if t != Udp {
      assert ["tcptype", TcpTypeWord(t)] + [] == ["tcptype", TcpTypeWord(t)];
      AttributesNext("tcptype", TcpTypeWord(t), [], a);
    }
  }

  lemma WordsKnown(k: CandidateType, t: Transport)
    ensures KindOf(KindWord(k)) == Some(k)
    ensures TransportOf(TransportWord(t), if t != Udp then Some(TcpTypeWord(t)) else None) == Some(t)
  {
    assert "TCP"[0] != "UDP"[0] && Lower("TCP"[0]) != Lower("UDP"[0]);
  }

  /** Parsing the words gives back the candidate as announced. */
  lemma WordsRead(c: SdpCandidate, codec: Codec)
    requires Faithful(codec) && |c.foundation| < MAX_FOUNDATION
    ensures Words(c, codec)[6..] == Options(c, codec) ==> ParseWords(Words(c, codec), codec) == Some(Announced(c))
  {
    hide AttributesOf, ParseNumber, PrintSigned, TransportOf, KindOf, Options;
    OptionsRead(c, codec);
    WordsKnown(c.kind, c.transport);
    SignedRoundTrip(c.component);
    SignedRoundTrip(c.priority);
    ParsePrinted(Shown(c.addr.port));
  }

  /**
   For every candidate whose foundation fits its buffer and has no space, the parsed line is the
   candidate as announced.
   */
  method RoundTrip(c: SdpCandidate, codec: Codec) returns (r: Option<SdpCandidate>)
    requires Faithful(codec) && ' ' !in c.foundation && |c.foundation| < MAX_FOUNDATION
    ensures r == Some(Announced(c))
  {
    hide Words, ParseWords, SplitRest, Announced;
    var sdp := GenerateSdp(c, codec);
    WordsSpaceless(c, codec);
    WordsRead(c, codec);
    var ws := Words(c, codec);
    SplitJoin(ws);
    assert Join(ws) != [];
    assert sdp[|PREFIX|..] == Join(ws);
    r := ParseSdp(sdp, codec);
  }

  /** The candidate itself comes back exactly when no port is zero and a base address, if any, differs. */
  lemma AnnouncedSame(c: SdpCandidate)
    ensures Announced(c) == c <==>
              c.addr.port != 0 && (c.base.Some? ==> c.base.value != c.addr && c.base.value.port != 0)
  {
  }
}
