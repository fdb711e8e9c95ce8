/**
 ICE priorities: of a candidate (section 5.1.2.1 of RFC 8445) and of a pair (section 6.1.2.3).
 */
module Priority {
  import opened Wrap32

  datatype CandidateType = Host | ServerReflexive | PeerReflexive | Relayed

  datatype Transport = Udp | TcpActive | TcpPassive | TcpSo

  /** The parts of a candidate its priority depends on; `turnUdp` and `turnPreference` describe a relay. */
  datatype Candidate = Candidate(kind: CandidateType, transport: Transport, component: nat,
                                 natAssisted: bool, turnUdp: bool, turnPreference: nat, ipPreference: nat)

  const MAX_LOCAL_ADDRESSES := 64
  const MAX_TURN_SERVERS := 8

  /** The bounds the source asserts, and the component ids of section 5.1.2.1. */
  predicate InRange(c: Candidate) {
    c.ipPreference < MAX_LOCAL_ADDRESSES && c.turnPreference < MAX_TURN_SERVERS && 1 <= c.component <= 256
  }

  function BaseTypePreference(c: Candidate): nat {
    match c.kind
    case Host => 120
    case PeerReflexive => 110
    case ServerReflexive => if c.natAssisted then 105 else 100
    case Relayed => if c.turnUdp then 30 else 20
  }

  function TypePreference(c: Candidate, reliable: bool): nat {
    if reliable == (c.transport == Udp) then BaseTypePreference(c) / 2 else BaseTypePreference(c)
  }

  function DirectionPreference(c: Candidate): nat {
    var direct := c.kind == ServerReflexive || c.kind == Host;
    match c.transport
    case TcpActive => if direct then 4 else 6
    case TcpPassive => if direct then 2 else 4
    case TcpSo => if direct then 6 else 2
    case Udp => 1
  }

  function LocalPreference(c: Candidate): nat {
    DirectionPreference(c) * 0x2000 + (if c.kind == Relayed then c.turnPreference else 0) * 0x40 + c.ipPreference
  }

  function PriorityFull(typePreference: nat, localPreference: nat, component: nat): u32 {
    (0x100_0000 * typePreference + 0x100 * localPreference + (0x100 - component)) % WORD
  }

  function CandidatePriority(c: Candidate, reliable: bool): u32 {
    PriorityFull(TypePreference(c, reliable), LocalPreference(c), c.component)
  }

  /** The priority is a number of three digits; it lies in the range the source documents. */
  lemma PriorityDigits(typePreference: nat, localPreference: nat, component: nat)
    requires typePreference <= 126 && localPreference <= 0xFFFF && 1 <= component <= 256
    ensures var p := PriorityFull(typePreference, localPreference, component);
            && p / 0x100_0000 == typePreference && p / 0x100 % 0x1_0000 == localPreference
            && p % 0x100 == 0x100 - component
            && p <= 0x7eff_ffff && (typePreference > 0 ==> p >= 1)
  {
    var low := 0x100 - component;
    var high := 0x1_0000 * typePreference + localPreference;
    var p := PriorityFull(typePreference, localPreference, component);
    assert p == 0x100 * high + low;
    assert p / 0x100 == high && p % 0x100 == low;
    assert high / 0x1_0000 == typePreference && high % 0x1_0000 == localPreference;
    assert p / 0x100_0000 == high / 0x1_0000;
  }

  lemma LocalPreferenceDigits(c: Candidate)
    requires InRange(c)
    ensures LocalPreference(c) <= 0xFFFF
    ensures LocalPreference(c) / 0x2000 == DirectionPreference(c)
    ensures LocalPreference(c) / 0x40 % 0x80 == if c.kind == Relayed then c.turnPreference else 0
    ensures LocalPreference(c) % 0x40 == c.ipPreference
  {
  }

  /** The candidate as far as the priority distinguishes it. */
  function Essence(c: Candidate): Candidate {
    c.(natAssisted := c.kind == ServerReflexive && c.natAssisted, turnUdp := c.kind == Relayed && c.turnUdp,
       turnPreference := if c.kind == Relayed then c.turnPreference else 0)
  }

  /**
   The priority is positive and at most 0x7effffff, and no two candidates that differ in type,
   transport, TURN server, address or component share one.
   */
  lemma PriorityUnique(c: Candidate, d: Candidate, reliable: bool)
    requires InRange(c) && InRange(d)
    ensures 1 <= CandidatePriority(c, reliable) <= 0x7eff_ffff
    ensures CandidatePriority(c, reliable) == CandidatePriority(d, reliable) <==> Essence(c) == Essence(d)
  {
    hide PriorityFull, LocalPreference;
    LocalPreferenceDigits(c);
    LocalPreferenceDigits(d);
    PriorityDigits(TypePreference(c, reliable), LocalPreference(c), c.component);
    PriorityDigits(TypePreference(d, reliable), LocalPreference(d), d.component);
    TypePreferenceUnique(c, d, reliable);
    if Essence(c) == Essence(d) {
      SamePreferences(c, d, reliable);
    }
  }

  lemma TypePreferenceUnique(c: Candidate, d: Candidate, reliable: bool)
    ensures TypePreference(c, reliable) == TypePreference(d, reliable)
            && DirectionPreference(c) == DirectionPreference(d) ==>
              && c.kind == d.kind && c.transport == d.transport
              && (c.kind == ServerReflexive ==> c.natAssisted == d.natAssisted)
              && (c.kind == Relayed ==> c.turnUdp == d.turnUdp)
  {
  }

  lemma SamePreferences(c: Candidate, d: Candidate, reliable: bool)
    requires Essence(c) == Essence(d)
    ensures TypePreference(c, reliable) == TypePreference(d, reliable)
    ensures LocalPreference(c) == LocalPreference(d) && c.component == d.component
  {
  }

  // The position of an address in the interface list.

  /** The address without its IPv6 scope. */
  function Unscoped(ip: string): string {
    if ip == [] || ip[0] == '%' then [] else [ip[0]] + Unscoped(ip[1..])
  }

  method IpLocalPreference(ip: string, ips: seq<string>) returns (preference: nat)
    ensures preference <= |ips|
    ensures forall i :: 0 <= i < preference ==> Unscoped(ips[i]) != ip
    ensures preference < |ips| ==> Unscoped(ips[preference]) == ip
  {
    preference := 0;
    while preference < |ips| && Unscoped(ips[preference]) != ip
      invariant preference <= |ips|
      invariant forall i :: 0 <= i < preference ==> Unscoped(ips[i]) != ip
    {
      preference := preference + 1;
    }
  }

  // Pairs.

  function Smaller32(a: u32, b: u32): u32 {
    if a < b then a else b
  }

  function Larger32(a: u32, b: u32): u32 {
    if a > b then a else b
  }

  /** `nice_candidate_pair_priority`; the doubled maximum is a 32-bit product. */
  function PairPriority(o: u32, a: u32): nat {
    WORD * Smaller32(o, a) + 2 * Larger32(o, a) % WORD + if o > a then 1 else 0
  }

  /** The formula of the standard, without a bound on the product. */
  function StandardPairPriority(g: nat, d: nat): nat {
    WORD * (if g < d then g else d) + 2 * (if g > d then g else d) + if g > d then 1 else 0
  }

  /** The source computes the standard's formula exactly for priorities below 2^31. */
  lemma PairPriorityStandard(o: u32, a: u32)
    ensures PairPriority(o, a) == StandardPairPriority(o, a) <==> o < HALF && a < HALF
  {
  }

  /** Which ordered pairs share a priority: those whose larger halves differ by 2^31. */
  lemma PairPriorityEqual(o: u32, a: u32, o': u32, a': u32)
    ensures PairPriority(o, a) == PairPriority(o', a') <==>
              && Smaller32(o, a) == Smaller32(o', a')
              && Larger32(o, a) % HALF == Larger32(o', a') % HALF
              && (o > a <==> o' > a')
  {
    hide PairPriority;
    PairDigits(o, a);
    PairDigits(o', a');
  }

  lemma PairDigits(o: u32, a: u32)
    ensures var p, bit := PairPriority(o, a), if o > a then 1 else 0;
            && p == WORD * Smaller32(o, a) + 2 * (Larger32(o, a) % HALF) + bit < WORD * WORD
            && p / WORD == Smaller32(o, a) && p / 2 % HALF == Larger32(o, a) % HALF && p % 2 == bit
  {
    var m := Larger32(o, a) % HALF;
    assert 2 * Larger32(o, a) % WORD == 2 * m;
    Digits(Smaller32(o, a), m, if o > a then 1 else 0);
  }

  lemma Digits(high: nat, middle: nat, bit: nat)
    requires middle < HALF && bit < 2
    ensures var p := WORD * high + 2 * middle + bit;
            p / WORD == high && p / 2 % HALF == middle && p % 2 == bit
  {
    assert (WORD * high + 2 * middle + bit) / 2 == HALF * high + middle;
  }

  /** Below 2^31 the priority names the ordered pair, and orders by minimum, then by maximum. */
  lemma PairPriorityOrder(o: u32, a: u32, o': u32, a': u32)
    requires o < HALF && a < HALF && o' < HALF && a' < HALF
    ensures PairPriority(o, a) == PairPriority(o', a') <==> o == o' && a == a'
    ensures PairPriority(o, a) < PairPriority(o', a') <==>
              || Smaller32(o, a) < Smaller32(o', a')
              || (Smaller32(o, a) == Smaller32(o', a') && Larger32(o, a) < Larger32(o', a'))
              || (Smaller32(o, a) == Smaller32(o', a') && Larger32(o, a) == Larger32(o', a') && o <= a && o' > a')
  {
    PairPriorityEqual(o, a, o', a');
    PairPriorityStandard(o, a);
    PairPriorityStandard(o', a');
  }

  /** `agent_candidate_pair_priority`: the controlling agent's candidate counts first. */
  function AgentPairPriority(controlling: bool, local: u32, remote: u32): nat {
    if controlling then PairPriority(local, remote) else PairPriority(remote, local)
  }

  /** Two agents in opposite roles see the same pairs mirrored, and rank them alike. */
  lemma AgentsAgree(controlling: bool, local: u32, remote: u32, local': u32, remote': u32)
    ensures AgentPairPriority(controlling, local, remote) == AgentPairPriority(!controlling, remote, local)
    ensures AgentPairPriority(controlling, local, remote) < AgentPairPriority(controlling, local', remote') <==>
            AgentPairPriority(!controlling, remote, local) < AgentPairPriority(!controlling, remote', local')
  {
  }
}
