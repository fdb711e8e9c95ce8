/**
 Foundations of local candidates (section 5.1.1.3 of RFC 8445) while candidates come and go, and
 the search for an unused remote foundation.
 */
module Foundations {
  import opened Optional
  import opened Wrap32
  import opened Priority
  import Decimal

  /** An IP address and port; an IPv6 scope of zero matches every scope. */
  datatype Address = V4(ip: nat, port: nat) | V6(ip: nat, scope: nat, port: nat)

  predicate EqualNoPort(a: Address, b: Address) {
    match (a, b)
    case (V4(i, _), V4(j, _)) => i == j
    case (V6(i, s, _), V6(j, t, _)) => i == j && (s == 0 || t == 0 || s == t)
    case _ => false
  }

  predicate EqualAddress(a: Address, b: Address) {
    EqualNoPort(a, b) && a.port == b.port
  }

  datatype Local = Local(kind: CandidateType, transport: Transport, addr: Address, base: Address,
                         turn: Option<Address>, foundation: string)

  /** `priv_compare_turn_servers`: servers are told apart by their address. */
  predicate SameServer(a: Option<Address>, b: Option<Address>) {
    if a.None? || b.None? then a == b else EqualNoPort(a.value, b.value)
  }

  /** The test in `priv_assign_foundation`, outside the Google compatibility mode. */
  predicate Matches(c: Local, n: Local) {
    && c.kind == n.kind && c.transport == n.transport && EqualNoPort(c.base, n.base)
    && (c.kind != Relayed || SameServer(c.turn, n.turn))
  }

  /** Type, transport, base address and, for a relay, server address: what a foundation stands for. */
  datatype Origin = Origin(kind: CandidateType, transport: Transport, base: Address, server: Option<Address>)

  function NoPort(a: Address): Address {
    a.(port := 0)
  }

  function OriginOf(c: Local): Origin {
    Origin(c.kind, c.transport, NoPort(c.base),
           if c.kind != Relayed || c.turn.None? then None else Some(NoPort(c.turn.value)))
  }

  /** Two forms of one IPv6 address agree on whether the scope is given. */
  predicate Alike(a: Address, b: Address) {
    a.V6? && b.V6? && a.ip == b.ip ==> (a.scope == 0 <==> b.scope == 0)
  }

  predicate Compatible(c: Local, d: Local) {
    Alike(c.base, d.base) && (c.turn.Some? && d.turn.Some? ==> Alike(c.turn.value, d.turn.value))
  }

  /** The comparison of addresses tells them apart exactly if they are alike. */
  lemma EqualAlike(a: Address, b: Address)
    ensures (EqualNoPort(a, b) <==> NoPort(a) == NoPort(b)) <==> Alike(a, b)
  {
  }

  /** Equal origins match; a match has equal origins exactly if the compared addresses are alike. */
  lemma MatchesOrigin(c: Local, n: Local)
    ensures OriginOf(c) == OriginOf(n) ==> Matches(c, n)
    ensures Matches(c, n) ==>
              (OriginOf(c) == OriginOf(n) <==>
               Alike(c.base, n.base) && (c.kind == Relayed && c.turn.Some? ==> Alike(c.turn.value, n.turn.value)))
    ensures Compatible(c, n) ==> (Matches(c, n) <==> OriginOf(c) == OriginOf(n))
  {
    EqualAlike(c.base, n.base);
    if c.turn.Some? && n.turn.Some? {
      EqualAlike(c.turn.value, n.turn.value);
    }
  }

  /** Otherwise the test is no equivalence: one address matches two that do not match. */
  lemma WildcardScope(ip: nat, s: nat, t: nat, port: nat)
    requires s != 0 && t != 0 && s != t
    ensures EqualNoPort(V6(ip, s, port), V6(ip, 0, port)) && EqualNoPort(V6(ip, 0, port), V6(ip, t, port))
    ensures !EqualNoPort(V6(ip, s, port), V6(ip, t, port))
  {
  }

  // Invariants.

  /** Among the candidates that exist, foundations tell origins apart, and only origins. */
  ghost predicate Separated(components: seq<seq<Local>>) {
    forall i, j, c, d {:trigger c in components[i], d in components[j]} ::
      0 <= i < |components| && c in components[i] && 0 <= j < |components| && d in components[j] ==>
        (c.foundation == d.foundation <==> OriginOf(c) == OriginOf(d))
  }

  /** No foundation ever stands for two origins, even of candidates that never existed together. */
  ghost predicate NeverShared(ever: set<Local>) {
    forall c, d :: c in ever && d in ever && c.foundation == d.foundation ==> OriginOf(c) == OriginOf(d)
  }

  /** Foundations are numbers below the next one. */
  ghost predicate Issued(ever: set<Local>, nextId: nat) {
    forall c :: c in ever ==> exists m: nat :: m < nextId && c.foundation == Decimal.Print(m)
  }

  ghost predicate Harmonious(ever: set<Local>) {
    forall c, d :: c in ever && d in ever ==> Compatible(c, d)
  }

  ghost predicate Among(components: seq<seq<Local>>, ever: set<Local>) {
    forall j, c {:trigger c in components[j]} :: 0 <= j < |components| && c in components[j] ==> c in ever
  }

  /** The search in `priv_assign_foundation`. */
  method FindMatch(components: seq<seq<Local>>, c: Local) returns (found: bool, f: string)
    ensures found ==> exists j, d :: 0 <= j < |components| && d in components[j] && Matches(c, d) && f == d.foundation
    ensures !found ==> forall j, d {:trigger d in components[j]} ::
              0 <= j < |components| && d in components[j] ==> !Matches(c, d)
  {
    for j := 0 to |components|
      invariant forall i, d {:trigger d in components[i]} :: 0 <= i < j && d in components[i] ==> !Matches(c, d)
    {
      for k := 0 to |components[j]|
        invariant forall i :: 0 <= i < k ==> !Matches(c, components[j][i])
      {
        if Matches(c, components[j][k]) {
          assert components[j][k] in components[j];
          return true, components[j][k].foundation;
        }
      }
    }
    return false, "";
  }

  lemma FreshFoundation(ever: set<Local>, nextId: nat, c: Local)
    requires Issued(ever, nextId) && c in ever
    ensures c.foundation != Decimal.Print(nextId)
  {
    var m: nat :| m < nextId && c.foundation == Decimal.Print(m);
    Decimal.PrintInjective(m, nextId);
  }

  /** The foundation itself plays no part in being compatible. */
  lemma HarmonyWithout(ever: set<Local>, c: Local, f: string)
    ensures Harmonious(ever + {c.(foundation := f)}) ==> Harmonious(ever + {c}) && Harmonious(ever)
  {
    var e := c.(foundation := f);
    if Harmonious(ever + {e}) {
      forall a, b | a in ever + {c} && b in ever + {c} ensures Compatible(a, b) {
        var a', b' := if a == c then e else a, if b == c then e else b;
        assert a' in ever + {e} && b' in ever + {e};
        assert Compatible(a', b');
      }
      assert ever <= ever + {e};
    }
  }

  class Gatherer {
    var components: seq<seq<Local>>
    var nextId: u32
    /** Every candidate that was ever added. */
    ghost var ever: set<Local>

    ghost predicate Valid()
      reads this
    {
      && Among(components, ever) && Issued(ever, nextId)
      && (Harmonious(ever) ==> Separated(components) && NeverShared(ever))
    }

    constructor (n: nat)
      ensures Valid() && components == seq(n, _ => []) && nextId == 1 && ever == {}
    {
      components := seq(n, _ => []);
      nextId := 1;
      ever := {};
    }

    /** `priv_assign_foundation`: that of a matching candidate, or else a fresh one. */
    method AssignFoundation(c: Local) returns (f: string)
      requires Valid() && nextId + 1 < WORD
      modifies `nextId
      ensures Valid() && old(nextId) <= nextId <= old(nextId) + 1
      ensures exists m: nat :: m < nextId && f == Decimal.Print(m)
      ensures if exists j, d :: 0 <= j < |components| && d in components[j] && Matches(c, d)
              then nextId == old(nextId) && exists j, d ::
                     0 <= j < |components| && d in components[j] && Matches(c, d) && f == d.foundation
              else nextId == old(nextId) + 1 && f == Decimal.Print(old(nextId))
      ensures Harmonious(ever + {c}) ==> forall j, d {:trigger d in components[j]} ::
                0 <= j < |components| && d in components[j] ==> (d.foundation == f <==> OriginOf(d) == OriginOf(c))
      ensures Harmonious(ever + {c}) ==> forall d :: d in ever && d.foundation == f ==> OriginOf(d) == OriginOf(c)
    {
      hide Matches, OriginOf, Compatible;
      var found;
      found, f := FindMatch(components, c);
      if Harmonious(ever + {c}) {
        assert Harmonious(ever);
        forall j, d {:trigger d in components[j]} | 0 <= j < |components| && d in components[j]
          ensures Matches(c, d) <==> OriginOf(c) == OriginOf(d)
        {
          assert d in ever + {c} && c in ever + {c};
          MatchesOrigin(c, d);
        }
      }
      if !found {
        forall d | d in ever ensures d.foundation != Decimal.Print(nextId) {
          FreshFoundation(ever, nextId, d);
        }
        f := Decimal.Print(nextId);
        nextId := nextId + 1;
      }
    }

    /** The test of `priv_add_local_candidate_pruned` (section 5.1.3 of RFC 8445). */
    static predicate Redundant(list: seq<Local>, c: Local) {
      exists d | d in list :: EqualAddress(d.base, c.base) && EqualAddress(d.addr, c.addr) && d.transport == c.transport
    }

    /** Gives a candidate its foundation and adds it, unless it is redundant. */
    method Add(j: nat, candidate: Local) returns (added: bool, f: string)
      requires Valid() && j < |components| && nextId + 1 < WORD
      modifies this
      ensures Valid() && old(nextId) <= nextId <= old(nextId) + 1 && |components| == |old(components)|
      ensures added <==> !Redundant(old(components)[j], candidate)
      ensures !added ==> components == old(components) && ever == old(ever)
      ensures added ==> components == old(components)[j := old(components)[j] + [candidate.(foundation := f)]]
      ensures added ==> ever == old(ever) + {candidate.(foundation := f)}
      ensures var was := old(components);
              (exists i, d :: 0 <= i < |was| && d in was[i] && Matches(candidate, d)) ==>
                exists i, d :: 0 <= i < |was| && d in was[i] && Matches(candidate, d) && f == d.foundation
    {
      hide Separated, Issued, NeverShared, EqualAddress, Matches, Harmonious;
      f := AssignFoundation(candidate);
      var c := candidate.(foundation := f);
      if Redundant(components[j], candidate) {
        return false, f;
      }
      ghost var before, was := components, ever;
      components := components[j := components[j] + [c]];
      ever := ever + {c};
      HarmonyWithout(was, candidate, f);
      AddKeeps(before, was, j, c);
      added := true;
    }

    lemma AddKeeps(before: seq<seq<Local>>, was: set<Local>, j: nat, c: Local)
      requires Among(before, was) && Issued(was, nextId)
      requires Harmonious(was) ==> Separated(before) && NeverShared(was)
      requires j < |before| && components == before[j := before[j] + [c]] && ever == was + {c}
      requires exists m: nat :: m < nextId && c.foundation == Decimal.Print(m)
      requires Harmonious(was + {c}) ==> Harmonious(was)
      requires Harmonious(was + {c}) ==> forall i, d {:trigger d in before[i]} ::
                 0 <= i < |before| && d in before[i] ==> (d.foundation == c.foundation <==> OriginOf(d) == OriginOf(c))
      requires Harmonious(was + {c}) ==>
                 forall d :: d in was && d.foundation == c.foundation ==> OriginOf(d) == OriginOf(c)
      ensures Valid()
    {
      hide OriginOf, Harmonious;
      forall i, d {:trigger d in components[i]} | 0 <= i < |components| && d in components[i]
        ensures d == c || d in before[i]
      {
      }
    }

    /** A candidate goes away; the others keep their foundations. */
    method Remove(j: nat, k: nat)
      requires Valid() && j < |components| && k < |components[j]|
      modifies `components
      ensures Valid() && |components| == |old(components)|
      ensures components == old(components)[j := old(components)[j][..k] + old(components)[j][k + 1..]]
    {
      hide OriginOf, Issued, NeverShared, Harmonious;
      ghost var before := components;
      components := components[j := components[j][..k] + components[j][k + 1..]];
      forall i, d {:trigger d in components[i]} | 0 <= i < |components| && d in components[i] ensures d in before[i] {
      }
    }
  }

  datatype Op = AddCandidate(component: nat, candidate: Local) | RemoveCandidate(component: nat, index: nat)

  function Bare(list: seq<Local>): (r: seq<Local>)
    ensures |r| == |list|
  {
    seq(|list|, k requires 0 <= k < |list| => list[k].(foundation := ""))
  }

  lemma BareRedundant(list: seq<Local>, c: Local)
    ensures Gatherer.Redundant(Bare(list), c) <==> Gatherer.Redundant(list, c)
  {
    hide EqualAddress;
    forall d | d in list ensures d.(foundation := "") in Bare(list) {
      var k :| 0 <= k < |list| && list[k] == d;
      assert Bare(list)[k] == d.(foundation := "");
    }
  }

  /** The candidates that exist after the operations, but for their foundations. */
  function Present(n: nat, ops: seq<Op>): (r: seq<seq<Local>>)
    ensures |r| == n
  {
    if ops == [] then seq(n, _ => [])
    else
      var before := Present(n, ops[..|ops| - 1]);
      match ops[|ops| - 1]
      case AddCandidate(j, c) =>
        if j < n && !Gatherer.Redundant(before[j], c) then before[j := before[j] + [c.(foundation := "")]] else before
      case RemoveCandidate(j, k) =>
        if j < n && k < |before[j]| then before[j := before[j][..k] + before[j][k + 1..]] else before
  }

  ghost predicate AreBare(components: seq<seq<Local>>, bare: seq<seq<Local>>) {
    |components| == |bare| && forall j {:trigger bare[j]} :: 0 <= j < |bare| ==> bare[j] == Bare(components[j])
  }

  lemma BareAdd(components: seq<seq<Local>>, bare: seq<seq<Local>>, j: nat, c: Local, f: string)
    requires AreBare(components, bare) && j < |bare|
    ensures AreBare(components[j := components[j] + [c.(foundation := f)]], bare[j := bare[j] + [c.(foundation := "")]])
  {
    assert Bare(components[j] + [c.(foundation := f)]) == Bare(components[j]) + [c.(foundation := "")];
  }

  lemma BareRemove(components: seq<seq<Local>>, bare: seq<seq<Local>>, j: nat, k: nat)
    requires AreBare(components, bare) && j < |bare| && k < |bare[j]|
    ensures AreBare(components[j := components[j][..k] + components[j][k + 1..]],
                    bare[j := bare[j][..k] + bare[j][k + 1..]])
  {
    assert Bare(components[j][..k] + components[j][k + 1..]) == Bare(components[j])[..k] + Bare(components[j])[k + 1..];
  }

  ghost predicate AllCompatible(ops: seq<Op>) {
    forall i, j :: 0 <= i < |ops| && ops[i].AddCandidate? && 0 <= j < |ops| && ops[j].AddCandidate? ==>
                     Compatible(ops[i].candidate, ops[j].candidate)
  }

  ghost predicate AddedBy(ops: seq<Op>, c: Local) {
    exists i :: 0 <= i < |ops| && ops[i].AddCandidate? && c == ops[i].candidate.(foundation := c.foundation)
  }

  lemma CompatibleHarmonious(ops: seq<Op>, ever: set<Local>)
    requires AllCompatible(ops) && forall c :: c in ever ==> AddedBy(ops, c)
    ensures Harmonious(ever)
  {
    forall c, d | c in ever && d in ever ensures Compatible(c, d) {
      assert AddedBy(ops, c) && AddedBy(ops, d);
    }
  }

  lemma AddedByMore(ops: seq<Op>, i: nat, c: Local)
    requires i < |ops|
             && (AddedBy(ops[..i], c) || (ops[i].AddCandidate? && c == ops[i].candidate.(foundation := c.foundation)))
    ensures AddedBy(ops[..i + 1], c)
  {
    if AddedBy(ops[..i], c) {
      var k :| 0 <= k < i && ops[k].AddCandidate? && c == ops[k].candidate.(foundation := c.foundation);
      assert ops[..i + 1][k] == ops[k];
    } else {
      assert ops[..i + 1][i] == ops[i];
    }
  }

  /**
   In every run whose candidates are compatible, two that exist at the same time have the same
   foundation exactly when they have the same origin. The bound is that of the 32-bit counter.
   */
  method Run(n: nat, ops: seq<Op>) returns (components: seq<seq<Local>>)
    requires |ops| + 2 < WORD
    ensures AreBare(components, Present(n, ops))
    ensures AllCompatible(ops) ==> Separated(components)
  {
    hide Separated, Issued, NeverShared, Among, AddedBy, Harmonious, Matches, Compatible, Bare, Gatherer.Redundant;
    var g := new Gatherer(n);
    for i := 0 to |ops|
      invariant g.Valid() && fresh(g) && |g.components| == n && g.nextId <= i + 1
      invariant AreBare(g.components, Present(n, ops[..i]))
      invariant forall c :: c in g.ever ==> AddedBy(ops[..i], c)
    {
      assert ops[..i + 1][..i] == ops[..i];
      match ops[i] {
        case AddCandidate(j, c) =>
          if j < |g.components| {
            BareRedundant(g.components[j], c);
            ghost var before := g.components;
            var added, f := g.Add(j, c);
            if added {
              BareAdd(before, Present(n, ops[..i]), j, c, f);
            }
          }
        case RemoveCandidate(j, k) =>
          if j < |g.components| && k < |g.components[j]| {
            BareRemove(g.components, Present(n, ops[..i]), j, k);
            g.Remove(j, k);
          }
      }
      forall c | c in g.ever ensures AddedBy(ops[..i + 1], c) {
        AddedByMore(ops, i, c);
      }
    }
    assert ops[..|ops|] == ops;
    if AllCompatible(ops) {
      CompatibleHarmonious(ops, g.ever);
    }
    return g.components;
  }

  function HostAt(a: Address, f: string): Local {
    Local(Host, Udp, a, a, None, f)
  }

  lemma WildcardFacts(a: Address, b: Address, c: Address, f: string)
    requires a.V6? && b.V6? && c.V6? && a.ip == b.ip == c.ip && b.scope == 0 && a.scope != 0 && c.scope != 0
    requires a.scope != c.scope && a.port != b.port && b.port != c.port
    ensures Matches(HostAt(b, ""), HostAt(a, f)) && Matches(HostAt(c, ""), HostAt(b, f))
    ensures !Matches(HostAt(c, ""), HostAt(a, f))
    ensures !Gatherer.Redundant([], HostAt(a, "")) && !Gatherer.Redundant([HostAt(a, f)], HostAt(b, ""))
    ensures !Gatherer.Redundant([HostAt(a, f), HostAt(b, f)], HostAt(c, ""))
    ensures OriginOf(HostAt(a, f)) != OriginOf(HostAt(b, f)) && OriginOf(HostAt(b, f)) != OriginOf(HostAt(c, f))
    ensures OriginOf(HostAt(a, f)) != OriginOf(HostAt(c, f))
  {
  }

  /** Without it: one address with two scopes and with none, and all three share a foundation. */
  method WildcardRun(ip: nat, s: nat, t: nat, port: nat) returns (list: seq<Local>)
    requires s != 0 && t != 0 && s != t
    ensures |list| == 3 && list[0].foundation == list[1].foundation == list[2].foundation
    ensures OriginOf(list[0]) != OriginOf(list[1]) && OriginOf(list[1]) != OriginOf(list[2])
    ensures OriginOf(list[0]) != OriginOf(list[2])
  {
    hide Gatherer.Valid, Gatherer.Redundant, Matches, OriginOf;
    var g := new Gatherer(1);
    var a, b, c := V6(ip, s, port), V6(ip, 0, port + 1), V6(ip, t, port);
    WildcardFacts(a, b, c, "");
    var added, f := g.Add(0, HostAt(a, ""));
    var x, y := HostAt(a, f), HostAt(b, f);
    WildcardFacts(a, b, c, f);
    assert g.components[0] == [x] && g.components == [[x]];
    added, f := g.Add(0, HostAt(b, ""));
    assert x in [[x]][0];
    assert g.components[0] == [x, y] && g.components == [[x, y]];
    added, f := g.Add(0, HostAt(c, ""));
    assert y in [[x, y]][0];
    list := g.components[0];
  }

  // Remote foundations.

  function RemoteName(n: nat): string {
    "remote" + Decimal.Print(n)
  }

  lemma RemoteNames(m: nat, n: nat)
    ensures RemoteName(m) == RemoteName(n) <==> m == n
  {
    Decimal.PrintInjective(m, n);
    assert RemoteName(m)[6..] == Decimal.Print(m) && RemoteName(n)[6..] == Decimal.Print(n);
  }

  ghost function Elements(s: seq<string>): set<string> {
    set x | x in s
  }

  lemma {:induction false} FewElements(s: seq<string>)
    ensures |Elements(s)| <= |s|
  {
    if s != [] {
      var n := |s| - 1;
      FewElements(s[..n]);
      assert s == s[..n] + [s[n]];
      assert Elements(s) == Elements(s[..n]) + {s[n]};
    }
  }

  /** The names 1 up to `n`. */
  ghost function Names(n: nat): set<string> {
    if n == 0 then {} else Names(n - 1) + {RemoteName(n)}
  }

  lemma {:induction false} NamesAre(n: nat)
    ensures |Names(n)| == n && forall x :: x in Names(n) ==> exists m: nat :: 1 <= m <= n && x == RemoteName(m)
  {
    hide RemoteName;
    if n > 0 {
      NamesAre(n - 1);
      if RemoteName(n) in Names(n - 1) {
        var m: nat :| 1 <= m <= n - 1 && RemoteName(n) == RemoteName(m);
        RemoteNames(m, n);
      }
    }
  }

  lemma Pigeonhole(foundations: seq<string>, n: nat)
    requires forall m: nat :: 1 <= m <= n ==> RemoteName(m) in foundations
    ensures n <= |foundations|
  {
    NamesAre(n);
    FewElements(foundations);
    Subset(Names(n), Elements(foundations));
  }

  lemma {:induction false} Subset(a: set<string>, b: set<string>)
    requires a <= b
    ensures |a| <= |b|
    decreases |a|
  {
    if a != {} {
      var x :| x in a;
      Subset(a - {x}, b - {x});
    }
  }

  /** `priv_highest_remote_foundation` ends, with the least number whose name is not taken. */
  method HighestRemoteFoundation(foundations: seq<string>) returns (highest: nat)
    ensures 1 <= highest <= |foundations| + 1 && RemoteName(highest) !in foundations
    ensures forall m: nat :: 1 <= m < highest ==> RemoteName(m) in foundations
  {
    hide RemoteName;
    highest := 1;
    while true
      invariant 1 <= highest <= |foundations| + 1
      invariant forall m: nat :: 1 <= m < highest ==> RemoteName(m) in foundations
      decreases |foundations| + 1 - highest
    {
      var taken := Taken(foundations, RemoteName(highest));
      if !taken {
        return;
      }
      Pigeonhole(foundations, highest);
      highest := highest + 1;
    }
  }

  method Taken(foundations: seq<string>, name: string) returns (taken: bool)
    ensures taken <==> name in foundations
  {
    for i := 0 to |foundations|
      invariant name !in foundations[..i]
    {
      if foundations[i] == name {
        return true;
      }
    }
    assert foundations[..|foundations|] == foundations;
    return false;
  }
}
