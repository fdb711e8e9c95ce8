/**
 Check lists on values: what one pass over the lists of candidate pairs does, and what it keeps.

 A pair is a value with an identity; where the source compares pointers, the model compares
 identities.
 */
module CheckList {
  import opened Wrap32
  import opened Priority

  datatype CheckState = Waiting | InProgress | Succeeded | Failed | Frozen | Discovered

  type CandidateId = nat

  datatype Pair = Pair(id: nat, component: nat, local: CandidateId, remote: CandidateId, foundation: string,
                       state: CheckState, nominated: bool, valid: bool, retransmit: bool, transactions: nat,
                       priority: nat)

  // Invariants.

  /** The candidates known on either side, with their priorities. */
  datatype Known = Known(locals: map<CandidateId, u32>, remotes: map<CandidateId, u32>)

  function PriorityOf(p: Pair, controlling: bool, known: Known): nat
    requires p.local in known.locals && p.remote in known.remotes
  {
    AgentPairPriority(controlling, known.locals[p.local], known.remotes[p.remote])
  }

  ghost predicate Sorted(list: seq<Pair>) {
    forall i, j :: 0 <= i < j < |list| ==> list[i].priority >= list[j].priority
  }

  ghost predicate Joins(list: seq<Pair>, known: Known) {
    forall p :: p in list ==> p.local in known.locals && p.remote in known.remotes
  }

  /** Every stored priority is the pair's priority under the present role. */
  ghost predicate Current(list: seq<Pair>, controlling: bool, known: Known)
    requires Joins(list, known)
  {
    forall p :: p in list ==> p.priority == PriorityOf(p, controlling, known)
  }

  ghost predicate Distinct(list: seq<Pair>, nextId: nat) {
    && (forall p :: p in list ==> p.id < nextId)
    && forall i, j :: 0 <= i < j < |list| ==> list[i].id != list[j].id
  }

  /** One list in good order. */
  ghost predicate Ordered(list: seq<Pair>, controlling: bool, known: Known, nextId: nat) {
    Sorted(list) && Joins(list, known) && Current(list, controlling, known) && Distinct(list, nextId)
  }

  /** The foundations that have a pair in state `st` in this list. */
  ghost function FoundationsIn(list: seq<Pair>, st: CheckState): set<string> {
    set p | p in list && p.state == st :: p.foundation
  }

  ghost function IdsIn(list: seq<Pair>): set<nat> {
    set p | p in list :: p.id
  }

  /** The components that have a nominated pair in this list. */
  ghost function NominatedIn(list: seq<Pair>): set<nat> {
    set p | p in list && p.nominated :: p.component
  }

  /** No frozen pair in any list shares a foundation with a succeeded pair. */
  ghost predicate Thawed(lists: seq<seq<Pair>>) {
    forall s, t {:trigger lists[s], lists[t]} :: 0 <= s < |lists| && 0 <= t < |lists| ==>
      FoundationsIn(lists[s], Succeeded) !! FoundationsIn(lists[t], Frozen)
  }

  ghost predicate NoDuplicates(queue: seq<nat>) {
    forall i, j :: 0 <= i < j < |queue| ==> queue[i] != queue[j]
  }

  /** Every queued pair is still in a list. */
  ghost predicate Live(queue: seq<nat>, lists: seq<seq<Pair>>) {
    NoDuplicates(queue) && forall id :: id in queue ==> exists s :: 0 <= s < |lists| && id in IdsIn(lists[s])
  }

  /** The same pairs, but for their foundation, their state and their flags. */
  ghost predicate Alike(list: seq<Pair>, r: seq<Pair>) {
    && |r| == |list|
    && forall k {:trigger r[k]} :: 0 <= k < |r| ==>
         r[k] == list[k].(foundation := r[k].foundation, state := r[k].state, nominated := r[k].nominated,
                          valid := r[k].valid, retransmit := r[k].retransmit, transactions := r[k].transactions)
  }

  lemma AlikeOrdered(list: seq<Pair>, r: seq<Pair>, controlling: bool, known: Known, nextId: nat)
    requires Ordered(list, controlling, known, nextId) && Alike(list, r)
    ensures Ordered(r, controlling, known, nextId) && IdsIn(r) == IdsIn(list)
  {
    forall p | p in r
      ensures exists q :: q in list && p.id == q.id && p.local == q.local && p.remote == q.remote
                          && p.priority == q.priority
    {
      var k :| 0 <= k < |r| && r[k] == p;
      assert list[k] in list;
    }
    forall id | id in IdsIn(list) ensures id in IdsIn(r) {
      var k :| 0 <= k < |list| && list[k].id == id;
      assert r[k] in r;
    }
  }

  // Sorted insertion and sorting.

  /** `g_slist_insert_sorted` with `conn_check_compare`. */
  method InsertSorted(list: seq<Pair>, p: Pair, ghost nextId: nat) returns (r: seq<Pair>)
    requires Sorted(list) && Distinct(list, nextId) && p.id < nextId && p.id !in IdsIn(list)
    ensures Sorted(r) && Distinct(r, nextId)
    ensures forall q :: q in r <==> q in list || q == p
    ensures |r| == |list| + 1
  {
    var k := 0;
    while k < |list| && list[k].priority > p.priority
      invariant 0 <= k <= |list|
      invariant forall i :: 0 <= i < k ==> list[i].priority > p.priority
    {
      k := k + 1;
    }
    Inserted(list, k, p, nextId);
    r := list[..k] + [p] + list[k..];
  }

  lemma Inserted(list: seq<Pair>, k: nat, p: Pair, nextId: nat)
    requires Sorted(list) && Distinct(list, nextId) && p.id < nextId && p.id !in IdsIn(list)
    requires k <= |list| && (forall i :: 0 <= i < k ==> list[i].priority > p.priority)
    requires k < |list| ==> list[k].priority <= p.priority
    ensures var r := list[..k] + [p] + list[k..];
            && Sorted(r) && Distinct(r, nextId)
            && forall q :: q in r <==> q in list || q == p
  {
    hide *;
    var r := list[..k] + [p] + list[k..];
    InsertedSorted(list, k, p, r);
    forall q ensures q in r <==> q in list || q == p {
      InsertedMember(list, k, p, q);
    }
    InsertedDistinct(list, k, p, r, nextId);
  }

  lemma InsertedSorted(list: seq<Pair>, k: nat, p: Pair, r: seq<Pair>)
    requires Sorted(list) && k <= |list| && (forall i :: 0 <= i < k ==> list[i].priority > p.priority)
    requires (k < |list| ==> list[k].priority <= p.priority) && r == list[..k] + [p] + list[k..]
    ensures Sorted(r)
  {
    forall i | 0 <= i < |r| ensures r[i] == if i < k then list[i] else if i == k then p else list[i - 1] {
    }
  }

  lemma InsertedDistinct(list: seq<Pair>, k: nat, p: Pair, r: seq<Pair>, nextId: nat)
    requires Distinct(list, nextId) && p.id < nextId && p.id !in IdsIn(list)
    requires k <= |list| && r == list[..k] + [p] + list[k..] && (forall q :: q in r <==> q in list || q == p)
    ensures Distinct(r, nextId)
  {
    forall i | 0 <= i < |list| ensures list[i].id != p.id {
      assert list[i] in list;
    }
    forall i | 0 <= i < |r| ensures r[i] == if i < k then list[i] else if i == k then p else list[i - 1] {
    }
  }

  lemma InsertedMember(list: seq<Pair>, k: nat, p: Pair, q: Pair)
    requires k <= |list|
    ensures q in list[..k] + [p] + list[k..] <==> q in list || q == p
  {
    assert list == list[..k] + list[k..];
  }

  method SortByPriority(list: seq<Pair>, ghost nextId: nat) returns (r: seq<Pair>)
    requires Distinct(list, nextId)
    ensures Sorted(r) && Distinct(r, nextId) && |r| == |list|
    ensures forall q :: q in r <==> q in list
  {
    r := [];
    var k := |list|;
    while k > 0
      invariant 0 <= k <= |list| && |r| == |list| - k && Sorted(r) && Distinct(r, nextId)
      invariant forall q :: q in r <==> q in list[k..]
    {
      k := k - 1;
      assert list[k..] == [list[k]] + list[k + 1..];
      r := InsertSorted(r, list[k], nextId);
    }
    assert list[0..] == list;
  }

  // Freezing.

  /** The foundations that have a frozen pair in the first `s` lists. */
  ghost function FrozenBefore(lists: seq<seq<Pair>>, s: nat): set<string>
    requires s <= |lists|
  {
    if s == 0 then {} else FrozenBefore(lists, s - 1) + FoundationsIn(lists[s - 1], Frozen)
  }

  /** The `k`-th pair of the list is the first frozen one of its foundation, which is not in `seen`. */
  ghost predicate First(list: seq<Pair>, k: nat, seen: set<string>)
    requires k < |list|
  {
    list[k].state == Frozen && list[k].foundation !in seen && list[k].foundation !in FoundationsIn(list[..k], Frozen)
  }

  /** `r` is the list with the first frozen pair of each foundation not in `seen` waiting. */
  ghost predicate Thaws(list: seq<Pair>, r: seq<Pair>, seen: set<string>) {
    && |r| == |list|
    && forall k {:trigger r[k]} :: 0 <= k < |list| ==>
         r[k] == if First(list, k, seen) then list[k].(state := Waiting) else list[k]
  }

  ghost predicate HasState(list: seq<Pair>, st: CheckState) {
    exists p :: p in list && p.state == st
  }

  ghost predicate AnyHasState(lists: seq<seq<Pair>>, st: CheckState) {
    exists s :: 0 <= s < |lists| && HasState(lists[s], st)
  }

  /** The inner loop of the unfreeze pass. */
  method ThawList(list: seq<Pair>, seen: set<string>) returns (r: seq<Pair>, seen': set<string>, any: bool)
    ensures Thaws(list, r, seen) && seen' == seen + FoundationsIn(list, Frozen)
    ensures any ==> HasState(r, Waiting)
    ensures !any ==> seen' == seen && r == list
  {
    hide FoundationsIn;
    r, seen', any := list, seen, false;
    ghost var w := 0;
    FrozenInNothing();
    for k := 0 to |list|
      invariant |r| == |list|
      invariant forall i {:trigger r[i]} :: 0 <= i < k ==>
                  r[i] == if First(list, i, seen) then list[i].(state := Waiting) else list[i]
      invariant forall i {:trigger r[i]} :: k <= i < |list| ==> r[i] == list[i]
      invariant seen' == seen + FoundationsIn(list[..k], Frozen)
      invariant any ==> 0 <= w < k && r[w].state == Waiting
      invariant !any ==> seen' == seen && r == list
    {
      FrozenInNext(list, k);
      if r[k].foundation !in seen' && r[k].state == Frozen {
        r := r[k := r[k].(state := Waiting)];
        seen' := seen' + {list[k].foundation};
        any, w := true, k;
      }
    }
    assert list[..|list|] == list;
    assert any ==> r[w] in r;
  }

  lemma FrozenInNothing()
    ensures FoundationsIn([], Frozen) == {}
  {
  }

  lemma FrozenInNext(list: seq<Pair>, k: nat)
    requires k < |list|
    ensures FoundationsIn(list[..k + 1], Frozen)
         == FoundationsIn(list[..k], Frozen) + if list[k].state == Frozen then {list[k].foundation} else {}
  {
    assert list[..k + 1] == list[..k] + [list[k]];
    assert list[k] in list[..k + 1];
  }

  method FindState(lists: seq<seq<Pair>>, st: CheckState) returns (found: bool)
    ensures found <==> AnyHasState(lists, st)
  {
    for s := 0 to |lists|
      invariant forall t :: 0 <= t < s ==> !HasState(lists[t], st)
    {
      for k := 0 to |lists[s]|
        invariant forall i :: 0 <= i < k ==> lists[s][i].state != st
      {
        if lists[s][k].state == st {
          assert lists[s][k] in lists[s];
          return true;
        }
      }
    }
    return false;
  }

  /**
   The unfreeze pass: nothing changes while a pair is waiting; otherwise exactly the first frozen
   pair of each foundation, in the order of streams and of each list, starts waiting.
   */
  method ThawNext(lists: seq<seq<Pair>>) returns (r: seq<seq<Pair>>, result: bool)
    ensures |r| == |lists|
    ensures AnyHasState(lists, Waiting) ==> r == lists
    ensures !AnyHasState(lists, Waiting) ==>
              forall s {:trigger r[s]} :: 0 <= s < |lists| ==> Thaws(lists[s], r[s], FrozenBefore(lists, s))
    ensures result <==> AnyHasState(r, Waiting)
    ensures !result ==> r == lists && !AnyHasState(lists, Frozen)
  {
    hide Thaws, HasState, FoundationsIn;
    var waiting := FindState(lists, Waiting);
    if waiting {
      return lists, true;
    }
    r, result := lists, false;
    var seen: set<string> := {};
    ghost var w := 0;
    for s := 0 to |lists|
      invariant |r| == |lists| && seen == FrozenBefore(lists, s)
      invariant forall t {:trigger r[t]} :: 0 <= t < s ==> Thaws(lists[t], r[t], FrozenBefore(lists, t))
      invariant forall t {:trigger r[t]} :: s <= t < |lists| ==> r[t] == lists[t]
      invariant result ==> 0 <= w < s && HasState(r[w], Waiting)
      invariant !result ==> seen == {} && r == lists
    {
      var list', seen', any := ThawList(r[s], seen);
      if any {
        w := s;
      }
      r, seen, result := r[s := list'], seen', result || any;
    }
    if !result {
      NoneFrozen(lists);
    }
  }

  lemma {:induction false} FrozenBeforeGrows(lists: seq<seq<Pair>>, s: nat, t: nat)
    requires s <= t <= |lists|
    ensures FrozenBefore(lists, s) <= FrozenBefore(lists, t)
  {
    if s < t {
      FrozenBeforeGrows(lists, s, t - 1);
    }
  }

  lemma NoneFrozen(lists: seq<seq<Pair>>)
    requires FrozenBefore(lists, |lists|) == {}
    ensures !AnyHasState(lists, Frozen)
  {
    forall s, p | 0 <= s < |lists| && p in lists[s] ensures p.state != Frozen {
      FrozenBeforeGrows(lists, s + 1, |lists|);
      assert p.state == Frozen ==> p.foundation in FoundationsIn(lists[s], Frozen);
    }
  }

  /** With no frozen pair there is nothing to thaw. */
  lemma ThawsNothing(lists: seq<seq<Pair>>, r: seq<seq<Pair>>)
    requires !AnyHasState(lists, Frozen) && |r| == |lists|
    requires forall s {:trigger r[s]} :: 0 <= s < |lists| ==> Thaws(lists[s], r[s], FrozenBefore(lists, s))
    ensures r == lists
  {
    forall s | 0 <= s < |lists| ensures r[s] == lists[s] {
      forall k | 0 <= k < |lists[s]| ensures r[s][k] == lists[s][k] {
        assert !HasState(lists[s], Frozen);
        assert lists[s][k] in lists[s];
      }
    }
  }

  /** A second pass changes nothing. */
  method ThawTwice(lists: seq<seq<Pair>>) returns (once: seq<seq<Pair>>, twice: seq<seq<Pair>>)
    ensures twice == once
  {
    hide Thaws, HasState;
    var any, again;
    once, any := ThawNext(lists);
    twice, again := ThawNext(once);
    if !any {
      ThawsNothing(once, twice);
    }
  }

  /** Nothing but frozen pairs that start waiting. */
  ghost predicate Unfreezes(list: seq<Pair>, r: seq<Pair>) {
    && |r| == |list|
    && forall k {:trigger r[k]} :: 0 <= k < |r| ==>
         r[k] == list[k] || (list[k].state == Frozen && r[k] == list[k].(state := Waiting))
  }

  lemma UnfreezesKeeps(list: seq<Pair>, r: seq<Pair>)
    requires Unfreezes(list, r)
    ensures Alike(list, r) && NominatedIn(r) <= NominatedIn(list)
    ensures FoundationsIn(r, Succeeded) <= FoundationsIn(list, Succeeded)
    ensures FoundationsIn(r, Frozen) <= FoundationsIn(list, Frozen)
  {
    forall p | p in r ensures exists q :: q in list && (p == q || (p.state == Waiting && p == q.(state := Waiting))) {
      var k :| 0 <= k < |r| && r[k] == p;
      assert list[k] in list;
    }
  }

  /** No pair changes but those of one foundation. */
  ghost predicate OnlyChanges(list: seq<Pair>, r: seq<Pair>, f: string) {
    |r| == |list| && forall k {:trigger r[k]} :: 0 <= k < |list| && r[k] != list[k] ==> list[k].foundation == f
  }

  /** After a success: every frozen pair of the same foundation starts waiting. */
  method ThawFoundation(list: seq<Pair>, f: string) returns (r: seq<Pair>)
    ensures Unfreezes(list, r) && f !in FoundationsIn(r, Frozen)
    ensures OnlyChanges(list, r, f)
  {
    r := list;
    for k := 0 to |list|
      invariant |r| == |list|
      invariant forall i {:trigger r[i]} :: 0 <= i < k ==>
                  r[i] == if list[i].state == Frozen && list[i].foundation == f
                          then list[i].(state := Waiting) else list[i]
      invariant forall i {:trigger r[i]} :: k <= i < |list| ==> r[i] == list[i]
    {
      if r[k].state == Frozen && r[k].foundation == f {
        r := r[k := r[k].(state := Waiting)];
      }
    }
  }

  /** Whether a pair of this foundation has succeeded in some list. */
  method HasSucceeded(lists: seq<seq<Pair>>, f: string) returns (found: bool)
    ensures found <==> exists s :: 0 <= s < |lists| && f in FoundationsIn(lists[s], Succeeded)
  {
    for s := 0 to |lists|
      invariant forall t :: 0 <= t < s ==> f !in FoundationsIn(lists[t], Succeeded)
    {
      for k := 0 to |lists[s]|
        invariant forall i :: 0 <= i < k ==> !(lists[s][i].state == Succeeded && lists[s][i].foundation == f)
      {
        if lists[s][k].state == Succeeded && lists[s][k].foundation == f {
          assert lists[s][k] in lists[s];
          return true;
        }
      }
    }
    return false;
  }

  /** Changing the state and the flags of one pair. */
  lemma UpdateKeeps(list: seq<Pair>, k: nat, p: Pair)
    requires k < |list|
    requires p == list[k].(foundation := p.foundation, state := p.state, nominated := p.nominated, valid := p.valid,
                           retransmit := p.retransmit, transactions := p.transactions)
    ensures Alike(list, list[k := p])
    ensures NominatedIn(list[k := p]) <= NominatedIn(list) + if p.nominated then {p.component} else {}
    ensures forall st :: FoundationsIn(list[k := p], st)
                      <= FoundationsIn(list, st) + if p.state == st then {p.foundation} else {}
  {
    var r := list[k := p];
    forall q | q in r ensures q == p || q in list {
      var i :| 0 <= i < |r| && r[i] == q;
      assert i != k ==> list[i] in list;
    }
  }

  lemma SubsetKeeps(list: seq<Pair>, r: seq<Pair>)
    requires forall q :: q in r ==> q in list
    ensures NominatedIn(r) <= NominatedIn(list) && IdsIn(r) <= IdsIn(list)
    ensures forall st :: FoundationsIn(r, st) <= FoundationsIn(list, st)
  {
  }

  // The triggered-check queue.

  /** `g_slist_remove`: the first occurrence goes, which is the only one. */
  method Unqueue(queue: seq<nat>, id: nat) returns (r: seq<nat>)
    requires NoDuplicates(queue)
    ensures NoDuplicates(r) && forall q :: q in r <==> q in queue && q != id
    ensures id !in queue ==> r == queue
  {
    var k := 0;
    while k < |queue| && queue[k] != id
      invariant 0 <= k <= |queue|
      invariant id !in queue[..k]
    {
      k := k + 1;
    }
    if k == |queue| {
      assert queue == queue[..k];
      return queue;
    }
    r := queue[..k] + queue[k + 1..];
    assert queue == queue[..k] + [queue[k]] + queue[k + 1..];
    forall i | 0 <= i < |r| ensures r[i] == queue[if i < k then i else i + 1] {
    }
  }

  // Removing pairs.

  /** Of the first `k` pairs, those marked to be kept. */
  ghost function Sift(list: seq<Pair>, keep: seq<bool>, k: nat): seq<Pair>
    requires k <= |list| == |keep|
  {
    if k == 0 then [] else Sift(list, keep, k - 1) + if keep[k - 1] then [list[k - 1]] else []
  }

  ghost function Dropped(list: seq<Pair>, keep: seq<bool>, k: nat): set<nat>
    requires k <= |list| == |keep|
  {
    set i | 0 <= i < k && !keep[i] :: list[i].id
  }

  lemma {:induction false} SiftMembers(list: seq<Pair>, keep: seq<bool>, k: nat)
    requires k <= |list| == |keep|
    ensures forall q :: q in Sift(list, keep, k) <==> exists i :: 0 <= i < k && keep[i] && q == list[i]
  {
    if k > 0 {
      SiftMembers(list, keep, k - 1);
    }
  }

  lemma {:induction false} SiftShorter(list: seq<Pair>, keep: seq<bool>, k: nat, i: nat)
    requires i < k <= |list| == |keep| && !keep[i]
    ensures |Sift(list, keep, k)| < k
  {
    if i < k - 1 {
      SiftShorter(list, keep, k - 1, i);
    } else {
      SiftLength(list, keep, k - 1);
    }
  }

  lemma SiftHolds(list: seq<Pair>, keep: seq<bool>, k: nat, i: nat)
    requires i < k <= |list| == |keep| && keep[i]
    ensures list[i] in Sift(list, keep, k)
  {
    SiftMembers(list, keep, k);
  }

  /** What is kept never moves back in the list. */
  lemma {:induction false} SiftPlace(list: seq<Pair>, keep: seq<bool>, k: nat, j: nat)
    requires k <= |list| == |keep| && j < |Sift(list, keep, k)|
    ensures exists i :: j <= i < k && keep[i] && Sift(list, keep, k)[j] == list[i]
  {
    SiftLength(list, keep, k - 1);
    if j < |Sift(list, keep, k - 1)| {
      SiftPlace(list, keep, k - 1, j);
    } else {
      assert j <= k - 1 && keep[k - 1] && Sift(list, keep, k)[j] == list[k - 1];
    }
  }

  lemma {:induction false} SiftLength(list: seq<Pair>, keep: seq<bool>, k: nat)
    requires k <= |list| == |keep|
    ensures |Sift(list, keep, k)| <= k
  {
    if k > 0 {
      SiftLength(list, keep, k - 1);
    }
  }

  lemma AppendOrdered(list: seq<Pair>, p: Pair, controlling: bool, known: Known, nextId: nat)
    requires Ordered(list, controlling, known, nextId) && Ordered([p], controlling, known, nextId)
    requires forall q :: q in list ==> q.priority >= p.priority && q.id != p.id
    ensures Ordered(list + [p], controlling, known, nextId)
  {
    assert p in [p];
    forall i | 0 <= i < |list| ensures list[i].priority >= p.priority && list[i].id != p.id {
      assert list[i] in list;
    }
  }

  lemma SiftBefore(list: seq<Pair>, keep: seq<bool>, k: nat, controlling: bool, known: Known, nextId: nat)
    requires k < |list| == |keep| && Ordered(list, controlling, known, nextId)
    ensures forall q :: q in Sift(list, keep, k) ==> q.priority >= list[k].priority && q.id != list[k].id
    ensures Ordered([list[k]], controlling, known, nextId)
  {
    SiftMembers(list, keep, k);
    assert list[k] in list;
  }

  lemma {:induction false} SiftOrdered(list: seq<Pair>, keep: seq<bool>, k: nat, controlling: bool, known: Known,
                                       nextId: nat)
    requires k <= |list| == |keep| && Ordered(list, controlling, known, nextId)
    ensures Ordered(Sift(list, keep, k), controlling, known, nextId)
  {
    if k > 0 {
      SiftOrdered(list, keep, k - 1, controlling, known, nextId);
      SiftBefore(list, keep, k - 1, controlling, known, nextId);
      if keep[k - 1] {
        AppendOrdered(Sift(list, keep, k - 1), list[k - 1], controlling, known, nextId);
      }
    }
  }

  /** What is kept is a part of the list, and an identity is kept or dropped. */
  lemma SiftKeeps(list: seq<Pair>, keep: seq<bool>)
    requires |list| == |keep|
    ensures forall q :: q in Sift(list, keep, |list|) ==> q in list
    ensures IdsIn(list) == IdsIn(Sift(list, keep, |list|)) + Dropped(list, keep, |list|)
  {
    SiftMembers(list, keep, |list|);
    var r := Sift(list, keep, |list|);
    forall id | id in IdsIn(list) ensures id in IdsIn(r) + Dropped(list, keep, |list|) {
      var k :| 0 <= k < |list| && list[k].id == id;
      assert keep[k] ==> list[k] in r;
    }
    forall id | id in Dropped(list, keep, |list|) ensures id in IdsIn(list) {
      var k :| 0 <= k < |list| && list[k].id == id;
      assert list[k] in list;
    }
  }

  /** `valid` in the source counts every pair visited, so the limit applies to the position in the old list. */
  predicate OverLimit(list: seq<Pair>, k: nat, max: nat)
    requires k < |list|
  {
    (k >= max && list[k].state == Frozen) || list[k].state == Failed
  }

  ghost function WithinLimit(list: seq<Pair>, max: nat): (keep: seq<bool>)
    ensures |keep| == |list|
  {
    seq(|list|, k requires 0 <= k < |list| => !OverLimit(list, k, max))
  }

  /** Drops failed pairs, and frozen ones beyond the limit. */
  method LimitList(list: seq<Pair>, max: nat, queue: seq<nat>) returns (r: seq<Pair>, queue': seq<nat>)
    requires NoDuplicates(queue)
    ensures r == Sift(list, WithinLimit(list, max), |list|) && NoDuplicates(queue')
    ensures forall id :: id in queue' <==> id in queue && id !in Dropped(list, WithinLimit(list, max), |list|)
  {
    r, queue' := [], queue;
    ghost var keep := WithinLimit(list, max);
    for k := 0 to |list|
      invariant r == Sift(list, keep, k) && NoDuplicates(queue')
      invariant forall id :: id in queue' <==> id in queue && id !in Dropped(list, keep, k)
    {
      DroppedNext(list, keep, k);
      if OverLimit(list, k, max) {
        queue' := Unqueue(queue', list[k].id);
      } else {
        r := r + [list[k]];
      }
    }
  }

  lemma DroppedNext(list: seq<Pair>, keep: seq<bool>, k: nat)
    requires k < |list| == |keep|
    ensures Dropped(list, keep, k + 1) == Dropped(list, keep, k) + if keep[k] then {} else {list[k].id}
  {
  }

  // Pruning after nomination.

  /** What pruning does to a pair that stays. */
  function Settle(p: Pair, component: nat, priority: nat): Pair {
    if p.component != component || p.state != InProgress then p
    else if p.priority < priority then p.(retransmit := false)
    else p.(retransmit := p.retransmit || p.transactions > 0)
  }

  /** Whether pruning keeps a pair: a queued one by its priority, else by its state. */
  predicate Stays(p: Pair, component: nat, priority: nat, queued: bool) {
    || p.component != component
    || (if queued && p.state != InProgress then p.priority >= priority
        else p.state != Frozen && p.state != Waiting)
  }

  /** A pair that still keeps the component from becoming ready. */
  predicate Pending(p: Pair, component: nat, priority: nat, queued: bool) {
    p.component == component && p.priority >= priority && (p.state == InProgress || queued)
  }

  ghost function Settled(list: seq<Pair>, component: nat, priority: nat): (r: seq<Pair>)
    ensures |r| == |list|
  {
    seq(|list|, k requires 0 <= k < |list| => Settle(list[k], component, priority))
  }

  ghost function Staying(list: seq<Pair>, component: nat, priority: nat, queue: seq<nat>): (keep: seq<bool>)
    ensures |keep| == |list|
  {
    seq(|list|, k requires 0 <= k < |list| => Stays(list[k], component, priority, list[k].id in queue))
  }

  /** The loop of `priv_prune_pending_checks`. */
  method PruneList(list: seq<Pair>, component: nat, priority: nat, queue: seq<nat>, ghost nextId: nat)
    returns (r: seq<Pair>, queue': seq<nat>, pending: nat)
    requires NoDuplicates(queue) && Distinct(list, nextId)
    ensures r == Sift(Settled(list, component, priority), Staying(list, component, priority, queue), |list|)
    ensures NoDuplicates(queue')
    ensures forall id :: id in queue' <==> id in queue && id !in Unqueued(list, component, priority, queue, |list|)
    ensures pending == PendingIn(list, component, priority, queue, |list|)
  {
    hide Distinct;
    r, queue', pending := [], queue, 0;
    ghost var settled := Settled(list, component, priority);
    ghost var keep := Staying(list, component, priority, queue);
    for k := 0 to |list|
      invariant r == Sift(settled, keep, k) && NoDuplicates(queue')
      invariant forall id :: id in queue' <==> id in queue && id !in Unqueued(list, component, priority, queue, k)
      invariant pending == PendingIn(list, component, priority, queue, k)
    {
      var p := list[k];
      UnqueuedNext(list, component, priority, queue, k, nextId);
      if p.component != component {
        r := r + [p];
      } else if p.id in queue' && p.state != InProgress {
        if p.priority < priority {
          queue' := Unqueue(queue', p.id);
        } else {
          pending := pending + 1;
          r := r + [p];
        }
      } else if p.state == Frozen || p.state == Waiting {
        queue' := Unqueue(queue', p.id);
      } else if p.state == InProgress {
        if p.priority < priority {
          queue' := Unqueue(queue', p.id);
          r := r + [p.(retransmit := false)];
        } else {
          r := r + [if !p.retransmit && p.transactions > 0 then p.(retransmit := true) else p];
          pending := pending + 1;
        }
      } else {
        r := r + [p];
      }
    }
  }

  /** Whether pruning takes the pair out of the queue. */
  predicate Cancelled(p: Pair, component: nat, priority: nat, queued: bool) {
    || !Stays(p, component, priority, queued)
    || (p.component == component && p.state == InProgress && p.priority < priority)
  }

  ghost function Unqueued(list: seq<Pair>, component: nat, priority: nat, queue: seq<nat>, k: nat): set<nat>
    requires k <= |list|
  {
    set i | 0 <= i < k && Cancelled(list[i], component, priority, list[i].id in queue) :: list[i].id
  }

  ghost function PendingIn(list: seq<Pair>, component: nat, priority: nat, queue: seq<nat>, k: nat): nat
    requires k <= |list|
  {
    if k == 0 then 0
    else PendingIn(list, component, priority, queue, k - 1)
         + if Pending(list[k - 1], component, priority, list[k - 1].id in queue) then 1 else 0
  }

  lemma UnqueuedNext(list: seq<Pair>, component: nat, priority: nat, queue: seq<nat>, k: nat, nextId: nat)
    requires k < |list| && Distinct(list, nextId)
    ensures list[k].id !in Unqueued(list, component, priority, queue, k)
    ensures Unqueued(list, component, priority, queue, k + 1) == Unqueued(list, component, priority, queue, k)
              + if Cancelled(list[k], component, priority, list[k].id in queue) then {list[k].id} else {}
  {
  }

  /** `r` and `queue'` are what pruning leaves. */
  ghost predicate Prunes(list: seq<Pair>, component: nat, priority: nat, queue: seq<nat>, r: seq<Pair>,
                         queue': seq<nat>) {
    && r == Sift(Settled(list, component, priority), Staying(list, component, priority, queue), |list|)
    && forall id :: id in queue' <==> id in queue && id !in Unqueued(list, component, priority, queue, |list|)
  }

  lemma PrunedQueue(list: seq<Pair>, component: nat, priority: nat, queue: seq<nat>, r: seq<Pair>, queue': seq<nat>,
                    k: nat, nextId: nat)
    requires Prunes(list, component, priority, queue, r, queue') && Distinct(list, nextId) && k < |list|
    ensures list[k].id in queue' <==>
            list[k].id in queue && !Cancelled(list[k], component, priority, list[k].id in queue)
  {
  }

  /** Pairs of other components are untouched, and so is their place in the queue. */
  lemma PruneSparesOthers(list: seq<Pair>, component: nat, priority: nat, queue: seq<nat>, r: seq<Pair>,
                          queue': seq<nat>, nextId: nat)
    requires Prunes(list, component, priority, queue, r, queue') && Distinct(list, nextId)
    ensures forall p: Pair :: p.component != component ==> (p in r <==> p in list)
    ensures forall p :: p in list && p.component != component ==> (p.id in queue' <==> p.id in queue)
  {
    var settled, keep := Settled(list, component, priority), Staying(list, component, priority, queue);
    SiftMembers(settled, keep, |list|);
    forall k | 0 <= k < |list| && list[k].component != component
      ensures list[k] in r && (list[k].id in queue' <==> list[k].id in queue)
    {
      PrunedQueue(list, component, priority, queue, r, queue', k, nextId);
      assert keep[k] && settled[k] == list[k];
    }
  }

  /**
   The component keeps no frozen or waiting pair but queued ones of at least the selected
   priority; a check in progress below it is neither queued nor sent again.
   */
  lemma PruneLeaves(list: seq<Pair>, component: nat, priority: nat, queue: seq<nat>, r: seq<Pair>, queue': seq<nat>,
                    nextId: nat)
    requires Prunes(list, component, priority, queue, r, queue') && Distinct(list, nextId)
    ensures forall p :: p in r && p.component == component && (p.state == Frozen || p.state == Waiting) ==>
              p.id in queue' && p.priority >= priority
    ensures forall p :: p in r && p.component == component && p.state == InProgress && p.priority < priority ==>
              !p.retransmit && p.id !in queue'
    ensures forall p :: p in r && p.component == component && p.id in queue' ==> p.priority >= priority
  {
    SiftMembers(Settled(list, component, priority), Staying(list, component, priority, queue), |list|);
    forall k | 0 <= k < |list|
      ensures list[k].id in queue' <==>
              list[k].id in queue && !Cancelled(list[k], component, priority, list[k].id in queue)
    {
      PrunedQueue(list, component, priority, queue, r, queue', k, nextId);
    }
  }

  /** A pair whose check is over and that is not queued stays as it is. */
  lemma PruneSpares(list: seq<Pair>, component: nat, priority: nat, queue: seq<nat>, r: seq<Pair>, queue': seq<nat>,
                    k: nat)
    requires Prunes(list, component, priority, queue, r, queue') && k < |list| && list[k].id !in queue
    requires list[k].state == Succeeded || list[k].state == Discovered
    ensures list[k] in r
  {
    hide Sift, Unqueued;
    var settled, keep := Settled(list, component, priority), Staying(list, component, priority, queue);
    assert keep[k] && settled[k] == list[k];
    SiftHolds(settled, keep, |list|, k);
  }

  /** A pair is pending before exactly if it stays and is pending after. */
  lemma PrunedPending(list: seq<Pair>, component: nat, priority: nat, queue: seq<nat>, r: seq<Pair>, queue': seq<nat>,
                      k: nat, nextId: nat)
    requires Prunes(list, component, priority, queue, r, queue') && Distinct(list, nextId) && k < |list|
    ensures var p := Settled(list, component, priority)[k];
            Pending(list[k], component, priority, list[k].id in queue) <==>
            Staying(list, component, priority, queue)[k] && Pending(p, component, priority, p.id in queue')
  {
    hide Distinct, Prunes;
    PrunedQueue(list, component, priority, queue, r, queue', k, nextId);
  }

  /** The result of pruning counts exactly the pending pairs that are left. */
  lemma {:induction false} PruneCounts(list: seq<Pair>, component: nat, priority: nat, queue: seq<nat>, r: seq<Pair>,
                                       queue': seq<nat>, nextId: nat, k: nat)
    requires Prunes(list, component, priority, queue, r, queue') && Distinct(list, nextId) && k <= |list|
    ensures var part := Sift(Settled(list, component, priority), Staying(list, component, priority, queue), k);
            PendingIn(list, component, priority, queue, k) == PendingIn(part, component, priority, queue', |part|)
  {
    hide Distinct, Prunes, Settled, Staying, Pending;
    if k > 0 {
      PruneCounts(list, component, priority, queue, r, queue', nextId, k - 1);
      PrunedPending(list, component, priority, queue, r, queue', k - 1, nextId);
      var settled, keep := Settled(list, component, priority), Staying(list, component, priority, queue);
      var part, p := Sift(settled, keep, k - 1), settled[k - 1];
      if keep[k - 1] {
        PendingAppend(part, p, component, priority, queue', |part|);
        assert PendingIn(part + [p], component, priority, queue', |part + [p]|)
            == PendingIn(part, component, priority, queue', |part|)
               + if Pending(p, component, priority, p.id in queue') then 1 else 0;
      } else {
        assert part + [] == part;
      }
    }
  }

  lemma {:induction false} PendingAppend(list: seq<Pair>, p: Pair, component: nat, priority: nat, queue: seq<nat>,
                                         k: nat)
    requires k <= |list|
    ensures PendingIn(list + [p], component, priority, queue, k) == PendingIn(list, component, priority, queue, k)
  {
    if k > 0 {
      PendingAppend(list, p, component, priority, queue, k - 1);
    }
  }

  /** A count of zero means there is none. */
  lemma {:induction false} NonePending(list: seq<Pair>, component: nat, priority: nat, queue: seq<nat>, k: nat)
    requires k <= |list|
    ensures PendingIn(list, component, priority, queue, k) == 0 <==>
              forall i :: 0 <= i < k ==> !Pending(list[i], component, priority, list[i].id in queue)
  {
    if k > 0 {
      NonePending(list, component, priority, queue, k - 1);
    }
  }

  /** Pruning as a step of a run. */
  lemma PruneKeeps(list: seq<Pair>, component: nat, priority: nat, queue: seq<nat>, r: seq<Pair>, queue': seq<nat>,
                   controlling: bool, known: Known, nextId: nat)
    requires Prunes(list, component, priority, queue, r, queue') && Ordered(list, controlling, known, nextId)
    ensures Ordered(r, controlling, known, nextId) && NominatedIn(r) <= NominatedIn(list)
    ensures forall st :: FoundationsIn(r, st) <= FoundationsIn(list, st)
    ensures forall id :: id in queue' && id in IdsIn(list) ==> id in IdsIn(r)
  {
    var settled, keep := Settled(list, component, priority), Staying(list, component, priority, queue);
    SettledKeeps(list, component, priority);
    AlikeOrdered(list, settled, controlling, known, nextId);
    SiftOrdered(settled, keep, |list|, controlling, known, nextId);
    SiftKeeps(settled, keep);
    SubsetKeeps(settled, r);
    forall id | id in queue' && id in IdsIn(list) ensures id in IdsIn(r) {
      assert id !in Dropped(settled, keep, |list|);
    }
  }

  lemma SettledKeeps(list: seq<Pair>, component: nat, priority: nat)
    ensures var r := Settled(list, component, priority);
            && Alike(list, r) && NominatedIn(r) <= NominatedIn(list)
            && forall st :: FoundationsIn(r, st) <= FoundationsIn(list, st)
  {
    var r := Settled(list, component, priority);
    forall p | p in r ensures exists q :: q in list && p == q.(retransmit := p.retransmit) {
      var k :| 0 <= k < |r| && r[k] == p;
      assert list[k] in list;
    }
  }

  // Roles.

  /** `recalculate_pair_priorities` for one list. */
  method Reprioritize(list: seq<Pair>, controlling: bool, known: Known, ghost nextId: nat) returns (r: seq<Pair>)
    requires Joins(list, known) && Distinct(list, nextId)
    ensures Ordered(r, controlling, known, nextId) && |r| == |list|
    ensures forall q :: q in r ==> exists p :: p in list && q == p.(priority := PriorityOf(p, controlling, known))
    ensures forall p :: p in list ==> p.(priority := PriorityOf(p, controlling, known)) in r
  {
    var updated := list;
    for k := 0 to |list|
      invariant |updated| == |list|
      invariant forall i {:trigger list[i]} {:trigger updated[i]} :: 0 <= i < |list| ==>
                  updated[i] == if i < k then list[i].(priority := PriorityOf(list[i], controlling, known)) else list[i]
    {
      updated := updated[k := list[k].(priority := PriorityOf(list[k], controlling, known))];
    }
    r := SortByPriority(updated, nextId);
  }

  /** Every pair is an old one, but for its priority. */
  ghost predicate Reranks(list: seq<Pair>, r: seq<Pair>) {
    |r| == |list| && forall q :: q in r ==> exists p :: p in list && q == p.(priority := q.priority)
  }

  /** Apart from the priorities, the pairs are the same. */
  lemma ReprioritizeKeeps(list: seq<Pair>, r: seq<Pair>, controlling: bool, known: Known)
    requires Joins(list, known)
    requires forall q :: q in r ==> exists p :: p in list && q == p.(priority := PriorityOf(p, controlling, known))
    requires forall p :: p in list ==> p.(priority := PriorityOf(p, controlling, known)) in r
    ensures IdsIn(r) == IdsIn(list) && NominatedIn(r) <= NominatedIn(list)
    ensures forall st :: FoundationsIn(r, st) <= FoundationsIn(list, st)
    ensures |r| == |list| ==> Reranks(list, r)
  {
    forall id | id in IdsIn(list) ensures id in IdsIn(r) {
      var p :| p in list && p.id == id;
      assert p.(priority := PriorityOf(p, controlling, known)) in r;
    }
  }

  // A new pair.

  lemma InsertKeeps(list: seq<Pair>, r: seq<Pair>, p: Pair, controlling: bool, known: Known, nextId: nat)
    requires Ordered(list, controlling, known, nextId) && Sorted(r) && Distinct(r, nextId + 1)
    requires p.local in known.locals && p.remote in known.remotes && p.priority == PriorityOf(p, controlling, known)
    requires forall q :: q in r <==> q in list || q == p
    ensures Ordered(r, controlling, known, nextId + 1) && IdsIn(list) <= IdsIn(r)
    ensures NominatedIn(r) <= NominatedIn(list) + if p.nominated then {p.component} else {}
    ensures forall st :: FoundationsIn(r, st) <= FoundationsIn(list, st) + if p.state == st then {p.foundation} else {}
  {
  }

  lemma OrderedLater(list: seq<Pair>, controlling: bool, known: Known, nextId: nat)
    requires Ordered(list, controlling, known, nextId)
    ensures Ordered(list, controlling, known, nextId + 1) && nextId !in IdsIn(list)
  {
  }

  /** `conn_check_unfreeze_related` over all lists. */
  method ThawRelated(lists: seq<seq<Pair>>, f: string) returns (r: seq<seq<Pair>>)
    ensures |r| == |lists|
    ensures forall s {:trigger r[s]} :: 0 <= s < |lists| ==>
              Unfreezes(lists[s], r[s]) && f !in FoundationsIn(r[s], Frozen) && OnlyChanges(lists[s], r[s], f)
  {
    hide Unfreezes, FoundationsIn, OnlyChanges;
    r := lists;
    for s := 0 to |lists|
      invariant |r| == |lists| && forall t {:trigger r[t]} :: s <= t < |lists| ==> r[t] == lists[t]
      invariant forall t {:trigger r[t]} :: 0 <= t < s ==>
                  Unfreezes(lists[t], r[t]) && f !in FoundationsIn(r[t], Frozen) && OnlyChanges(lists[t], r[t], f)
    {
      var list' := ThawFoundation(r[s], f);
      r := r[s := list'];
    }
  }

  /** A waiting pair of the highest priority among those waiting. */
  ghost predicate BestWaiting(list: seq<Pair>, k: nat)
    requires k < |list|
  {
    list[k].state == Waiting && forall p :: p in list && p.state == Waiting ==> p.priority <= list[k].priority
  }

  /** The first waiting pair has the highest priority of all waiting pairs. */
  method FindNextWaiting(list: seq<Pair>) returns (found: bool, k: nat)
    requires Sorted(list)
    ensures found <==> HasState(list, Waiting)
    ensures found ==> k < |list| && BestWaiting(list, k)
  {
    k := 0;
    while k < |list|
      invariant k <= |list|
      invariant forall i :: 0 <= i < k ==> list[i].state != Waiting
    {
      if list[k].state == Waiting {
        assert list[k] in list;
        return true, k;
      }
      k := k + 1;
    }
    return false, 0;
  }

  /** Removing pairs on their own account, as when a socket goes away. */
  method DropList(list: seq<Pair>, ids: set<nat>, queue: seq<nat>) returns (r: seq<Pair>, queue': seq<nat>)
    requires NoDuplicates(queue)
    ensures r == Sift(list, NotIn(list, ids), |list|) && NoDuplicates(queue')
    ensures forall id :: id in queue' <==> id in queue && id !in Dropped(list, NotIn(list, ids), |list|)
  {
    r, queue' := [], queue;
    ghost var keep := NotIn(list, ids);
    for k := 0 to |list|
      invariant r == Sift(list, keep, k) && NoDuplicates(queue')
      invariant forall id :: id in queue' <==> id in queue && id !in Dropped(list, keep, k)
    {
      DroppedNext(list, keep, k);
      if list[k].id in ids {
        queue' := Unqueue(queue', list[k].id);
      } else {
        r := r + [list[k]];
      }
    }
  }

  ghost function NotIn(list: seq<Pair>, ids: set<nat>): (keep: seq<bool>)
    ensures |keep| == |list|
  {
    seq(|list|, k requires 0 <= k < |list| => list[k].id !in ids)
  }

  ghost predicate Concluded(list: seq<Pair>, component: nat) {
    exists p :: p in list && p.component == component && p.valid && p.nominated
  }

  /** The first loop of `conn_check_update_check_list_state_for_ready`. */
  method CountNominated(list: seq<Pair>, component: nat) returns (nominated: nat)
    ensures nominated > 0 <==> Concluded(list, component)
  {
    nominated := 0;
    for k := 0 to |list|
      invariant nominated > 0 <==>
                exists i :: 0 <= i < k && list[i].component == component && list[i].valid && list[i].nominated
    {
      if list[k].component == component && list[k].valid && list[k].nominated {
        nominated := nominated + 1;
      }
    }
    assert Concluded(list, component) ==>
             exists i :: 0 <= i < |list| && list[i].component == component && list[i].valid && list[i].nominated;
  }
}
