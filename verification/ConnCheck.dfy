/**
 The ICE agent's check lists over whole runs: creating, freezing, checking, pruning and
 re-sorting candidate pairs, and the component states that follow from it.
 */
module ConnCheck {
  import opened Wrap32
  import opened Priority
  import opened CheckList

  datatype ComponentState = Disconnected | Gathering | Connecting | Connected | Ready | ComponentFailed

  /** The transitions that `agent_signal_component_state_change` asserts. */
  predicate ComponentEdge(a: ComponentState, b: ComponentState) {
    match (a, b)
    case (Disconnected, ComponentFailed) => true
    case (Gathering, ComponentFailed) => true
    case (Connecting, ComponentFailed) => true
    case (Connected, ComponentFailed) => true
    case (Ready, ComponentFailed) => true
    case (Disconnected, Gathering) => true
    case (Gathering, Connecting) => true
    case (Connecting, Connected) => true
    case (Connected, Ready) => true
    case (Ready, Connected) => true
    case (ComponentFailed, Connecting) => true
    case (ComponentFailed, Gathering) => true
    case (Disconnected, Connecting) => true
    case _ => false
  }

  /** A component of a stream. */
  type Place = (nat, nat)

  // Invariants of all lists together.

  ghost predicate AllOrdered(lists: seq<seq<Pair>>, controlling: bool, known: Known, nextId: nat) {
    forall s {:trigger lists[s]} :: 0 <= s < |lists| ==> Ordered(lists[s], controlling, known, nextId)
  }

  /**
   A selected pair: its candidates, the priority it had when it was selected, and whether its local
   candidate is a relay that is only kept until another pair is selected.
   */
  datatype Selected = Selected(local: CandidateId, remote: CandidateId, priority: nat, retired: bool)

  function SelectedPriority(selected: map<Place, Selected>, s: nat, c: nat): nat {
    if (s, c) in selected then selected[(s, c)].priority else 0
  }

  /** The pair is the one selected for its component. */
  predicate IsSelected(selected: map<Place, Selected>, s: nat, p: Pair) {
    var at := (s, p.component);
    at in selected && selected[at].local == p.local && selected[at].remote == p.remote
  }

  predicate IsRetired(selected: map<Place, Selected>, s: nat, c: nat) {
    (s, c) in selected && selected[(s, c)].retired
  }

  function Select(selected: map<Place, Selected>, s: nat, p: Pair): map<Place, Selected> {
    selected[(s, p.component) := Selected(p.local, p.remote, p.priority, false)]
  }

  /** The selected pair takes the present priority of its pair. */
  function Refresh(selected: map<Place, Selected>, s: nat, p: Pair): map<Place, Selected>
    requires IsSelected(selected, s, p)
  {
    selected[(s, p.component) := selected[(s, p.component)].(priority := p.priority)]
  }

  /**
   A component with a nominated pair has a selected pair, of positive priority, unless its
   selection was cleared and no pair was selected since.
   */
  ghost predicate Backed(lists: seq<seq<Pair>>, selected: map<Place, Selected>, cleared: set<Place>) {
    && (forall at :: at in selected && selected[at].priority == 0 ==> at in cleared)
    && forall s, c {:trigger c in NominatedIn(lists[s])} ::
         0 <= s < |lists| && c in NominatedIn(lists[s]) && (s, c) !in cleared ==> SelectedPriority(selected, s, c) > 0
  }

  lemma BackedRefreshed(lists: seq<seq<Pair>>, selected: map<Place, Selected>, cleared: set<Place>, s: nat, p: Pair)
    requires Backed(lists, selected, cleared) && IsSelected(selected, s, p) && p.priority > 0
    ensures Backed(lists, Refresh(selected, s, p), cleared - {(s, p.component)})
  {
    hide NominatedIn;
  }

  /** Local candidates carry a priority the agent computed itself. */
  ghost predicate OwnPriorities(known: Known) {
    forall l :: l in known.locals ==> 1 <= known.locals[l] <= 0x7eff_ffff
  }

  /** Then no pair has priority zero, whatever the peer announced. */
  lemma PairPriorityPositive(controlling: bool, local: u32, remote: u32)
    requires 1 <= local <= 0x7eff_ffff
    ensures AgentPairPriority(controlling, local, remote) > 0
  {
    if controlling {
      PairDigits(local, remote);
    } else {
      PairDigits(remote, local);
    }
  }

  lemma ThawedLess(lists: seq<seq<Pair>>, lists': seq<seq<Pair>>)
    requires Thawed(lists) && |lists'| == |lists|
    requires forall s {:trigger lists'[s]} :: 0 <= s < |lists| ==>
               && FoundationsIn(lists'[s], Succeeded) <= FoundationsIn(lists[s], Succeeded)
               && FoundationsIn(lists'[s], Frozen) <= FoundationsIn(lists[s], Frozen)
    ensures Thawed(lists')
  {
  }

  lemma BackedLess(lists: seq<seq<Pair>>, lists': seq<seq<Pair>>, selected: map<Place, Selected>, cleared: set<Place>)
    requires Backed(lists, selected, cleared) && |lists'| == |lists|
    requires forall s {:trigger lists'[s]} :: 0 <= s < |lists| ==> NominatedIn(lists'[s]) <= NominatedIn(lists[s])
    ensures Backed(lists', selected, cleared)
  {
  }

  lemma LiveSame(queue: seq<nat>, lists: seq<seq<Pair>>, lists': seq<seq<Pair>>)
    requires Live(queue, lists) && |lists'| == |lists|
    requires forall s {:trigger lists'[s]} :: 0 <= s < |lists| ==> IdsIn(lists[s]) <= IdsIn(lists'[s])
    ensures Live(queue, lists')
  {
    forall id | id in queue ensures exists s :: 0 <= s < |lists'| && id in IdsIn(lists'[s]) {
      var s :| 0 <= s < |lists| && id in IdsIn(lists[s]);
      assert id in IdsIn(lists'[s]);
    }
  }

  /** Pairs leave a list and the queue together. */
  lemma LiveDrop(queue: seq<nat>, queue': seq<nat>, lists: seq<seq<Pair>>, s: nat, r: seq<Pair>)
    requires Live(queue, lists) && NoDuplicates(queue') && s < |lists|
    requires forall id :: id in queue' ==> id in queue
    requires forall id :: id in queue' && id in IdsIn(lists[s]) ==> id in IdsIn(r)
    ensures Live(queue', lists[s := r])
  {
    var lists' := lists[s := r];
    forall id | id in queue' ensures exists t :: 0 <= t < |lists'| && id in IdsIn(lists'[t]) {
      var t :| 0 <= t < |lists| && id in IdsIn(lists[t]);
      assert id in IdsIn(lists'[t]);
    }
  }

  function With(lists: seq<seq<Pair>>, s: nat, k: nat, p: Pair): seq<seq<Pair>>
    requires s < |lists| && k < |lists[s]|
  {
    lists[s := lists[s][k := p]]
  }

  /** A request has been sent for the pair. */
  function Started(p: Pair): Pair {
    p.(state := InProgress, transactions := p.transactions + 1, retransmit := true)
  }

  /** The check of the pair is over. */
  function Stopped(p: Pair, st: CheckState): Pair {
    p.(state := st, transactions := 0, retransmit := false)
  }

  /** A best nominated pair of the component in a sorted list: none is nominated before it. */
  ghost predicate BestNominated(list: seq<Pair>, c: nat, k: nat)
    requires k < |list|
  {
    && list[k].nominated && list[k].component == c
    && forall q :: q in list && q.nominated && q.component == c ==> q.priority <= list[k].priority
  }

  /** A best nominated pair is the selected one, or no better than the selected one was when selected. */
  ghost predicate WellSelected(list: seq<Pair>, s: nat, c: nat, selected: map<Place, Selected>) {
    forall k {:trigger BestNominated(list, c, k)} :: 0 <= k < |list| && BestNominated(list, c, k) ==>
      || list[k].priority <= SelectedPriority(selected, s, c)
      || exists i :: 0 <= i < |list| && BestNominated(list, c, i) && IsSelected(selected, s, list[i])
  }

  /** A frozen pair takes a foundation of which a pair has already succeeded. */
  ghost predicate LeavesFrozen(lists: seq<seq<Pair>>, s: nat, k: nat, f: string)
    requires s < |lists| && k < |lists[s]|
  {
    && lists[s][k].state == Frozen && lists[s][k].foundation != f
    && exists t :: 0 <= t < |lists| && f in FoundationsIn(lists[t], Succeeded)
  }

  /** The pairs on a socket are gone, and the list is pruned if some were and the component has a nominated pair. */
  ghost predicate PrunedSocket(list: seq<Pair>, c: nat, ids: set<nat>, priority: nat, queue: seq<nat>, mid: seq<nat>,
                               list': seq<Pair>, queue': seq<nat>, ok: bool)
  {
    var kept := Sift(list, NotIn(list, ids), |list|);
    var again := |kept| < |list| && Concluded(kept, c);
    && (forall id :: id in mid <==> id in queue && id !in Dropped(list, NotIn(list, ids), |list|))
    && (!ok <==> again && priority == 0)
    && if again && priority > 0 then Prunes(kept, c, priority, mid, list', queue') else list' == kept && queue' == mid
  }

  /** The pair has failed, and the list is pruned if its component has a nominated pair. */
  ghost predicate FailsAt(lists: seq<seq<Pair>>, s: nat, k: nat, selected: map<Place, Selected>, queue: seq<nat>,
                          lists': seq<seq<Pair>>, queue': seq<nat>, ok: bool)
    requires s < |lists| && k < |lists[s]|
  {
    var c := lists[s][k].component;
    var failed := With(lists, s, k, Stopped(lists[s][k], Failed));
    && |lists'| == |lists| && lists' == failed[s := lists'[s]]
    && (!ok <==> Concluded(failed[s], c) && SelectedPriority(selected, s, c) == 0)
    && if ok && Concluded(failed[s], c)
       then Prunes(failed[s], c, SelectedPriority(selected, s, c), queue, lists'[s], queue')
       else lists' == failed && queue' == queue
  }

  /** The pair takes a new foundation; a succeeded pair thaws the pairs of that foundation, and no others. */
  ghost predicate RenamedTo(lists: seq<seq<Pair>>, s: nat, k: nat, f: string, r: seq<seq<Pair>>)
    requires s < |lists| && k < |lists[s]|
  {
    var p := lists[s][k];
    var mid := With(lists, s, k, p.(foundation := f));
    && |r| == |lists| && (forall t {:trigger r[t]} :: 0 <= t < |r| ==> Unfreezes(mid[t], r[t]))
    && if p.state == Succeeded && p.foundation != f
       then forall t {:trigger r[t]} :: 0 <= t < |r| ==>
              OnlyChanges(mid[t], r[t], f) && f !in FoundationsIn(r[t], Frozen)
       else r == mid
  }

  method RenameAt(lists: seq<seq<Pair>>, s: nat, k: nat, f: string) returns (r: seq<seq<Pair>>)
    requires s < |lists| && k < |lists[s]|
    ensures |r| == |lists| && RenamedTo(lists, s, k, f, r)
  {
    hide Unfreezes, OnlyChanges, FoundationsIn;
    var p := lists[s][k];
    r := With(lists, s, k, p.(foundation := f));
    forall t {:trigger r[t]} | 0 <= t < |r| ensures Unfreezes(r[t], r[t]) {
      UnfreezesNothing(r[t]);
    }
    if p.state == Succeeded && p.foundation != f {
      r := ThawRelated(r, f);
    }
  }

  lemma UnfreezesNothing(list: seq<Pair>)
    ensures Unfreezes(list, list)
  {
  }

  /** Such a pair: one foundation has succeeded, and a pair frozen under another takes its name. */
  lemma MissedExample(f: string, g: string)
    requires f != g
    ensures var p := Pair(0, 1, 0, 0, f, Succeeded, false, true, false, 0, 2);
            var q := Pair(1, 1, 1, 1, g, Frozen, false, false, false, 0, 1);
            Thawed([[p, q]]) && LeavesFrozen([[p, q]], 0, 1, f)
  {
    var p := Pair(0, 1, 0, 0, f, Succeeded, false, true, false, 0, 2);
    var q := Pair(1, 1, 1, 1, g, Frozen, false, false, false, 0, 1);
    assert p in [p, q];
    assert f in FoundationsIn([[p, q]][0], Succeeded);
  }

  /** One of its requests has been answered, without a mapped address. */
  function Answered(p: Pair): Pair {
    p.(state := Succeeded, valid := true, retransmit := p.retransmit && p.transactions > 1,
       transactions := if p.transactions == 0 then 0 else p.transactions - 1)
  }

  class Agent {
    const maxConnChecks: nat
    var controlling: bool
    /** The check list of every stream. */
    var lists: seq<seq<Pair>>
    var triggered: seq<nat>
    var known: Known
    /** Each component's selected pair. */
    var selected: map<Place, Selected>
    /** The components whose selection was cleared and that have selected no pair since. */
    var cleared: set<Place>
    var components: map<Place, ComponentState>
    var nextId: nat
    /** A frozen pair was given a foundation that had already succeeded, and was left frozen. */
    var missed: bool

    ghost predicate Valid()
      reads this
    {
      && AllOrdered(lists, controlling, known, nextId)
      && (missed || Thawed(lists)) && Live(triggered, lists) && Backed(lists, selected, cleared) && OwnPriorities(known)
    }

    constructor (streams: nat, controlling: bool, maxConnChecks: nat)
      ensures Valid() && |lists| == streams && !missed && cleared == {}
    {
      this.maxConnChecks, this.controlling := maxConnChecks, controlling;
      lists := seq(streams, _ => []);
      triggered, known, selected, components, nextId := [], Known(map[], map[]), map[], map[], 0;
      missed, cleared := false, {};
    }

    method UnfreezeNext() returns (result: bool)
      requires Valid()
      modifies `lists
      ensures Valid() && |lists| == |old(lists)|
      ensures AnyHasState(old(lists), Waiting) ==> lists == old(lists)
      ensures !AnyHasState(old(lists), Waiting) ==>
                forall s {:trigger lists[s]} :: 0 <= s < |lists| ==>
                  Thaws(old(lists)[s], lists[s], FrozenBefore(old(lists), s))
      ensures result <==> AnyHasState(lists, Waiting)
    {
      hide Ordered, FoundationsIn, IdsIn, NominatedIn, Thaws, Alike;
      ghost var before := lists;
      lists, result := ThawNext(lists);
      if !AnyHasState(before, Waiting) {
        forall s {:trigger lists[s]} | 0 <= s < |lists| ensures Unfreezes(before[s], lists[s]) {
          ThawsUnfreezes(before[s], lists[s], FrozenBefore(before, s));
        }
        UnfreezeSafe(before);
      }
    }

    lemma ThawsUnfreezes(list: seq<Pair>, r: seq<Pair>, seen: set<string>)
      requires Thaws(list, r, seen)
      ensures Unfreezes(list, r)
    {
    }

    /** Frozen pairs that start waiting break no invariant. */
    lemma UnfreezeSafe(before: seq<seq<Pair>>)
      requires AllOrdered(before, controlling, known, nextId)
      requires (missed || Thawed(before)) && Live(triggered, before) && Backed(before, selected, cleared)
               && OwnPriorities(known)
      requires |lists| == |before| && forall s {:trigger lists[s]} :: 0 <= s < |lists| ==>
                 Unfreezes(before[s], lists[s])
      ensures Valid()
    {
      hide Ordered, FoundationsIn, IdsIn, NominatedIn, Alike, Unfreezes;
      forall s {:trigger lists[s]} | 0 <= s < |lists|
        ensures Ordered(lists[s], controlling, known, nextId) && IdsIn(lists[s]) == IdsIn(before[s])
        ensures NominatedIn(lists[s]) <= NominatedIn(before[s])
        ensures FoundationsIn(lists[s], Succeeded) <= FoundationsIn(before[s], Succeeded)
        ensures FoundationsIn(lists[s], Frozen) <= FoundationsIn(before[s], Frozen)
      {
        UnfreezesKeeps(before[s], lists[s]);
        AlikeOrdered(before[s], lists[s], controlling, known, nextId);
      }
      if Thawed(before) {
        ThawedLess(before, lists);
      }
      LiveSame(triggered, before, lists);
      BackedLess(before, lists, selected, cleared);
    }

    /** One pair changes its state and flags; it neither freezes nor succeeds, nor is it nominated. */
    lemma UpdateSafe(before: seq<seq<Pair>>, queue: seq<nat>, s: nat, k: nat, p: Pair)
      requires AllOrdered(before, controlling, known, nextId)
      requires (missed || Thawed(before)) && Live(queue, before) && Backed(before, selected, cleared)
               && OwnPriorities(known)
      requires s < |before| && k < |before[s]| && lists == With(before, s, k, p)
      requires p == before[s][k].(state := p.state, valid := p.valid, retransmit := p.retransmit,
                                  transactions := p.transactions)
      requires p.state != Frozen && p.state != Succeeded
      requires NoDuplicates(triggered) && forall id :: id in triggered ==> id in queue
      ensures Valid()
    {
      hide Ordered, FoundationsIn, IdsIn, NominatedIn, Alike, Unfreezes;
      UpdateKeeps(before[s], k, p);
      AlikeOrdered(before[s], lists[s], controlling, known, nextId);
      NominatedMember(before[s], k);
      if Thawed(before) {
        ThawedLess(before, lists);
      }
      LiveSame(queue, before, lists);
      BackedLess(before, lists, selected, cleared);
    }

    lemma NominatedMember(list: seq<Pair>, k: nat)
      requires k < |list|
      ensures list[k].nominated ==> list[k].component in NominatedIn(list)
    {
    }

    /** A request has been sent for the pair. */
    method Start(s: nat, k: nat)
      requires Valid() && s < |lists| && k < |lists[s]|
      modifies `lists
      ensures Valid()
      ensures lists == With(old(lists), s, k, Started(old(lists)[s][k]))
    {
      hide Ordered, FoundationsIn, IdsIn, NominatedIn, Alike, Unfreezes;
      ghost var before := lists;
      var p := Started(lists[s][k]);
      lists := With(lists, s, k, p);
      UpdateSafe(before, triggered, s, k, p);
    }

    /** `candidate_check_pair_fail`. */
    method Fail(s: nat, k: nat)
      requires Valid() && s < |lists| && k < |lists[s]|
      modifies `lists
      ensures Valid()
      ensures lists == With(old(lists), s, k, Stopped(old(lists)[s][k], Failed))
    {
      hide Ordered, FoundationsIn, IdsIn, NominatedIn, Alike, Unfreezes;
      ghost var before := lists;
      var p := Stopped(lists[s][k], Failed);
      lists := With(lists, s, k, p);
      UpdateSafe(before, triggered, s, k, p);
    }

    /** A check succeeds: the pair leaves the queue, and every frozen pair of its foundation starts waiting. */
    method Succeed(s: nat, k: nat, valid: bool)
      requires Valid() && s < |lists| && k < |lists[s]|
      modifies `lists, `triggered
      ensures Valid() && |lists| == |old(lists)|
      ensures var p := old(lists)[s][k];
              var mid := With(old(lists), s, k, Stopped(p, Succeeded).(valid := p.valid || valid));
              && (forall id :: id in triggered <==> id in old(triggered) && id != p.id)
              && forall t {:trigger lists[t]} :: 0 <= t < |lists| ==>
                   && Unfreezes(mid[t], lists[t]) && OnlyChanges(mid[t], lists[t], p.foundation)
                   && p.foundation !in FoundationsIn(lists[t], Frozen)
      ensures |lists[s]| == |old(lists)[s]| && lists[s][k].state == Succeeded
    {
      hide Ordered, FoundationsIn, IdsIn, NominatedIn, Alike, Unfreezes, OnlyChanges;
      ghost var before, queue := lists, triggered;
      var p := lists[s][k];
      var q := Stopped(p, Succeeded).(valid := p.valid || valid);
      lists := With(lists, s, k, q);
      ghost var mid := lists;
      triggered := Unqueue(triggered, p.id);
      lists := ThawRelated(lists, p.foundation);
      SucceedSafe(before, queue, s, k, q, mid);
      StaysUnfrozen(mid[s], lists[s], k);
    }

    /** The same without a mapped address in the response: the pair is valid, and may stay queued. */
    method SucceedUnmapped(s: nat, k: nat)
      requires Valid() && s < |lists| && k < |lists[s]|
      modifies `lists
      ensures Valid() && |lists| == |old(lists)|
      ensures var p := old(lists)[s][k];
              var mid := With(old(lists), s, k, Answered(p));
              forall t {:trigger lists[t]} :: 0 <= t < |lists| ==>
                && Unfreezes(mid[t], lists[t]) && OnlyChanges(mid[t], lists[t], p.foundation)
                && p.foundation !in FoundationsIn(lists[t], Frozen)
      ensures |lists[s]| == |old(lists)[s]| && lists[s][k] == Answered(old(lists)[s][k])
    {
      hide Ordered, FoundationsIn, IdsIn, NominatedIn, Alike, Unfreezes, OnlyChanges;
      ghost var before := lists;
      var p := lists[s][k];
      lists := With(lists, s, k, Answered(p));
      ghost var mid := lists;
      lists := ThawRelated(lists, p.foundation);
      SucceedSafe(before, triggered, s, k, Answered(p), mid);
      StaysUnfrozen(mid[s], lists[s], k);
    }

    lemma StaysUnfrozen(list: seq<Pair>, r: seq<Pair>, k: nat)
      requires Unfreezes(list, r) && k < |list| && list[k].state != Frozen
      ensures |r| == |list| && r[k] == list[k]
    {
    }

    lemma SucceedSafe(before: seq<seq<Pair>>, queue: seq<nat>, s: nat, k: nat, p: Pair, mid: seq<seq<Pair>>)
      requires AllOrdered(before, controlling, known, nextId)
      requires (missed || Thawed(before)) && Live(queue, before) && Backed(before, selected, cleared)
               && OwnPriorities(known)
      requires s < |before| && k < |before[s]| && mid == With(before, s, k, p) && p.state == Succeeded
      requires p == before[s][k].(state := p.state, valid := p.valid, retransmit := p.retransmit,
                                  transactions := p.transactions)
      requires |lists| == |mid| && forall t {:trigger lists[t]} :: 0 <= t < |lists| ==>
                 Unfreezes(mid[t], lists[t]) && p.foundation !in FoundationsIn(lists[t], Frozen)
      requires NoDuplicates(triggered) && forall id :: id in triggered ==> id in queue
      ensures Valid()
    {
      hide Ordered, FoundationsIn, IdsIn, NominatedIn, Alike, Unfreezes, OnlyChanges;
      UpdateKeeps(before[s], k, p);
      NominatedMember(before[s], k);
      AlikeOrdered(before[s], mid[s], controlling, known, nextId);
      LiveSame(queue, before, mid);
      BackedLess(before, mid, selected, cleared);
      forall t {:trigger lists[t]} | 0 <= t < |lists|
        ensures Ordered(lists[t], controlling, known, nextId) && IdsIn(lists[t]) == IdsIn(mid[t])
        ensures NominatedIn(lists[t]) <= NominatedIn(mid[t])
        ensures FoundationsIn(lists[t], Succeeded) <= FoundationsIn(before[t], Succeeded) + {p.foundation}
        ensures FoundationsIn(lists[t], Frozen) <= FoundationsIn(before[t], Frozen) - {p.foundation}
      {
        UnfreezesKeeps(mid[t], lists[t]);
        AlikeOrdered(mid[t], lists[t], controlling, known, nextId);
      }
      LiveSame(queue, mid, lists);
      BackedLess(mid, lists, selected, cleared);
    }

    lemma NominateSafe(before: seq<seq<Pair>>, chosen: map<Place, Selected>, was: set<Place>, s: nat, k: nat, p: Pair)
      requires AllOrdered(before, controlling, known, nextId)
      requires (missed || Thawed(before)) && Live(triggered, before) && Backed(before, chosen, was)
               && OwnPriorities(known)
      requires s < |before| && k < |before[s]| && lists == With(before, s, k, p)
               && p == before[s][k].(nominated := true)
      requires if (s, p.component) in chosen then selected == chosen && cleared == was
               else selected == Select(chosen, s, p) && cleared == was - {(s, p.component)}
      ensures Valid()
    {
      hide Ordered, FoundationsIn, IdsIn, NominatedIn, Alike;
      PositivePriority(before, s, k);
      UpdateKeeps(before[s], k, p);
      AlikeOrdered(before[s], lists[s], controlling, known, nextId);
      OwnFoundation(before[s], k);
      if Thawed(before) {
        ThawedLess(before, lists);
      }
      LiveSame(triggered, before, lists);
    }

    lemma OwnFoundation(list: seq<Pair>, k: nat)
      requires k < |list|
      ensures list[k].foundation in FoundationsIn(list, list[k].state)
    {
    }

    lemma PositivePriority(lists: seq<seq<Pair>>, s: nat, k: nat)
      requires AllOrdered(lists, controlling, known, nextId) && OwnPriorities(known) && s < |lists| && k < |lists[s]|
      ensures lists[s][k].priority > 0
    {
      var p := lists[s][k];
      assert p in lists[s];
      PairPriorityPositive(controlling, known.locals[p.local], known.remotes[p.remote]);
    }

    /**
     One turn of `priv_update_pair_foundations`: a pair takes a new foundation. A succeeded pair
     thaws the pairs of that foundation. A frozen pair is left frozen even if the foundation has
     already succeeded.
     */
    method Rename(s: nat, k: nat, f: string)
      requires Valid() && s < |lists| && k < |lists[s]|
      modifies `lists, `selected, `cleared, `missed
      ensures Valid() && |lists| == |old(lists)|
      ensures RenamedTo(old(lists), s, k, f, lists)
      ensures var p := old(lists)[s][k];
              if p.foundation != f && IsSelected(old(selected), s, p)
              then selected == Refresh(old(selected), s, p) && cleared == old(cleared) - {(s, p.component)}
              else selected == old(selected) && cleared == old(cleared)
      ensures missed <==> old(missed) || LeavesFrozen(old(lists), s, k, f)
      ensures old(Thawed(lists)) ==> (Thawed(lists) <==> !LeavesFrozen(old(lists), s, k, f))
    {
      hide AllOrdered, FoundationsIn, Thawed, Live, Backed, RenamedTo;
      var p := lists[s][k];
      ghost var before, chosen, was := lists, selected, cleared;
      var succeeded := HasSucceeded(lists, f);
      missed := missed || (p.state == Frozen && p.foundation != f && succeeded);
      lists := RenameAt(lists, s, k, f);
      if p.foundation != f && IsSelected(selected, s, p) {
        selected, cleared := Refresh(selected, s, p), cleared - {(s, p.component)};
      }
      RenameThawed(before, s, k, f);
      RenameSafe(before, chosen, was, s, k, f);
    }

    lemma RenameSafe(before: seq<seq<Pair>>, chosen: map<Place, Selected>, was: set<Place>, s: nat, k: nat, f: string)
      requires AllOrdered(before, controlling, known, nextId)
      requires (missed || Thawed(lists)) && Live(triggered, before) && Backed(before, chosen, was)
               && OwnPriorities(known)
      requires s < |before| && k < |before[s]| && RenamedTo(before, s, k, f, lists)
      requires if before[s][k].foundation != f && IsSelected(chosen, s, before[s][k])
               then selected == Refresh(chosen, s, before[s][k]) && cleared == was - {(s, before[s][k].component)}
               else selected == chosen && cleared == was
      ensures Valid()
    {
      hide Ordered, FoundationsIn, IdsIn, NominatedIn, Alike, Unfreezes, Thawed, OnlyChanges, Backed, IsSelected,
           Refresh;
      var mid := With(before, s, k, before[s][k].(foundation := f));
      PositivePriority(before, s, k);
      UpdateKeeps(before[s], k, before[s][k].(foundation := f));
      NominatedMember(before[s], k);
      AlikeOrdered(before[s], mid[s], controlling, known, nextId);
      LiveSame(triggered, before, mid);
      BackedLess(before, mid, chosen, was);
      forall t {:trigger lists[t]} | 0 <= t < |lists|
        ensures Ordered(lists[t], controlling, known, nextId) && IdsIn(lists[t]) == IdsIn(mid[t])
        ensures NominatedIn(lists[t]) <= NominatedIn(mid[t])
      {
        UnfreezesKeeps(mid[t], lists[t]);
        AlikeOrdered(mid[t], lists[t], controlling, known, nextId);
      }
      LiveSame(triggered, mid, lists);
      BackedLess(mid, lists, chosen, was);
      if before[s][k].foundation != f && IsSelected(chosen, s, before[s][k]) {
        BackedRefreshed(lists, chosen, was, s, before[s][k]);
      }
    }

    lemma RenameThawed(before: seq<seq<Pair>>, s: nat, k: nat, f: string)
      requires s < |before| && k < |before[s]| && RenamedTo(before, s, k, f, lists)
      ensures Thawed(before) ==> (Thawed(lists) <==> !LeavesFrozen(before, s, k, f))
    {
      hide FoundationsIn, Alike, Unfreezes, NominatedIn;
      var p := before[s][k].(foundation := f);
      var mid := With(before, s, k, p);
      if before[s][k] == p {
        assert before[s][k := p] == before[s];
        return;
      }
      UpdateKeeps(before[s], k, p);
      forall t {:trigger lists[t]} | 0 <= t < |lists|
        ensures FoundationsIn(lists[t], Succeeded) <= FoundationsIn(mid[t], Succeeded)
        ensures FoundationsIn(lists[t], Frozen) <= FoundationsIn(mid[t], Frozen)
      {
        UnfreezesKeeps(mid[t], lists[t]);
      }
      if LeavesFrozen(before, s, k, f) {
        var t :| 0 <= t < |before| && f in FoundationsIn(before[t], Succeeded);
        OwnFoundation(mid[s], k);
        if t == s {
          OthersStay(before[s], k, p, f);
        }
        assert f in FoundationsIn(lists[t], Succeeded) && f in FoundationsIn(lists[s], Frozen);
      }
    }

    lemma OthersStay(list: seq<Pair>, k: nat, p: Pair, f: string)
      requires k < |list| && list[k].state != Succeeded && f in FoundationsIn(list, Succeeded)
      ensures f in FoundationsIn(list[k := p], Succeeded)
    {
      var i :| 0 <= i < |list| && list[i].state == Succeeded && list[i].foundation == f;
      assert list[k := p][i] == list[i];
    }

    // The triggered-check queue.

    /** Queues a pair once. */
    method Trigger(s: nat, k: nat)
      requires Valid() && s < |lists| && k < |lists[s]|
      modifies `triggered
      ensures Valid()
      ensures triggered == if lists[s][k].id in old(triggered) then old(triggered)
                           else old(triggered) + [lists[s][k].id]
    {
      if lists[s][k].id !in triggered {
        assert lists[s][k].id in IdsIn(lists[s]);
        triggered := triggered + [lists[s][k].id];
      }
    }

    /** Takes the oldest pair from the queue; it is still in a list. */
    method TakeTriggered() returns (id: nat, found: bool)
      requires Valid()
      modifies `triggered
      ensures Valid() && found == (old(triggered) != [])
      ensures if found then id == old(triggered)[0] && triggered == old(triggered)[1..] else triggered == []
      ensures found ==> exists s :: 0 <= s < |lists| && id in IdsIn(lists[s])
    {
      hide AllOrdered, Thawed, Backed, IdsIn;
      if triggered == [] {
        return 0, false;
      }
      id, found := triggered[0], true;
      assert id in triggered;
      assert forall q :: q in triggered[1..] ==> q in triggered;
      triggered := triggered[1..];
    }

    // Removing pairs.

    /** A list loses pairs, and the queue the same ones. */
    lemma DropSafe(before: seq<seq<Pair>>, queue: seq<nat>, s: nat, keep: seq<bool>)
      requires AllOrdered(before, controlling, known, nextId)
      requires (missed || Thawed(before)) && Live(queue, before) && Backed(before, selected, cleared)
               && OwnPriorities(known)
      requires s < |before| && |keep| == |before[s]| && lists == before[s := Sift(before[s], keep, |keep|)]
      requires NoDuplicates(triggered)
      requires forall id :: id in triggered <==> id in queue && id !in Dropped(before[s], keep, |keep|)
      ensures Valid()
    {
      hide Ordered, FoundationsIn, IdsIn, NominatedIn, Sift, Dropped;
      SiftOrdered(before[s], keep, |keep|, controlling, known, nextId);
      SiftKeeps(before[s], keep);
      SubsetKeeps(before[s], lists[s]);
      if Thawed(before) {
        ThawedLess(before, lists);
      }
      LiveDrop(queue, triggered, before, s, lists[s]);
      BackedLess(before, lists, selected, cleared);
    }

    /** `priv_limit_conn_check_list_size`. */
    method Limit(s: nat)
      requires Valid() && s < |lists|
      modifies `lists, `triggered
      ensures Valid()
      ensures var list := old(lists)[s]; lists == old(lists)[s := Sift(list, WithinLimit(list, maxConnChecks), |list|)]
      ensures forall id :: id in triggered <==>
                && id in old(triggered)
                && id !in Dropped(old(lists)[s], WithinLimit(old(lists)[s], maxConnChecks), |old(lists)[s]|)
    {
      hide Ordered, FoundationsIn, IdsIn, NominatedIn, Sift, Dropped;
      ghost var before, queue := lists, triggered;
      var r, queue' := LimitList(lists[s], maxConnChecks, triggered);
      lists, triggered := lists[s := r], queue';
      DropSafe(before, queue, s, WithinLimit(before[s], maxConnChecks));
    }

    /** The list part of `conn_check_prune_socket`. */
    method DropPairs(s: nat, ids: set<nat>)
      requires Valid() && s < |lists|
      modifies `lists, `triggered
      ensures Valid()
      ensures lists == old(lists)[s := Sift(old(lists)[s], NotIn(old(lists)[s], ids), |old(lists)[s]|)]
      ensures forall id :: id in triggered <==>
              id in old(triggered) && id !in Dropped(old(lists)[s], NotIn(old(lists)[s], ids), |old(lists)[s]|)
      ensures IdsIn(lists[s]) !! ids
    {
      hide Ordered, FoundationsIn, IdsIn, NominatedIn, Sift, Dropped;
      ghost var before, queue := lists, triggered;
      var r, queue' := DropList(lists[s], ids, triggered);
      lists, triggered := lists[s := r], queue';
      DropSafe(before, queue, s, NotIn(before[s], ids));
      NoneLeft(before[s], ids);
    }

    lemma NoneLeft(list: seq<Pair>, ids: set<nat>)
      ensures IdsIn(Sift(list, NotIn(list, ids), |list|)) !! ids
    {
      SiftMembers(list, NotIn(list, ids), |list|);
    }

    /** `priv_prune_pending_checks`, whose assertion is the first requirement. */
    method Prune(s: nat, c: nat) returns (pending: nat)
      requires SelectedPriority(selected, s, c) > 0
      requires Valid() && s < |lists|
      modifies `lists, `triggered
      ensures Valid() && |lists| == |old(lists)| && lists == old(lists)[s := lists[s]]
      ensures Prunes(old(lists)[s], c, SelectedPriority(selected, s, c), old(triggered), lists[s], triggered)
      ensures pending == PendingIn(lists[s], c, SelectedPriority(selected, s, c), triggered, |lists[s]|)
    {
      hide FoundationsIn, IdsIn, NominatedIn, Sift, Sorted, Joins, Current, Distinct, Unqueued, PendingIn;
      ghost var before, queue := lists, triggered;
      var priority := SelectedPriority(selected, s, c);
      var r, queue', count := PruneList(lists[s], c, priority, triggered, nextId);
      lists, triggered, pending := lists[s := r], queue', count;
      PruneKeeps(before[s], c, priority, queue, r, queue', controlling, known, nextId);
      PruneCounts(before[s], c, priority, queue, r, queue', nextId, |before[s]|);
      if Thawed(before) {
        ThawedLess(before, lists);
      }
      LiveDrop(queue, triggered, before, s, r);
      BackedLess(before, lists, selected, cleared);
    }

    // Component states.

    function State(s: nat, c: nat): ComponentState
      reads `components
    {
      if (s, c) in components then components[(s, c)] else Disconnected
    }

    /** `agent_signal_component_state_change`, whose assertion is the requirement. */
    method Signal(s: nat, c: nat, st: ComponentState)
      requires st == State(s, c) || ComponentEdge(State(s, c), st)
      modifies `components
      ensures components == old(components)[(s, c) := st] || (st == old(State(s, c)) && components == old(components))
    {
      if st != State(s, c) {
        components := components[(s, c) := st];
      }
    }

    /** The progression to READY, every step of which the transition table allows. */
    method Conclude(s: nat, c: nat)
      modifies `components
      ensures State(s, c) == Ready && forall place :: place != (s, c) ==>
                (place in components <==> place in old(components))
                && (place in components ==> components[place] == old(components)[place])
    {
      if State(s, c) == Disconnected || State(s, c) == Gathering || State(s, c) == ComponentFailed {
        Signal(s, c, Connecting);
      }
      if State(s, c) == Disconnected || State(s, c) == Gathering || State(s, c) == Connecting {
        Signal(s, c, Connected);
      }
      Signal(s, c, Ready);
    }

    /**
     A component becomes ready exactly when it has a valid nominated pair and, after pruning, none
     pending. The assertion before pruning fails exactly if there is such a pair and the priority of
     the selected one is zero; that needs a selection that was cleared.
     */
    method UpdateForReady(s: nat, c: nat) returns (ok: bool)
      requires Valid() && s < |lists|
      modifies `lists, `triggered, `components
      ensures Valid() && |lists| == |old(lists)|
      ensures !ok <==> Concluded(old(lists)[s], c) && SelectedPriority(selected, s, c) == 0
      ensures !ok ==> (s, c) in cleared
      ensures !ok || !Concluded(old(lists)[s], c) ==>
                lists == old(lists) && triggered == old(triggered) && components == old(components)
      ensures ok && Concluded(old(lists)[s], c) ==>
                var priority := SelectedPriority(selected, s, c);
                && lists == old(lists)[s := lists[s]]
                && Prunes(old(lists)[s], c, priority, old(triggered), lists[s], triggered)
                && State(s, c) == if PendingIn(lists[s], c, priority, triggered, |lists[s]|) == 0 then Ready
                                  else old(State(s, c))
    {
      hide AllOrdered, Thawed, Live, Prunes, PendingIn;
      ok := true;
      var nominated := CountNominated(lists[s], c);
      if nominated > 0 {
        ConcludedBacked(lists[s], c);
        if SelectedPriority(selected, s, c) == 0 {
          return false;
        }
        var pending := Prune(s, c);
        if pending == 0 {
          Conclude(s, c);
        }
      }
    }

    lemma ConcludedBacked(list: seq<Pair>, c: nat)
      requires Concluded(list, c)
      ensures c in NominatedIn(list)
    {
    }

    /** `priv_conn_check_initiate`: a pair whose request cannot be sent fails. */
    method Initiate(s: nat, k: nat, sent: bool) returns (ok: bool)
      requires Valid() && s < |lists| && k < |lists[s]|
      modifies `lists, `triggered, `components
      ensures Valid() && |lists| == |old(lists)| && (!ok ==> !sent && cleared != {})
      ensures sent ==> lists == With(old(lists), s, k, Started(old(lists)[s][k])) && triggered == old(triggered)
      ensures !sent ==> FailsAt(old(lists), s, k, selected, old(triggered), lists, triggered, ok)
    {
      hide AllOrdered, Thawed, Live, Backed, Prunes, PendingIn, Concluded;
      if sent {
        Start(s, k);
        ok := true;
      } else {
        var c := lists[s][k].component;
        Fail(s, k);
        ok := UpdateForReady(s, c);
      }
    }

    // Losing sockets and selections.

    /**
     `conn_check_prune_socket`: the pairs on a socket leave the list; if there were any, the
     component is looked at again. `destroyed`: it is the socket of the selected pair.
     */
    method PruneSocket(s: nat, c: nat, ids: set<nat>, destroyed: bool) returns (ok: bool, ghost queue: seq<nat>)
      requires Valid() && s < |lists|
      modifies `lists, `triggered, `components
      ensures Valid() && |lists| == |old(lists)| && lists == old(lists)[s := lists[s]] && (!ok ==> (s, c) in cleared)
      ensures PrunedSocket(old(lists)[s], c, ids, SelectedPriority(selected, s, c), old(triggered), queue, lists[s],
                           triggered, ok)
      ensures var kept := Sift(old(lists)[s], NotIn(old(lists)[s], ids), |old(lists)[s]|);
              var priority := SelectedPriority(selected, s, c);
              State(s, c) == if ok && |kept| < |old(lists)[s]| && Concluded(kept, c)
                                && PendingIn(lists[s], c, priority, triggered, |lists[s]|) == 0 then Ready
                             else if destroyed && old(State(s, c)) == Ready then ComponentFailed
                             else old(State(s, c))
    {
      hide AllOrdered, Thawed, Live, Backed, Prunes, PendingIn, Concluded, Sift, Dropped, IdsIn;
      if destroyed && State(s, c) == Ready {
        Signal(s, c, ComponentFailed);
      }
      var n := |lists[s]|;
      DropPairs(s, ids);
      queue, ok := triggered, true;
      if |lists[s]| < n {
        ok := UpdateForReady(s, c);
      }
    }

    /**
     `nice_component_remove_socket`: the selection goes with the candidate it was made of. Nominated
     pairs on other sockets stay in the list.
     */
    method LoseSocket(s: nat, c: nat, ids: set<nat>, destroyed: bool, owned: bool)
      returns (ok: bool, ghost queue: seq<nat>)
      requires Valid() && s < |lists|
      modifies `lists, `triggered, `components, `selected, `cleared
      ensures Valid() && |lists| == |old(lists)| && lists == old(lists)[s := lists[s]]
              && (!ok ==> (s, c) in old(cleared))
      ensures PrunedSocket(old(lists)[s], c, ids, SelectedPriority(old(selected), s, c), old(triggered), queue,
                           lists[s], triggered, ok)
      ensures if ok && owned
              then && selected == old(selected) - {(s, c)} && cleared == old(cleared) + {(s, c)}
                   && State(s, c) == ComponentFailed
              else selected == old(selected) && cleared == old(cleared)
    {
      hide AllOrdered, Thawed, Live, NominatedIn, PrunedSocket;
      ok, queue := PruneSocket(s, c, ids, destroyed);
      if ok && owned {
        selected, cleared := selected - {(s, c)}, cleared + {(s, c)};
        Signal(s, c, ComponentFailed);
      }
    }

    /** `nice_component_clean_turn_servers`: a selected relay stays selected, with priority zero. */
    method ForgetRelay(s: nat, c: nat)
      requires Valid()
      modifies `selected, `cleared
      ensures Valid()
      ensures if (s, c) in old(selected)
              then && selected == old(selected)[(s, c) := old(selected)[(s, c)].(priority := 0, retired := true)]
                   && cleared == old(cleared) + {(s, c)}
              else selected == old(selected) && cleared == old(cleared)
    {
      hide AllOrdered, Thawed, Live, NominatedIn;
      if (s, c) in selected {
        selected, cleared := selected[(s, c) := selected[(s, c)].(priority := 0, retired := true)], cleared + {(s, c)};
      }
    }

    // Selecting pairs.

    /**
     `conn_check_update_selected_pair`: the pair is selected if it is better than the selected one.
     If that one's relay was only kept for it, its socket is pruned first (the pairs `ids`), while the
     priority may still be zero.
     */
    method UpdateSelected(s: nat, p: Pair, ids: set<nat>) returns (ok: bool, ghost queue: seq<nat>)
      requires Valid() && s < |lists| && p.priority > 0
      modifies `lists, `triggered, `components, `selected, `cleared
      ensures Valid() && |lists| == |old(lists)| && lists == old(lists)[s := lists[s]]
      ensures !ok ==> (s, p.component) in old(cleared)
      ensures var c, was := p.component, SelectedPriority(old(selected), s, p.component);
              && (if p.priority > was && IsRetired(old(selected), s, c)
                  then PrunedSocket(old(lists)[s], c, ids, was, old(triggered), queue, lists[s], triggered, ok)
                  else ok && lists == old(lists) && triggered == old(triggered))
              && (if ok && p.priority > was
                  then selected == Select(old(selected), s, p) && cleared == old(cleared) - {(s, c)}
                  else selected == old(selected) && cleared == old(cleared))
    {
      hide AllOrdered, Thawed, Live, NominatedIn, PrunedSocket;
      ok, queue := true, triggered;
      if p.priority > SelectedPriority(selected, s, p.component) {
        if IsRetired(selected, s, p.component) {
          ok, queue := PruneSocket(s, p.component, ids, true);
          if !ok {
            return;
          }
        }
        selected, cleared := Select(selected, s, p), cleared - {(s, p.component)};
      }
    }

    /** Marks a valid pair nominated and selects it if it is better than the selected one. */
    method Nominate(s: nat, k: nat, ids: set<nat>) returns (ok: bool, ghost queue: seq<nat>)
      requires Valid() && s < |lists| && k < |lists[s]|
      modifies `lists, `triggered, `components, `selected, `cleared
      ensures Valid() && |lists| == |old(lists)|
      ensures var p := old(lists)[s][k].(nominated := true);
              var marked, was := With(old(lists), s, k, p), SelectedPriority(old(selected), s, p.component);
              && lists == marked[s := lists[s]] && (!ok ==> (s, p.component) in old(cleared))
              && (if p.priority > was && IsRetired(old(selected), s, p.component)
                  then PrunedSocket(marked[s], p.component, ids, was, old(triggered), queue, lists[s], triggered, ok)
                  else ok && lists == marked && triggered == old(triggered))
              && if ok && p.priority > was
                 then selected == Select(old(selected), s, p) && cleared == old(cleared) - {(s, p.component)}
                 else selected == old(selected) && cleared == old(cleared)
    {
      hide AllOrdered, Thawed, Live, Backed, PrunedSocket, SelectedPriority;
      ghost var before, chosen, was := lists, selected, cleared;
      PositivePriority(lists, s, k);
      var p := lists[s][k].(nominated := true);
      lists := With(lists, s, k, p);
      if (s, p.component) in selected {
        NominateSafe(before, chosen, was, s, k, p);
        ok, queue := UpdateSelected(s, p, ids);
      } else {
        NoneSelected(selected, s, p.component);
        selected, cleared := Select(selected, s, p), cleared - {(s, p.component)};
        NominateSafe(before, chosen, was, s, k, p);
        ok, queue := true, triggered;
      }
    }

    lemma NoneSelected(selected: map<Place, Selected>, s: nat, c: nat)
      requires (s, c) !in selected
      ensures SelectedPriority(selected, s, c) == 0
    {
    }

    /**
     `priv_get_highest_priority_nominated_pair`, and the selection of that pair if it is better. The
     assertion that there is a selected pair fails exactly if there is a nominated pair and none selected.
     */
    method Reselect(s: nat, c: nat, ids: set<nat>) returns (ok: bool, ghost queue: seq<nat>)
      requires Valid() && s < |lists|
      modifies `lists, `triggered, `components, `selected, `cleared
      ensures Valid() && |lists| == |old(lists)| && cleared <= old(cleared) && (!ok ==> (s, c) in old(cleared))
      ensures c in NominatedIn(old(lists)[s]) && (s, c) !in old(selected) ==> !ok
      ensures !ok ==> || (c in NominatedIn(old(lists)[s]) && (s, c) !in old(selected))
                      || (IsRetired(old(selected), s, c)
                          && PrunedSocket(old(lists)[s], c, ids, SelectedPriority(old(selected), s, c), old(triggered),
                                          queue, lists[s], triggered, false))
      ensures ok && !IsRetired(old(selected), s, c) ==> lists == old(lists) && WellSelected(lists[s], s, c, selected)
      ensures ok && selected != old(selected) ==> exists k ::
                && 0 <= k < |old(lists)[s]| && BestNominated(old(lists)[s], c, k)
                && !IsSelected(old(selected), s, old(lists)[s][k])
                && old(lists)[s][k].priority > SelectedPriority(old(selected), s, c)
                && selected == Select(old(selected), s, old(lists)[s][k])
    {
      hide Thawed, Live, Joins, Current, Distinct, PrunedSocket;
      ok, queue := true, triggered;
      for k := 0 to |lists[s]|
        invariant forall i :: 0 <= i < k ==> !(lists[s][i].nominated && lists[s][i].component == c)
      {
        if lists[s][k].nominated && lists[s][k].component == c {
          assert BestNominated(lists[s], c, k);
          NominatedMember(lists[s], k);
          PositivePriority(lists, s, k);
          if !IsSelected(selected, s, lists[s][k]) {
            if (s, c) !in selected {
              return false, queue;
            }
            ok, queue := UpdateSelected(s, lists[s][k], ids);
          }
          return;
        }
      }
    }

    // New pairs.

    /** A pair enters a list; if it is frozen, no pair of its foundation has succeeded. */
    lemma InsertSafe(before: seq<seq<Pair>>, s: nat, p: Pair)
      requires AllOrdered(before, controlling, known, p.id) && nextId == p.id + 1
      requires (missed || Thawed(before)) && Live(triggered, before) && Backed(before, selected, cleared)
               && OwnPriorities(known)
      requires s < |before| == |lists| && lists == before[s := lists[s]] && Sorted(lists[s])
               && Distinct(lists[s], nextId)
      requires forall q :: q in lists[s] <==> q in before[s] || q == p
      requires p.local in known.locals && p.remote in known.remotes && p.priority == PriorityOf(p, controlling, known)
      requires p.state != Succeeded && (p.nominated ==> p.component in NominatedIn(before[s]))
      requires p.state == Frozen ==>
                 forall t {:trigger before[t]} :: 0 <= t < |before| ==>
                   p.foundation !in FoundationsIn(before[t], Succeeded)
      ensures Valid()
    {
      hide Ordered, FoundationsIn, IdsIn, NominatedIn, Sorted, Distinct;
      InsertKeeps(before[s], lists[s], p, controlling, known, p.id);
      forall t {:trigger lists[t]} | 0 <= t < |lists| ensures Ordered(lists[t], controlling, known, nextId) {
        if t != s {
          OrderedLater(before[t], controlling, known, p.id);
        }
      }
      LiveSame(triggered, before, lists);
      BackedLess(before, lists, selected, cleared);
    }

    ghost function NewPair(before: seq<seq<Pair>>, id: nat, c: nat, local: CandidateId, remote: CandidateId,
                           foundation: string, frozen: bool): Pair
      requires local in known.locals && remote in known.remotes
      reads `known, `controlling
    {
      var succeeded := exists t :: 0 <= t < |before| && foundation in FoundationsIn(before[t], Succeeded);
      Pair(id, c, local, remote, foundation, if frozen && !succeeded then Frozen else Waiting, false, false, false, 0,
           AgentPairPriority(controlling, known.locals[local], known.remotes[remote]))
    }

    /** The pair enters the list of its stream. */
    method Insert(s: nat, c: nat, local: CandidateId, remote: CandidateId, foundation: string, frozen: bool)
      requires Valid() && s < |lists| && local in known.locals && remote in known.remotes
      modifies `lists, `nextId
      ensures Valid() && |lists| == |old(lists)| && lists == old(lists)[s := lists[s]]
      ensures forall q :: q in lists[s] <==>
                q in old(lists)[s] || q == NewPair(old(lists), old(nextId), c, local, remote, foundation, frozen)
      ensures nextId == old(nextId) + 1 && forall q :: q in old(lists)[s] ==> q.id != old(nextId)
    {
      hide Ordered, FoundationsIn, IdsIn, NominatedIn, Sorted, Distinct;
      var succeeded := HasSucceeded(lists, foundation);
      var p := Pair(nextId, c, local, remote, foundation, if frozen && !succeeded then Frozen else Waiting,
                    false, false, false, 0, AgentPairPriority(controlling, known.locals[local], known.remotes[remote]));
      ghost var before := lists;
      OrderedParts(lists[s], controlling, known, nextId);
      FreshId(lists[s]);
      var list' := InsertSorted(lists[s], p, nextId + 1);
      lists, nextId := lists[s := list'], nextId + 1;
      InsertSafe(before, s, p);
    }

    /** `priv_add_new_check_pair`: a new frozen pair starts waiting if a pair of its foundation has succeeded. */
    method AddPair(s: nat, c: nat, local: CandidateId, remote: CandidateId, foundation: string, frozen: bool)
      returns (added: bool)
      requires Valid() && s < |lists| && local in known.locals && remote in known.remotes
      modifies `lists, `triggered, `nextId, `components
      ensures Valid() && |lists| == |old(lists)| && lists == old(lists)[s := lists[s]]
      ensures forall q :: q in lists[s] ==>
                q in old(lists)[s] || q == NewPair(old(lists), old(nextId), c, local, remote, foundation, frozen)
      ensures forall q :: q in old(lists)[s] && q.state != Failed && q.state != Frozen ==> q in lists[s]
      ensures var priority := AgentPairPriority(controlling, known.locals[local], known.remotes[remote]);
              nextId == old(nextId) + if SelectedPriority(selected, s, c) <= priority then 1 else 0
      ensures added <==> NewPair(old(lists), old(nextId), c, local, remote, foundation, frozen) in lists[s]
      ensures nextId > old(nextId) ==> forall k {:trigger lists[s][k]} :: 0 <= k < |lists[s]| ==>
                lists[s][k].state != Failed && (lists[s][k].state == Frozen ==> k < maxConnChecks)
      ensures added ==>
                SelectedPriority(selected, s, c)
                <= AgentPairPriority(controlling, known.locals[local], known.remotes[remote])
      ensures State(s, c) == if !added then old(State(s, c))
                             else if old(State(s, c)) == Connected || old(State(s, c)) == Ready then Connected
                             else Connecting
    {
      hide Ordered, Thawed, Live, Backed, Sift, Dropped, FoundationsIn, PairPriority;
      var priority := AgentPairPriority(controlling, known.locals[local], known.remotes[remote]);
      if SelectedPriority(selected, s, c) != 0 && priority < SelectedPriority(selected, s, c) {
        FreshId(lists[s]);
        return false;
      }
      var id := nextId;
      Insert(s, c, local, remote, foundation, frozen);
      LimitedMembers(lists[s]);
      Limit(s);
      added := exists q | q in lists[s] :: q.id == id;
      if added {
        Signal(s, c, if State(s, c) == Connected || State(s, c) == Ready then Connected else Connecting);
      }
    }

    lemma FreshId(list: seq<Pair>)
      requires Ordered(list, controlling, known, nextId)
      ensures forall q :: q in list ==> q.id != nextId
    {
    }

    lemma LimitedMembers(list: seq<Pair>)
      ensures var r := Sift(list, WithinLimit(list, maxConnChecks), |list|);
              && (forall q :: q in r ==> q in list)
              && (forall q :: q in list && q.state != Failed && q.state != Frozen ==> q in r)
              && forall k {:trigger r[k]} :: 0 <= k < |r| ==>
                   r[k].state != Failed && (r[k].state == Frozen ==> k < maxConnChecks)
    {
      var keep := WithinLimit(list, maxConnChecks);
      SiftMembers(list, keep, |list|);
      forall k | 0 <= k < |list| && list[k].state != Failed && list[k].state != Frozen
        ensures list[k] in Sift(list, keep, |list|)
      {
        assert keep[k];
      }
      var r := Sift(list, keep, |list|);
      forall k {:trigger r[k]} | 0 <= k < |r|
        ensures r[k].state != Failed && (r[k].state == Frozen ==> k < maxConnChecks)
      {
        SiftPlace(list, keep, |list|, k);
      }
    }

    lemma OrderedParts(list: seq<Pair>, controlling: bool, known: Known, nextId: nat)
      requires Ordered(list, controlling, known, nextId)
      ensures Sorted(list) && Distinct(list, nextId + 1) && nextId !in IdsIn(list)
    {
    }

    /** `priv_add_peer_reflexive_pair`: the valid pair a successful check on pair `k` discovered. */
    method AddDiscovered(s: nat, k: nat, local: CandidateId, foundation: string)
      requires Valid() && s < |lists| && k < |lists[s]| && local in known.locals
      modifies `lists, `nextId
      ensures Valid() && |lists| == |old(lists)| && lists == old(lists)[s := lists[s]]
              && |lists[s]| == |old(lists)[s]| + 1
      ensures var parent := old(lists)[s][k];
              && parent.remote in known.remotes
              && var p := Pair(old(nextId), parent.component, local, parent.remote, foundation, Discovered,
                               parent.nominated, true, false, 0,
                               AgentPairPriority(controlling, known.locals[local], known.remotes[parent.remote]));
              forall q :: q in lists[s] <==> q in old(lists)[s] || q == p
    {
      hide Ordered, FoundationsIn, IdsIn, NominatedIn, Sorted, Distinct, Sift, Dropped;
      var parent := lists[s][k];
      ParentKnown(lists[s], k);
      NominatedMember(lists[s], k);
      var p := Pair(nextId, parent.component, local, parent.remote, foundation, Discovered,
                    parent.nominated, true, false, 0,
                    AgentPairPriority(controlling, known.locals[local], known.remotes[parent.remote]));
      ghost var before := lists;
      OrderedParts(lists[s], controlling, known, nextId);
      var list' := InsertSorted(lists[s], p, nextId + 1);
      lists, nextId := lists[s := list'], nextId + 1;
      InsertSafe(before, s, p);
    }

    lemma ParentKnown(list: seq<Pair>, k: nat)
      requires Ordered(list, controlling, known, nextId) && k < |list|
      ensures list[k].remote in known.remotes
    {
    }

    // Roles and priorities.

    /** `recalculate_pair_priorities`: every list is current and sorted again. */
    method Recalculate(ghost was: bool, ghost wasKnown: Known)
      requires AllOrdered(lists, was, wasKnown, nextId)
      requires wasKnown.locals.Keys <= known.locals.Keys && wasKnown.remotes.Keys <= known.remotes.Keys
      requires (missed || Thawed(lists)) && Live(triggered, lists) && Backed(lists, selected, cleared)
               && OwnPriorities(known)
      modifies `lists
      ensures Valid() && |lists| == |old(lists)|
      ensures forall s {:trigger lists[s]} :: 0 <= s < |lists| ==>
                IdsIn(lists[s]) == IdsIn(old(lists)[s]) && Reranks(old(lists)[s], lists[s])
    {
      hide Ordered, FoundationsIn, IdsIn, NominatedIn, Sorted, Distinct, Current, Joins, Reranks;
      ghost var before := lists;
      for s := 0 to |lists|
        invariant |lists| == |before|
        invariant forall t {:trigger lists[t]} :: s <= t < |lists| ==> lists[t] == before[t]
        invariant forall t {:trigger lists[t]} :: 0 <= t < s ==>
                    && Ordered(lists[t], controlling, known, nextId)
                    && IdsIn(lists[t]) == IdsIn(before[t]) && Reranks(before[t], lists[t])
                    && NominatedIn(lists[t]) <= NominatedIn(before[t])
                    && FoundationsIn(lists[t], Succeeded) <= FoundationsIn(before[t], Succeeded)
                    && FoundationsIn(lists[t], Frozen) <= FoundationsIn(before[t], Frozen)
      {
        StillJoins(lists[s], was, wasKnown, nextId);
        var list' := Reprioritize(lists[s], controlling, known, nextId);
        ReprioritizeKeeps(lists[s], list', controlling, known);
        lists := lists[s := list'];
      }
      if Thawed(before) {
        ThawedLess(before, lists);
      }
      LiveSame(triggered, before, lists);
      BackedLess(before, lists, selected, cleared);
    }

    lemma StillJoins(list: seq<Pair>, was: bool, wasKnown: Known, nextId: nat)
      requires Ordered(list, was, wasKnown, nextId)
      requires wasKnown.locals.Keys <= known.locals.Keys && wasKnown.remotes.Keys <= known.remotes.Keys
      ensures Joins(list, known) && Distinct(list, nextId)
    {
    }

    /** `priv_check_for_role_conflict`. */
    method SetRole(control: bool)
      requires Valid()
      modifies `controlling, `lists
      ensures Valid() && controlling == control && |lists| == |old(lists)|
      ensures control == old(controlling) ==> lists == old(lists)
      ensures control != old(controlling) ==>
                forall s {:trigger lists[s]} :: 0 <= s < |lists| ==>
                  IdsIn(lists[s]) == IdsIn(old(lists)[s]) && Reranks(old(lists)[s], lists[s])
    {
      hide AllOrdered;
      if control != controlling {
        ghost var was := controlling;
        controlling := control;
        Recalculate(was, known);
      }
    }

    /** A remote candidate is signalled, for the first time or with another priority. */
    method SetRemote(id: CandidateId, priority: u32)
      requires Valid()
      modifies `known, `lists
      ensures Valid() && known == old(known).(remotes := old(known).remotes[id := priority]) && |lists| == |old(lists)|
      ensures forall s {:trigger lists[s]} :: 0 <= s < |lists| ==>
                IdsIn(lists[s]) == IdsIn(old(lists)[s]) && Reranks(old(lists)[s], lists[s])
    {
      hide AllOrdered;
      ghost var was := known;
      known := known.(remotes := known.remotes[id := priority]);
      Recalculate(controlling, was);
    }

    /** A local candidate is gathered or discovered. */
    method AddLocal(id: CandidateId, priority: u32)
      requires Valid() && id !in known.locals && 1 <= priority <= 0x7eff_ffff
      modifies `known
      ensures Valid() && known == old(known).(locals := old(known).locals[id := priority])
    {
      known := known.(locals := known.locals[id := priority]);
    }
  }

  // Runs.

  datatype Step =
    | GatherLocal(id: CandidateId, priority: u32)
    | SignalRemote(id: CandidateId, priority: u32)
    | FormPair(s: nat, c: nat, local: CandidateId, remote: CandidateId, foundation: string, frozen: bool)
    | DiscoverPair(s: nat, k: nat, local: CandidateId, foundation: string)
    | OrdinaryCheck(s: nat, sent: bool)
    | TriggeredCheck(sent: bool)
    | ScheduleCheck(s: nat, k: nat)
    | CheckSucceeds(s: nat, k: nat, valid: bool)
    | UnmappedSuccess(s: nat, k: nat)
    | CheckFails(s: nat, k: nat)
    | NominatePair(s: nat, k: nat, ids: set<nat>)
    | RenamePair(s: nat, k: nat, foundation: string)
    | ReselectPair(s: nat, c: nat, ids: set<nat>)
    | UpdateState(s: nat, c: nat)
    | ConflictRole(control: bool)
    | LoseSocket(s: nat, c: nat, ids: set<nat>, destroyed: bool, owned: bool)
    | ForgetRelay(s: nat, c: nat)

  /** `r` is what the unfreeze pass makes of `lists`. */
  ghost predicate Unfrozen(lists: seq<seq<Pair>>, r: seq<seq<Pair>>) {
    && |r| == |lists|
    && (AnyHasState(lists, Waiting) ==> r == lists)
    && (!AnyHasState(lists, Waiting) ==>
          forall s {:trigger r[s]} :: 0 <= s < |lists| ==> Thaws(lists[s], r[s], FrozenBefore(lists, s)))
  }

  /** `priv_conn_check_ordinary_check`: thaw if nothing waits here, then check the best waiting pair. */
  method CheckOrdinary(agent: Agent, s: nat, sent: bool) returns (ok: bool, ghost mid: seq<seq<Pair>>)
    requires agent.Valid() && s < |agent.lists|
    modifies agent`lists, agent`triggered, agent`components
    ensures agent.Valid() && |agent.lists| == |mid| == |old(agent.lists)| && (!ok ==> agent.cleared != {})
    ensures if HasState(old(agent.lists)[s], Waiting) then mid == old(agent.lists) else Unfrozen(old(agent.lists), mid)
    ensures HasState(mid[s], Waiting) ==>
              exists k ::
                && 0 <= k < |mid[s]| && BestWaiting(mid[s], k)
                && if sent
                   then && ok && agent.lists == With(mid, s, k, Started(mid[s][k]))
                        && agent.triggered == old(agent.triggered)
                   else FailsAt(mid, s, k, agent.selected, old(agent.triggered), agent.lists, agent.triggered, ok)
    ensures !HasState(mid[s], Waiting) ==> ok && agent.lists == mid
  {
    hide Thawed, Live, Backed, OwnPriorities, Thaws, FailsAt;
    var found, k := FindNextWaiting(agent.lists[s]);
    if !found {
      var _ := agent.UnfreezeNext();
      found, k := FindNextWaiting(agent.lists[s]);
    }
    ok, mid := true, agent.lists;
    if found {
      ok := agent.Initiate(s, k, sent);
    }
  }

  /** `priv_conn_check_triggered_check`: the oldest queued pair is checked, whatever its state. */
  method CheckTriggered(agent: Agent, sent: bool) returns (ok: bool)
    requires agent.Valid()
    modifies agent`lists, agent`triggered, agent`components
    ensures agent.Valid() && |agent.lists| == |old(agent.lists)| && (!ok ==> agent.cleared != {})
    ensures old(agent.triggered) == [] ==> ok && agent.lists == old(agent.lists) && agent.triggered == []
    ensures old(agent.triggered) != [] ==>
              var lists, queue := old(agent.lists), old(agent.triggered);
              exists s, k ::
                && 0 <= s < |lists| && 0 <= k < |lists[s]| && lists[s][k].id == queue[0]
                && if sent
                   then ok && agent.lists == With(lists, s, k, Started(lists[s][k])) && agent.triggered == queue[1..]
                   else FailsAt(lists, s, k, agent.selected, queue[1..], agent.lists, agent.triggered, ok)
  {
    hide Thawed, Live, Backed, OwnPriorities, AllOrdered, FailsAt;
    ok := true;
    var id, found := agent.TakeTriggered();
    if found {
      var s, k := FindPair(agent.lists, id);
      ok := agent.Initiate(s, k, sent);
    }
  }

  method FindPair(lists: seq<seq<Pair>>, id: nat) returns (s: nat, k: nat)
    requires exists t :: 0 <= t < |lists| && id in IdsIn(lists[t])
    ensures s < |lists| && k < |lists[s]| && lists[s][k].id == id
  {
    s := 0;
    while s < |lists|
      invariant s <= |lists| && forall t :: 0 <= t < s ==> id !in IdsIn(lists[t])
    {
      k := 0;
      while k < |lists[s]|
        invariant k <= |lists[s]| && forall i :: 0 <= i < k ==> lists[s][i].id != id
      {
        if lists[s][k].id == id {
          return;
        }
        k := k + 1;
      }
      s := s + 1;
    }
    assert false;
  }

  /** The step names a pair that exists. */
  predicate Names(lists: seq<seq<Pair>>, s: nat, k: nat) {
    s < |lists| && k < |lists[s]|
  }

  predicate IsCheck(step: Step) {
    || step.OrdinaryCheck? || step.TriggeredCheck? || step.ScheduleCheck? || step.CheckSucceeds?
    || step.UnmappedSuccess? || step.CheckFails? || step.NominatePair?
  }

  /** Steps that belong to one check. */
  method PerformCheck(agent: Agent, step: Step) returns (ok: bool)
    requires agent.Valid() && IsCheck(step)
    modifies agent`lists, agent`triggered, agent`components, agent`selected, agent`cleared
    ensures agent.Valid() && |agent.lists| == |old(agent.lists)|
    ensures agent.cleared <= old(agent.cleared) && (!ok ==> old(agent.cleared) != {})
    ensures step.ScheduleCheck? && Names(old(agent.lists), step.s, step.k) ==>
              old(agent.lists)[step.s][step.k].id in agent.triggered
    ensures (step.CheckSucceeds? || step.UnmappedSuccess?) && Names(old(agent.lists), step.s, step.k) ==>
              |agent.lists[step.s]| == |old(agent.lists)[step.s]| && agent.lists[step.s][step.k].state == Succeeded
    ensures step.CheckSucceeds? && Names(old(agent.lists), step.s, step.k) ==>
              old(agent.lists)[step.s][step.k].id !in agent.triggered
    ensures step.CheckFails? && Names(old(agent.lists), step.s, step.k) ==>
              agent.lists == With(old(agent.lists), step.s, step.k, Stopped(old(agent.lists)[step.s][step.k], Failed))
    ensures step.NominatePair? && Names(old(agent.lists), step.s, step.k) && old(agent.lists)[step.s][step.k].valid ==>
              (var p := old(agent.lists)[step.s][step.k];
               ok && !IsRetired(old(agent.selected), step.s, p.component) ==>
                 && agent.lists == With(old(agent.lists), step.s, step.k, p.(nominated := true))
                 && SelectedPriority(agent.selected, step.s, p.component) >= p.priority)
  {
    hide Thawed, Live, Backed, OwnPriorities, AllOrdered, Unfreezes, OnlyChanges, IdsIn, FoundationsIn, Thaws,
         BestWaiting, FailsAt, PrunedSocket;
    ok := true;
    match step
    case OrdinaryCheck(s, sent) =>
      if s < |agent.lists| {
        ghost var mid;
        ok, mid := CheckOrdinary(agent, s, sent);
      }
    case TriggeredCheck(sent) => ok := CheckTriggered(agent, sent);
    case ScheduleCheck(s, k) =>
      if s < |agent.lists| && k < |agent.lists[s]| {
        agent.Trigger(s, k);
      }
    case CheckSucceeds(s, k, valid) =>
      if s < |agent.lists| && k < |agent.lists[s]| {
        agent.Succeed(s, k, valid);
      }
    case UnmappedSuccess(s, k) =>
      if s < |agent.lists| && k < |agent.lists[s]| {
        agent.SucceedUnmapped(s, k);
      }
    case CheckFails(s, k) =>
      if s < |agent.lists| && k < |agent.lists[s]| {
        agent.Fail(s, k);
      }
    case NominatePair(s, k, ids) =>
      if s < |agent.lists| && k < |agent.lists[s]| && agent.lists[s][k].valid {
        ghost var queue;
        ok, queue := agent.Nominate(s, k, ids);
      }
  }

  predicate IsSelection(step: Step) {
    step.RenamePair? || step.ReselectPair? || step.UpdateState? || step.LoseSocket? || step.ForgetRelay?
  }

  /** Steps that look at the selected pair, or change it. */
  method PerformSelection(agent: Agent, step: Step) returns (ok: bool)
    requires agent.Valid() && IsSelection(step)
    modifies agent`lists, agent`triggered, agent`components, agent`selected, agent`cleared, agent`missed
    ensures agent.Valid() && |agent.lists| == |old(agent.lists)|
    ensures (!ok ==> old(agent.cleared) != {}) && (!Clears(step) ==> agent.cleared <= old(agent.cleared))
    ensures agent.missed <==> old(agent.missed) || (step.RenamePair? && Names(old(agent.lists), step.s, step.k)
                                                   && LeavesFrozen(old(agent.lists), step.s, step.k, step.foundation))
    ensures step.ReselectPair? && step.s < |agent.lists| && ok && !IsRetired(old(agent.selected), step.s, step.c) ==>
              WellSelected(agent.lists[step.s], step.s, step.c, agent.selected)
    ensures step.LoseSocket? && step.s < |agent.lists| && ok && step.owned ==> (step.s, step.c) !in agent.selected
    ensures step.ForgetRelay? ==> SelectedPriority(agent.selected, step.s, step.c) == 0
    ensures step.UpdateState? && step.s < |agent.lists| ==>
              var priority := SelectedPriority(agent.selected, step.s, step.c);
              && (!ok <==> Concluded(old(agent.lists)[step.s], step.c) && priority == 0)
              && (ok && Concluded(old(agent.lists)[step.s], step.c) ==>
                    || agent.State(step.s, step.c) == Ready
                    || PendingIn(agent.lists[step.s], step.c, priority, agent.triggered, |agent.lists[step.s]|) > 0)
  {
    hide Thawed, Live, Backed, OwnPriorities, AllOrdered, IdsIn, FoundationsIn, NominatedIn, Prunes, PendingIn,
         Concluded, LeavesFrozen, BestNominated, WellSelected, RenamedTo, PrunedSocket;
    ok := true;
    match step
    case RenamePair(s, k, foundation) =>
      if s < |agent.lists| && k < |agent.lists[s]| {
        agent.Rename(s, k, foundation);
      }
    case ReselectPair(s, c, ids) =>
      if s < |agent.lists| {
        ghost var queue;
        ok, queue := agent.Reselect(s, c, ids);
      }
    case UpdateState(s, c) =>
      if s < |agent.lists| {
        ok := agent.UpdateForReady(s, c);
      }
    case LoseSocket(s, c, ids, destroyed, owned) =>
      if s < |agent.lists| {
        ghost var queue;
        ok, queue := agent.LoseSocket(s, c, ids, destroyed, owned);
      }
    case ForgetRelay(s, c) => agent.ForgetRelay(s, c);
  }

  /** Steps that bring candidates and pairs, and the change of role. */
  method PerformGathering(agent: Agent, step: Step)
    requires agent.Valid() && !IsCheck(step) && !IsSelection(step)
    modifies agent`lists, agent`triggered, agent`components, agent`known, agent`controlling, agent`nextId
    ensures agent.Valid() && |agent.lists| == |old(agent.lists)|
    ensures step.GatherLocal? && 1 <= step.priority <= 0x7eff_ffff ==> step.id in agent.known.locals
    ensures step.SignalRemote? ==> step.id in agent.known.remotes && agent.known.remotes[step.id] == step.priority
    ensures step.ConflictRole? ==> agent.controlling == step.control
    ensures var known := old(agent.known);
            step.FormPair? && step.s < |agent.lists| && step.local in known.locals && step.remote in known.remotes ==>
              var priority := AgentPairPriority(agent.controlling, known.locals[step.local],
                                                known.remotes[step.remote]);
              agent.nextId == old(agent.nextId)
                + if SelectedPriority(agent.selected, step.s, step.c) <= priority then 1 else 0
    ensures step.DiscoverPair? && Names(old(agent.lists), step.s, step.k) && step.local in old(agent.known).locals ==>
              |agent.lists[step.s]| == |old(agent.lists)[step.s]| + 1
  {
    hide Thawed, Live, Backed, OwnPriorities, AllOrdered, IdsIn, FoundationsIn, Reranks, AgentPairPriority,
         SelectedPriority;
    match step
    case GatherLocal(id, priority) =>
      if id !in agent.known.locals && 1 <= priority <= 0x7eff_ffff {
        agent.AddLocal(id, priority);
      }
    case SignalRemote(id, priority) => agent.SetRemote(id, priority);
    case FormPair(s, c, local, remote, foundation, frozen) =>
      if s < |agent.lists| && local in agent.known.locals && remote in agent.known.remotes {
        var _ := agent.AddPair(s, c, local, remote, foundation, frozen);
      }
    case DiscoverPair(s, k, local, foundation) =>
      if s < |agent.lists| && k < |agent.lists[s]| && local in agent.known.locals {
        agent.AddDiscovered(s, k, local, foundation);
      }
    case ConflictRole(control) => agent.SetRole(control);
  }

  /** One step; it ends the program exactly in the cases its method states. */
  method Perform(agent: Agent, step: Step) returns (ok: bool)
    requires agent.Valid()
    modifies agent
    ensures agent.Valid() && |agent.lists| == |old(agent.lists)|
    ensures (!ok ==> old(agent.cleared) != {}) && (!Clears(step) ==> agent.cleared <= old(agent.cleared))
    ensures agent.missed <==> old(agent.missed) || (step.RenamePair? && Names(old(agent.lists), step.s, step.k)
                                                   && LeavesFrozen(old(agent.lists), step.s, step.k, step.foundation))
    ensures step.ConflictRole? ==> agent.controlling == step.control
    ensures step.ScheduleCheck? && Names(old(agent.lists), step.s, step.k) ==>
              old(agent.lists)[step.s][step.k].id in agent.triggered
  {
    hide Agent.Valid, LeavesFrozen, Concluded, WellSelected, PendingIn, SelectedPriority, AgentPairPriority;
    ok := true;
    if IsCheck(step) {
      ok := PerformCheck(agent, step);
    } else if IsSelection(step) {
      ok := PerformSelection(agent, step);
    } else {
      PerformGathering(agent, step);
    }
  }

  /** Steps that take a component's selection away. */
  predicate Clears(step: Step) {
    step.ForgetRelay? || (step.LoseSocket? && step.owned)
  }

  /**
   In every run each list stays sorted by the priorities of the present role, the queue holds only
   pairs that are in a list, and no frozen pair shares a foundation with a succeeded one, unless a
   frozen pair was given such a foundation. Only a run in which a selection is cleared can end in a
   failing assertion, after `n` steps.
   */
  method Run(streams: nat, controlling: bool, maxConnChecks: nat, steps: seq<Step>)
    returns (role: bool, lists: seq<seq<Pair>>, triggered: seq<nat>, known: Known, nextId: nat, missed: bool, n: nat)
    ensures |lists| == streams && n <= |steps|
    ensures AllOrdered(lists, role, known, nextId) && Live(triggered, lists)
    ensures missed || Thawed(lists)
    ensures (forall i :: 0 <= i < |steps| ==> !steps[i].RenamePair?) ==> !missed
    ensures (forall i :: 0 <= i < |steps| ==> !Clears(steps[i])) ==> n == |steps|
    ensures 0 < n == |steps| && steps[n - 1].ConflictRole? ==> role == steps[n - 1].control
  {
    hide Thawed, Live, Backed, OwnPriorities, AllOrdered, LeavesFrozen;
    var agent := new Agent(streams, controlling, maxConnChecks);
    n := 0;
    while n < |steps|
      invariant n <= |steps| && agent.Valid() && |agent.lists| == streams && fresh(agent)
      invariant (forall j :: 0 <= j < n ==> !steps[j].RenamePair?) ==> !agent.missed
      invariant (forall j :: 0 <= j < n ==> !Clears(steps[j])) ==> agent.cleared == {}
      invariant n > 0 && steps[n - 1].ConflictRole? ==> agent.controlling == steps[n - 1].control
    {
      var ok := Perform(agent, steps[n]);
      if !ok {
        break;
      }
      n := n + 1;
    }
    return agent.controlling, agent.lists, agent.triggered, agent.known, agent.nextId, agent.missed, n;
  }

  /** A checked, nominated pair of the component that is not queued. */
  ghost predicate Settles(q: Pair, c: nat, queue: seq<nat>) {
    q.component == c && q.valid && q.nominated && (q.state == Succeeded || q.state == Discovered) && q.id !in queue
  }

  /** Such a pair on another socket survives the loss of a socket. */
  lemma SettledSurvives(list: seq<Pair>, c: nat, ids: set<nat>, priority: nat, queue: seq<nat>, mid: seq<nat>,
                        list': seq<Pair>, queue': seq<nat>, ok: bool, q: Pair)
    requires PrunedSocket(list, c, ids, priority, queue, mid, list', queue', ok)
    requires q in list && q.id !in ids && Settles(q, c, queue)
    ensures q in Sift(list, NotIn(list, ids), |list|) && Concluded(list', c)
  {
    hide Sift, Dropped, Prunes;
    var kept := Sift(list, NotIn(list, ids), |list|);
    var k :| 0 <= k < |list| && list[k] == q;
    SiftHolds(list, NotIn(list, ids), |list|, k);
    var j :| 0 <= j < |kept| && kept[j] == q;
    if Prunes(kept, c, priority, mid, list', queue') {
      PruneSpares(kept, c, priority, mid, list', queue', j);
    }
  }

  /**
   The assertion before pruning fails: whenever two nominated pairs are on two sockets, the socket of
   the selected one is lost, and then the component is looked at again.
   */
  method FailAfterLoss(agent: Agent, s: nat, c: nat, ids: set<nat>, destroyed: bool, ghost q: Pair) returns (ok: bool)
    requires agent.Valid() && s < |agent.lists| && (s, c) !in agent.cleared
    requires q in agent.lists[s] && q.id !in ids && Settles(q, c, agent.triggered)
    modifies agent`lists, agent`triggered, agent`components, agent`selected, agent`cleared
    ensures !ok
  {
    hide Thawed, Live, Backed, OwnPriorities, AllOrdered, PrunedSocket, Settles, Concluded;
    ghost var list, queue := agent.lists[s], agent.triggered;
    ghost var priority := SelectedPriority(agent.selected, s, c);
    ghost var mid;
    ok, mid := agent.LoseSocket(s, c, ids, destroyed, true);
    SettledSurvives(list, c, ids, priority, queue, mid, agent.lists[s], agent.triggered, ok, q);
    ok := agent.UpdateForReady(s, c);
  }

  /**
   And whenever the relays are forgotten while one of them is selected, another has a pair, and a
   nominated pair is not on that other one.
   */
  method FailAfterForgetting(agent: Agent, s: nat, c: nat, ids: set<nat>, ghost q: Pair, ghost other: nat)
    returns (ok: bool)
    requires agent.Valid() && s < |agent.lists| && (s, c) in agent.selected
    requires q in agent.lists[s] && q.id !in ids && Settles(q, c, agent.triggered)
    requires other < |agent.lists[s]| && agent.lists[s][other].id in ids
    modifies agent`lists, agent`triggered, agent`components, agent`selected, agent`cleared
    ensures !ok
  {
    hide Thawed, Live, Backed, OwnPriorities, AllOrdered, Settles, Sift, Dropped;
    ghost var list, queue := agent.lists[s], agent.triggered;
    agent.ForgetRelay(s, c);
    ghost var mid;
    ok, mid := agent.PruneSocket(s, c, ids, false);
    SettledSurvives(list, c, ids, 0, queue, mid, agent.lists[s], agent.triggered, ok, q);
    SiftShorter(list, NotIn(list, ids), |list|, other);
    SettledConcludes(Sift(list, NotIn(list, ids), |list|), c, queue, q);
  }

  /**
   And whenever, after that, a pair on another socket is nominated: the socket of the retired relay,
   which has a pair, is pruned before the new priority is stored.
   */
  method FailAtNomination(agent: Agent, s: nat, k: nat, ids: set<nat>, ghost other: nat) returns (ok: bool)
    requires agent.Valid() && s < |agent.lists| && k < |agent.lists[s]| && other < |agent.lists[s]|
    requires var p := agent.lists[s][k];
             && Settles(p.(nominated := true), p.component, agent.triggered) && p.id !in ids
             && IsRetired(agent.selected, s, p.component) && SelectedPriority(agent.selected, s, p.component) == 0
    requires agent.lists[s][other].id in ids
    modifies agent`lists, agent`triggered, agent`components, agent`selected, agent`cleared
    ensures !ok
  {
    hide Thawed, Live, Backed, OwnPriorities, AllOrdered, Sift, Dropped;
    ghost var p, queue := agent.lists[s][k].(nominated := true), agent.triggered;
    ghost var list := agent.lists[s][k := p];
    assert list[k] == p && list[other].id in ids;
    agent.PositivePriority(agent.lists, s, k);
    ghost var mid;
    ok, mid := agent.Nominate(s, k, ids);
    SettledSurvives(list, p.component, ids, 0, queue, mid, agent.lists[s], agent.triggered, ok, p);
    SiftShorter(list, NotIn(list, ids), |list|, other);
    SettledConcludes(Sift(list, NotIn(list, ids), |list|), p.component, queue, p);
  }

  lemma SettledConcludes(list: seq<Pair>, c: nat, queue: seq<nat>, q: Pair)
    requires q in list && Settles(q, c, queue)
    ensures Concluded(list, c)
  {
  }

  /** Two agents in opposite roles that agree on the priorities of the candidates rank shared pairs alike. */
  lemma AgentsRankAlike(list: seq<Pair>, list': seq<Pair>, controlling: bool, known: Known, known': Known,
                        nextId: nat, nextId': nat, i: nat, j: nat, i': nat, j': nat)
    requires Ordered(list, controlling, known, nextId) && Ordered(list', !controlling, known', nextId')
    requires i < |list| && j < |list| && i' < |list'| && j' < |list'|
    requires Mirrors(list[i], known, list'[i'], known') && Mirrors(list[j], known, list'[j'], known')
    ensures list'[i'].priority == list[i].priority && list'[j'].priority == list[j].priority
    ensures list[i].priority != list[j].priority ==> (i < j <==> i' < j')
  {
    assert list[i] in list && list[j] in list && list'[i'] in list' && list'[j'] in list';
  }

  /** The two candidates of `p` have the same priorities for the other agent, whatever else either knows. */
  ghost predicate Mirrors(p: Pair, known: Known, p': Pair, known': Known) {
    && p.local in known.locals && p.remote in known.remotes && p'.local in known'.locals && p'.remote in known'.remotes
    && known'.locals[p'.local] == known.remotes[p.remote] && known'.remotes[p'.remote] == known.locals[p.local]
  }
}
