/**
 Asynchronous removal of TURN refreshes: overlapping prunes, each of which completes when the last
 refresh it has claimed is freed.
 */
module RefreshPrune {
  datatype Owner = Nobody | Prune(index: nat)

  /** A refresh that is disposing is claimed by the prune that marked it. */
  datatype Refresh = Refresh(stream: nat, candidate: nat, disposing: bool, owner: Owner)

  datatype Which = All | OfStream(stream: nat) | OfCandidate(candidate: nat)

  predicate Concerns(w: Which, r: Refresh) {
    match w
    case All => true
    case OfStream(s) => r.stream == s
    case OfCandidate(c) => r.candidate == c
  }

  /** The live refreshes claimed by prune `d`. */
  ghost function Claims(list: seq<Refresh>, d: nat): nat {
    if list == [] then 0
    else Claims(list[..|list| - 1], d) + if list[|list| - 1].owner == Prune(d) then 1 else 0
  }

  lemma {:induction false} ClaimsJoin(a: seq<Refresh>, b: seq<Refresh>, d: nat)
    ensures Claims(a + b, d) == Claims(a, d) + Claims(b, d)
  {
    if b == [] {
      assert a + b == a;
    } else {
      var n := |b| - 1;
      assert (a + b)[..|a + b| - 1] == a + b[..n];
      ClaimsJoin(a, b[..n], d);
    }
  }

  lemma ClaimsAt(list: seq<Refresh>, k: nat, d: nat)
    requires k < |list|
    ensures Claims(list, d) == Claims(list[..k] + list[k + 1..], d) + if list[k].owner == Prune(d) then 1 else 0
  {
    assert list == list[..k] + ([list[k]] + list[k + 1..]);
    ClaimsJoin(list[..k], [list[k]] + list[k + 1..], d);
    ClaimsJoin([list[k]], list[k + 1..], d);
    ClaimsJoin(list[..k], list[k + 1..], d);
    assert [list[k]][..0] == [];
  }

  lemma {:induction false} NoClaims(list: seq<Refresh>, d: nat)
    ensures Claims(list, d) == 0 <==> forall k :: 0 <= k < |list| ==> list[k].owner != Prune(d)
  {
    if list != [] {
      NoClaims(list[..|list| - 1], d);
    }
  }

  /** Claiming a refresh that nobody has claimed. */
  lemma ClaimsSet(list: seq<Refresh>, k: nat, r: Refresh, d: nat)
    requires k < |list| && list[k].owner == Nobody
    ensures Claims(list[k := r], d) == Claims(list, d) + if r.owner == Prune(d) then 1 else 0
  {
    ClaimsAt(list, k, d);
    ClaimsAt(list[k := r], k, d);
    assert list[k := r][..k] == list[..k] && list[k := r][k + 1..] == list[k + 1..];
  }

  class RefreshList {
    var refreshes: seq<Refresh>
    /** `items_to_free` of every prune begun so far. */
    var itemsToFree: seq<nat>
    /** The prunes whose completion has been scheduled, in that order. */
    var completions: seq<nat>

    ghost predicate Valid()
      reads this
    {
      && (forall k {:trigger refreshes[k]} :: 0 <= k < |refreshes| ==> Claimed(refreshes[k], |itemsToFree|))
      && (forall d {:trigger itemsToFree[d]} :: 0 <= d < |itemsToFree| ==> itemsToFree[d] == Claims(refreshes, d))
      && (forall d {:trigger itemsToFree[d]} {:trigger d in completions} :: 0 <= d < |itemsToFree| ==>
            (d in completions <==> Claims(refreshes, d) == 0))
      && (forall d :: d in completions ==> d < |itemsToFree|)
      && forall i, j :: 0 <= i < j < |completions| ==> completions[i] != completions[j]
    }

    constructor ()
      ensures Valid() && refreshes == [] && itemsToFree == [] && completions == []
    {
      refreshes, itemsToFree, completions := [], [], [];
    }

    method Add(stream: nat, candidate: nat)
      requires Valid()
      modifies `refreshes
      ensures Valid() && refreshes == old(refreshes) + [Refresh(stream, candidate, false, Nobody)]
    {
      ghost var before := refreshes;
      refreshes := refreshes + [Refresh(stream, candidate, false, Nobody)];
      forall d: nat ensures Claims(refreshes, d) == Claims(before, d) {
        assert refreshes[..|refreshes| - 1] == before;
      }
    }

    /** `on_refresh_removed`: the last one schedules the completion. */
    method OnRefreshRemoved(d: nat)
      requires d < |itemsToFree|
      modifies `itemsToFree, `completions
      ensures itemsToFree == old(itemsToFree)[d := if old(itemsToFree)[d] == 0 then 0 else old(itemsToFree)[d] - 1]
      ensures completions == if old(itemsToFree)[d] <= 1 then old(completions) + [d] else old(completions)
    {
      if itemsToFree[d] > 0 {
        itemsToFree := itemsToFree[d := itemsToFree[d] - 1];
      }
      if itemsToFree[d] == 0 {
        completions := completions + [d];
      }
    }

    /** `refresh_prune_async`: claims every refresh concerned that no earlier prune has claimed. */
    method PruneAsync(w: Which) returns (d: nat)
      requires Valid()
      modifies this
      ensures Valid() && d == |old(itemsToFree)| && |itemsToFree| == d + 1
      ensures |refreshes| == |old(refreshes)|
      ensures forall k {:trigger refreshes[k]} :: 0 <= k < |refreshes| ==>
                refreshes[k] == if Concerns(w, old(refreshes)[k]) && !old(refreshes)[k].disposing
                                then old(refreshes)[k].(disposing := true, owner := Prune(d)) else old(refreshes)[k]
      ensures completions == if itemsToFree[d] == 0 then old(completions) + [d] else old(completions)
    {
      hide Claims;
      d := |itemsToFree|;
      ghost var before, items := refreshes, itemsToFree;
      NoClaims(refreshes, d);
      itemsToFree := itemsToFree + [0];
      for k := 0 to |refreshes|
        invariant |refreshes| == |before| && itemsToFree == items + [Claims(refreshes, d)]
        invariant completions == old(completions)
        invariant forall i {:trigger refreshes[i]} :: k <= i < |refreshes| ==> refreshes[i] == before[i]
        invariant forall i {:trigger refreshes[i]} :: 0 <= i < k ==>
                    refreshes[i] == if Concerns(w, before[i]) && !before[i].disposing
                                    then before[i].(disposing := true, owner := Prune(d)) else before[i]
        invariant forall e: nat {:trigger Claims(refreshes, e)} :: e < d ==> Claims(refreshes, e) == Claims(before, e)
      {
        if Concerns(w, refreshes[k]) && !refreshes[k].disposing {
          ghost var was, r := refreshes, refreshes[k].(disposing := true, owner := Prune(d));
          refreshes := refreshes[k := refreshes[k].(disposing := true, owner := Prune(d))];
          forall e: nat ensures Claims(refreshes, e) == Claims(was, e) + if e == d then 1 else 0 {
            ClaimsSet(was, k, r, e);
          }
          itemsToFree := itemsToFree[d := itemsToFree[d] + 1];
        }
      }
      ghost var done := completions;
      assert itemsToFree[d] == Claims(refreshes, d) && d !in done;
      forall e: nat {:trigger itemsToFree[e]} | e < d
        ensures itemsToFree[e] == Claims(refreshes, e) && (e in done <==> Claims(refreshes, e) == 0)
      {
        assert itemsToFree[e] == items[e] && Claims(refreshes, e) == Claims(before, e);
      }
      if itemsToFree[d] == 0 {
        OnRefreshRemoved(d);
      }
    }

    /** `refresh_free`: the prune that claimed the refresh hears of it. */
    method Free(k: nat)
      requires Valid() && k < |refreshes|
      modifies this
      ensures Valid() && |itemsToFree| == |old(itemsToFree)|
      ensures refreshes == old(refreshes)[..k] + old(refreshes)[k + 1..]
      ensures var owner := old(refreshes)[k].owner;
              completions == if owner.Prune? && Claims(refreshes, owner.index) == 0
                             then old(completions) + [owner.index] else old(completions)
    {
      hide Claims;
      ghost var before := refreshes;
      var r := refreshes[k];
      refreshes := refreshes[..k] + refreshes[k + 1..];
      forall d: nat ensures Claims(before, d) == Claims(refreshes, d) + if r.owner == Prune(d) then 1 else 0 {
        ClaimsAt(before, k, d);
      }
      assert forall i :: 0 <= i < |refreshes| ==> refreshes[i] == before[if i < k then i else i + 1];
      if r.owner.Prune? {
        OnRefreshRemoved(r.owner.index);
      }
    }
  }

  /** A refresh is disposing exactly when a prune owns it. */
  predicate Claimed(r: Refresh, prunes: nat) {
    (r.disposing <==> r.owner.Prune?) && (r.owner.Prune? ==> r.owner.index < prunes)
  }

  datatype Op = AddRefresh(stream: nat, candidate: nat) | BeginPrune(which: Which) | FreeRefresh(index: nat)

  /**
   In every run no prune completes twice, and those that have completed are exactly those with no
   claimed refresh left.
   */
  method Run(ops: seq<Op>) returns (refreshes: seq<Refresh>, prunes: nat, completions: seq<nat>)
    ensures forall d: nat {:trigger d in completions} :: d in completions <==>
              d < prunes && forall k :: 0 <= k < |refreshes| ==> refreshes[k].owner != Prune(d)
    ensures forall i, j :: 0 <= i < j < |completions| ==> completions[i] != completions[j]
  {
    var list := new RefreshList();
    for i := 0 to |ops|
      invariant list.Valid() && fresh(list)
    {
      match ops[i]
      case AddRefresh(s, c) => list.Add(s, c);
      case BeginPrune(w) => var _ := list.PruneAsync(w);
      case FreeRefresh(k) =>
        if k < |list.refreshes| {
          list.Free(k);
        }
    }
    refreshes, prunes, completions := list.refreshes, |list.itemsToFree|, list.completions;
    forall d: nat | d < prunes
      ensures d in completions <==> forall k :: 0 <= k < |refreshes| ==> refreshes[k].owner != Prune(d)
    {
      NoClaims(refreshes, d);
      assert list.itemsToFree[d] == Claims(refreshes, d);
    }
  }
}
