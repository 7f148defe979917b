/** The user route handlers of backend/routes/users.js that change state or compute:
    the owner's response to a swap request, and the pagination block every list reply
    carries. The list queries themselves are modelled only as a window over the matches. */
module UserRoutes {
  import opened Common
  import Users
  import Items
  import Swaps
  import opened State

  /** The points each party of an accepted direct swap receives. */
  const SwapBonus := 5

  // ---------------------------------------------------------------- PUT /api/users/swap-requests/:id

  datatype Action = Accept | Reject

  /** The request-body spelling of an action. */
  function ActionName(a: Action): string {
    match a
    case Accept => "accept"
    case Reject => "reject"
  }

  /** The action check: only "accept" and "reject" are actions. */
  function ParseAction(s: string): (r: Option<Action>)
    ensures r.Some? ==> ActionName(r.value) == s
    ensures r.None? ==> forall a :: ActionName(a) != s
    ensures r == Some(Accept) <==> s == "accept"
    ensures r == Some(Reject) <==> s == "reject"
    ensures r.None? <==> s != "accept" && s != "reject"
  {
    if s == "accept" then Some(Accept) else if s == "reject" then Some(Reject) else None
  }

  /** Every action's spelling passes the check as that action. */
  lemma ActionNameParses(a: Action)
    ensures ParseAction(ActionName(a)) == Some(a)
  {
  }

  /** The items after an acceptance: the requested item is swapped, and so is the offered item
      when the swap is direct and the offered item still exists. No status is checked first. */
  function MarkSwapped(items: map<ItemId, Items.Item>, sw: Swaps.Swap): (r: map<ItemId, Items.Item>)
    requires sw.itemRequested in items
    ensures r.Keys == items.Keys
    ensures r[sw.itemRequested] == items[sw.itemRequested].(status := Items.Swapped)
    ensures forall i :: i in items && i != sw.itemRequested ==>
      r[i] == (if sw.kind == Swaps.DirectSwap && sw.itemOffered == Some(i) then items[i].(status := Items.Swapped)
               else items[i])
  {
    var once := items[sw.itemRequested := items[sw.itemRequested].(status := Items.Swapped)];
    if sw.kind == Swaps.DirectSwap && sw.itemOffered.Some? && sw.itemOffered.value in items then
      var o := sw.itemOffered.value;
      once[o := items[o].(status := Items.Swapped)]
    else once
  }

  /** The users after an acceptance: each party counts one more completed swap, and for a
      direct swap each also receives the bonus, in the order the handler applies them. */
  function Reward(users: map<UserId, Users.User>, sw: Swaps.Swap): (r: map<UserId, Users.User>)
    requires sw.requester in users && sw.owner in users
    ensures r.Keys == users.Keys
    ensures forall u :: u in users && u != sw.requester && u != sw.owner ==> r[u] == users[u]
    ensures sw.requester != sw.owner ==>
      var bonus := if sw.kind == Swaps.DirectSwap then SwapBonus else 0;
      && Users.Moved(users[sw.requester], r[sw.requester], bonus, 0, 1, bonus, 0)
      && Users.Moved(users[sw.owner], r[sw.owner], bonus, 0, 1, bonus, 0)
  {
    var u1 := users[sw.requester := Users.UpdateStats(users[sw.requester], Users.SwapsCompleted, 1)];
    var u2 := u1[sw.owner := Users.UpdateStats(u1[sw.owner], Users.SwapsCompleted, 1)];
    if sw.kind == Swaps.DirectSwap then
      var u3 := u2[sw.requester := Users.AddPoints(u2[sw.requester], SwapBonus)];
      u3[sw.owner := Users.AddPoints(u3[sw.owner], SwapBonus)]
    else u2
  }

  /** The checks every response must pass before it acts. */
  predicate MayRespond(s: Store, caller: UserId, sid: SwapId) {
    && sid in s.swaps
    && s.swaps[sid].owner in s.users
    && s.swaps[sid].owner == caller
    && s.swaps[sid].status == Swaps.Pending
  }

  /** The owner accepts or rejects swap `sid` at clock tick `now`. The action is checked
      before the swap is looked up. Accepting records status `accepted` (no completion
      stamp), marks the items swapped without checking their status, rewards both parties,
      and leaves the item's embedded request entry untouched. Rejecting records `rejected`
      with its stamp and changes nothing else. */
  function Respond(s: Store, caller: UserId, sid: SwapId, action: string, now: int): (r: Step<Swaps.Swap>)
    ensures r.result.Err? ==> r.store == s
    ensures ParseAction(action).None? ==> r.result == Err(InvalidAction)
    ensures ParseAction(action).Some? && sid !in s.swaps ==> r.result == Err(NotFound)
    ensures ParseAction(action).Some? && sid in s.swaps && s.swaps[sid].owner in s.users
            && s.swaps[sid].owner != caller ==>
      r.result == Err(Forbidden)
    ensures ParseAction(action).Some? && sid in s.swaps && s.swaps[sid].owner == caller && caller in s.users
            && s.swaps[sid].status != Swaps.Pending ==>
      r.result == Err(NotPending)
    ensures r.result.Ok? <==>
      && ParseAction(action).Some? && MayRespond(s, caller, sid)
      && (action == "accept" ==> s.swaps[sid].itemRequested in s.items && s.swaps[sid].requester in s.users)
    ensures r.result.Ok? && action == "reject" ==>
      && r.result.value == s.swaps[sid].(status := Swaps.Rejected, rejectedAt := Some(now))
      && r.store == s.(swaps := s.swaps[sid := r.result.value])
    ensures r.result.Ok? && action == "accept" ==>
      var sw := s.swaps[sid];
      && r.result.value == sw.(status := Swaps.Accepted)
      && r.store.swaps == s.swaps[sid := r.result.value]
      && r.store.items == MarkSwapped(s.items, sw)
      && r.store.users == Reward(s.users, sw)
  {
    match ParseAction(action)
    case None => Fail(s, InvalidAction)
    case Some(act) =>
      if sid !in s.swaps then Fail(s, NotFound)
      else
        var sw := s.swaps[sid];
        if sw.owner !in s.users then Fail(s, ServerError)
        else if sw.owner != caller then Fail(s, Forbidden)
        else if sw.status != Swaps.Pending then Fail(s, NotPending)
        else if act == Accept then
          var sw' := Swaps.UpdateStatus(sw, Swaps.Accepted, now);
          if sw.itemRequested !in s.items || sw.requester !in s.users then Fail(s, ServerError)
          else
            Step(Store(Reward(s.users, sw), MarkSwapped(s.items, sw), s.swaps[sid := sw']), Ok(sw'))
        else
          var sw' := Swaps.UpdateStatus(sw, Swaps.Rejected, now);
          Step(s.(swaps := s.swaps[sid := sw']), Ok(sw'))
  }

  // ---------------------------------------------------------------- pagination

  /** The pagination block of a list reply. */
  datatype Pagination = Pagination(current: int, pages: int, total: nat, hasNext: bool, hasPrev: bool)

  /** `(page - 1) * limit`: how many matches the query skips. */
  function Skip(page: int, limit: int): int {
    (page - 1) * limit
  }

  /** `.skip(skip).limit(limit)` over the matches, in query order. */
  function PageOf<T>(xs: seq<T>, page: int, limit: int): (r: seq<T>)
    requires page >= 1 && limit >= 1
    ensures |r| <= limit
    ensures Skip(page, limit) + |r| <= |xs| || |r| == 0
    ensures Skip(page, limit) + |r| < |xs| ==> |r| == limit
    ensures forall i :: 0 <= i < |r| ==> r[i] == xs[Skip(page, limit) + i]
  {
    var lo := Skip(page, limit);
    if lo >= |xs| then []
    else if lo + limit <= |xs| then xs[lo..lo + limit]
    else xs[lo..]
  }

  /** The block for `total` matches of which `returned` came back: `pages` is the ceiling
      of total / limit, `hasNext` says the window ends before the last match. */
  function Paginate(page: int, limit: int, total: nat, returned: nat): (p: Pagination)
    requires page >= 1 && limit >= 1
    ensures p.current == page && p.total == total
    ensures p.pages >= 0
    ensures total > 0 ==> (p.pages - 1) * limit < total <= p.pages * limit
    ensures total == 0 ==> p.pages == 0
    ensures p.hasNext <==> Skip(page, limit) + returned < total
    ensures p.hasPrev <==> page > 1
  {
    var pages := (total + limit - 1) / limit;
    assert pages * limit <= total + limit - 1 < (pages + 1) * limit;
    Pagination(page, pages, total, Skip(page, limit) + returned < total, page > 1)
  }

  /** Scaling by a positive page size keeps page numbers in order. */
  lemma {:induction false} MulStrictMono(a: int, b: int, limit: int)
    requires a < b && limit >= 1
    ensures a * limit < b * limit
    decreases b - a
  {
    assert b * limit == (b - 1) * limit + limit;
    if a < b - 1 {
      MulStrictMono(a, b - 1, limit);
    }
  }

  /** For the window the query really returns, there is a next page exactly when the
      current page is not the last one. */
  lemma {:induction false} PageHasNextIffNotLast<T>(xs: seq<T>, page: int, limit: int)
    requires page >= 1 && limit >= 1
    ensures Paginate(page, limit, |xs|, |PageOf(xs, page, limit)|).hasNext
        <==> page < Paginate(page, limit, |xs|, |PageOf(xs, page, limit)|).pages
  {
    var w := PageOf(xs, page, limit);
    var p := Paginate(page, limit, |xs|, |w|);
    var n, pages := |xs|, p.pages;
    assert Skip(page, limit) + limit == page * limit;
    if p.hasNext {
      assert |w| == limit;
      assert page * limit < n <= pages * limit;
      if pages <= page {
        if pages < page { MulStrictMono(pages, page, limit); }
      }
    } else if n == 0 {
      assert pages == 0;
    } else if |w| == 0 {
      assert (pages - 1) * limit < n <= (page - 1) * limit;
      if page - 1 <= pages - 1 {
        if page - 1 < pages - 1 { MulStrictMono(page - 1, pages - 1, limit); }
      }
    } else {
      assert n <= page * limit;
      if page <= pages - 1 {
        if page < pages - 1 { MulStrictMono(page, pages - 1, limit); }
      }
    }
  }
}
