/** The Swap record of backend/models/Swap.js: a standalone transaction between a requester
    and an owner over a requested (and optionally an offered) item, with its status,
    conversation log and terminal timestamps, and the methods `addMessage`, `updateStatus`,
    `createPointRedemption` and `createDirectSwap`. Timestamps are ticks of an external clock. */
module Swaps {
  import opened Common

  datatype SwapType = DirectSwap | PointRedemption

  datatype SwapStatus = Pending | Accepted | Rejected | Completed | Cancelled

  /** A conversation entry; its timestamp is not modelled. */
  datatype Entry = Entry(sender: UserId, text: string)

  datatype Swap = Swap(itemRequested: ItemId, itemOffered: Option<ItemId>, requester: UserId, owner: UserId,
                       kind: SwapType, status: SwapStatus, message: Option<string>, pointsUsed: int,
                       conversation: seq<Entry>,
                       completedAt: Option<int>, cancelledAt: Option<int>, rejectedAt: Option<int>)

  const MaxMessageLength := 500

  /** The fields handed to `Swap.create`: references may be null, status and points may be omitted. */
  datatype Draft = Draft(itemRequested: Option<ItemId>, itemOffered: Option<ItemId>, requester: Option<UserId>,
                         owner: Option<UserId>, kind: SwapType, status: Option<SwapStatus>,
                         message: Option<string>, pointsUsed: Option<int>)

  /** The paths whose validators reject a draft: the three required references, and a
      message over 500 characters. */
  function DraftErrors(d: Draft): set<string> {
    (if d.itemRequested.None? then {"itemRequested"} else {})
    + (if d.requester.None? then {"requester"} else {})
    + (if d.owner.None? then {"owner"} else {})
    + (if d.message.Some? && |d.message.value| > MaxMessageLength then {"message"} else {})
  }

  /** `Swap.create(fields)`: validation, then the schema defaults — status pending,
      no points used, an empty conversation and no terminal timestamp. */
  function Create(d: Draft): (r: Result<Swap>)
    ensures r.Ok? <==> DraftErrors(d) == {}
    ensures r.Err? ==> r.error == ValidationError(DraftErrors(d))
    ensures r.Ok? ==> && Some(r.value.itemRequested) == d.itemRequested && r.value.itemOffered == d.itemOffered
                      && Some(r.value.requester) == d.requester && Some(r.value.owner) == d.owner
                      && r.value.kind == d.kind && r.value.message == d.message
    ensures r.Ok? ==> r.value.status == d.status.GetOr(Pending) && r.value.pointsUsed == d.pointsUsed.GetOr(0)
    ensures r.Ok? ==> r.value.conversation == []
    ensures r.Ok? ==> r.value.completedAt.None? && r.value.cancelledAt.None? && r.value.rejectedAt.None?
  {
    if DraftErrors(d) != {} then Err(ValidationError(DraftErrors(d)))
    else
      assert "itemRequested" !in DraftErrors(d) && "requester" !in DraftErrors(d) && "owner" !in DraftErrors(d);
      Ok(Swap(d.itemRequested.value, d.itemOffered, d.requester.value, d.owner.value, d.kind,
              d.status.GetOr(Pending), d.message, d.pointsUsed.GetOr(0), [], None, None, None))
  }

  /** `addMessage(senderId, message)`: appends one entry to the conversation log. */
  function AddMessage(sw: Swap, sender: UserId, text: string): (r: Swap)
    ensures |r.conversation| == |sw.conversation| + 1
    ensures r.conversation[..|sw.conversation|] == sw.conversation
    ensures r.conversation[|sw.conversation|] == Entry(sender, text)
    ensures r == sw.(conversation := r.conversation)
  {
    sw.(conversation := sw.conversation + [Entry(sender, text)])
  }

  /** `updateStatus(newStatus)` at clock tick `now`: writes the status unconditionally and
      stamps the timestamp that belongs to a completed, cancelled or rejected status. */
  function UpdateStatus(sw: Swap, st: SwapStatus, now: int): (r: Swap)
    ensures r.status == st
    ensures r.completedAt == (if st == Completed then Some(now) else sw.completedAt)
    ensures r.cancelledAt == (if st == Cancelled then Some(now) else sw.cancelledAt)
    ensures r.rejectedAt == (if st == Rejected then Some(now) else sw.rejectedAt)
    ensures r.(status := sw.status, completedAt := sw.completedAt, cancelledAt := sw.cancelledAt,
               rejectedAt := sw.rejectedAt) == sw
  {
    match st
    case Completed => sw.(status := st, completedAt := Some(now))
    case Cancelled => sw.(status := st, cancelledAt := Some(now))
    case Rejected => sw.(status := st, rejectedAt := Some(now))
    case _ => sw.(status := st)
  }

  /** `updateStatus` has no transition guard: even a completed swap can be moved back to
      pending, and doing so keeps its completion stamp. */
  lemma UpdateStatusIsUnguarded(sw: Swap, now: int)
    requires sw.status == Completed && sw.completedAt.Some?
    ensures UpdateStatus(sw, Pending, now).status == Pending
    ensures UpdateStatus(sw, Pending, now).completedAt == sw.completedAt
  {
  }

  /** `createPointRedemption(itemId, requesterId, points)` as written: it passes a null owner,
      which the required `owner` validator rejects, so the record is never created. */
  function CreatePointRedemption(item: ItemId, requester: UserId, points: int): (r: Result<Swap>)
    ensures r == Err(ValidationError({"owner"}))
  {
    Create(Draft(Some(item), None, Some(requester), None, PointRedemption, Some(Pending), None, Some(points)))
  }

  /** `createPointRedemption` with the item owner supplied, as its comment intends. */
  function CreatePointRedemptionFor(item: ItemId, requester: UserId, owner: UserId, points: int): (r: Result<Swap>)
    ensures r.Ok?
    ensures r.value.kind == PointRedemption && r.value.status == Pending && r.value.pointsUsed == points
    ensures r.value.itemRequested == item && r.value.itemOffered.None?
    ensures r.value.requester == requester && r.value.owner == owner
  {
    Create(Draft(Some(item), None, Some(requester), Some(owner), PointRedemption, Some(Pending), None, Some(points)))
  }

  /** `createDirectSwap(requestedItemId, offeredItemId, requesterId, ownerId, message)`. */
  function CreateDirectSwap(requested: ItemId, offered: Option<ItemId>, requester: UserId, owner: UserId,
                            message: Option<string>): (r: Result<Swap>)
    ensures r.Ok? <==> message.None? || |message.value| <= MaxMessageLength
    ensures r.Ok? ==> && r.value.kind == DirectSwap && r.value.status == Pending && r.value.pointsUsed == 0
                      && r.value.itemRequested == requested && r.value.itemOffered == offered
                      && r.value.requester == requester && r.value.owner == owner
  {
    Create(Draft(Some(requested), offered, Some(requester), Some(owner), DirectSwap, None, message, None))
  }

  /** What every stored swap satisfies: two distinct parties, a bounded message, and a
      redemption that is completed at creation and never offers an item. */
  predicate Valid(sw: Swap) {
    && sw.requester != sw.owner
    && (sw.message.Some? ==> |sw.message.value| <= MaxMessageLength)
    && (sw.kind == PointRedemption ==> sw.status == Completed && sw.itemOffered.None? && sw.pointsUsed >= 1)
    && (sw.kind == DirectSwap ==> sw.pointsUsed == 0)
  }
}
