/** The item route handlers of backend/routes/items.js: view, create, owner update, owner
    delete, swap request and point redemption. Each handler is one atomic step over the
    store; the caller is the authenticated user the `protect` middleware supplies. */
module ItemRoutes {
  import opened Common
  import Text
  import Users
  import Items
  import Swaps
  import opened State

  const MaxImages := 5

  // ---------------------------------------------------------------- GET /api/items/:id

  /** Fetches an item and counts the view, unless the viewer is its owner; anonymous views
      count. With a signed-in viewer the handler dereferences the populated owner, which
      throws when the owner's account no longer exists. */
  function GetItem(s: Store, viewer: Option<UserId>, id: ItemId): (r: Step<Items.Item>)
    ensures r.result.Err? ==> r.store == s
    ensures id !in s.items ==> r.result == Err(NotFound)
    ensures r.result.Err? <==> id !in s.items || (viewer.Some? && s.items[id].uploadedBy !in s.users)
    ensures r.result.Ok? ==> r.store == s.(items := s.items[id := r.result.value])
    ensures r.result.Ok? ==> r.result.value == s.items[id].(views := r.result.value.views)
    ensures r.result.Ok? ==>
      r.result.value.views == s.items[id].views + (if viewer == Some(s.items[id].uploadedBy) then 0 else 1)
  {
    if id !in s.items then Fail(s, NotFound)
    else
      var it := s.items[id];
      if viewer.None? then
        var it' := Items.IncrementViews(it);
        Step(s.(items := s.items[id := it']), Ok(it'))
      else if it.uploadedBy !in s.users then Fail(s, ServerError)
      else if viewer.value != it.uploadedBy then
        var it' := Items.IncrementViews(it);
        Step(s.(items := s.items[id := it']), Ok(it'))
      else Step(s, Ok(it))
  }

  // ---------------------------------------------------------------- POST /api/items

  /** The `images` request field: an array of URLs, or a truthy value of another JSON type.
      A falsy non-array (`""`, `0`, `false`, `null`) is encoded as an absent field, since the
      missing-field check treats it exactly as one. */
  datatype ImagesField = ImageArray(urls: seq<string>) | NotAnArray

  /** The create request body; an absent field is `None`. */
  datatype NewItemBody = NewItemBody(title: Option<string>, description: Option<string>, category: Option<string>,
                                     itemType: Option<string>, size: Option<string>, condition: Option<string>,
                                     images: Option<ImagesField>, tags: Option<seq<string>>,
                                     pointValue: Option<int>)

  /** The route's first check: some required field is absent or falsy (a point value of 0 is falsy). */
  predicate MissingRequired(b: NewItemBody) {
    || !Text.Truthy(b.title) || !Text.Truthy(b.description) || !Text.Truthy(b.category)
    || !Text.Truthy(b.itemType) || !Text.Truthy(b.size) || !Text.Truthy(b.condition)
    || b.images.None? || b.pointValue.None? || b.pointValue.value == 0
  }

  /** The route's image checks: an array of one to five entries. */
  predicate ImagesOk(b: NewItemBody) {
    b.images.Some? && b.images.value.ImageArray? && 1 <= |b.images.value.urls| <= MaxImages
  }

  /** What the route hands to the schema: title and description trimmed, tags defaulting to []. */
  function ListingOf(b: NewItemBody): Items.Listing
    requires !MissingRequired(b) && ImagesOk(b)
  {
    Items.Listing(Text.Trim(b.title.value), Text.Trim(b.description.value), b.category.value, b.itemType.value,
                  b.size.value, b.condition.value, b.images.value.urls, b.tags.GetOr([]), b.pointValue.value)
  }

  /** Validates a listing and, when the schema accepts it, stores it under `id` as a new
      item of `creator` and counts it in the creator's `itemsListed`. */
  function ListNewItem(s: Store, creator: UserId, l: Items.Listing, id: ItemId): (r: Step<ItemId>)
    requires creator in s.users
    requires id !in s.items
    ensures r.result.Ok? <==> Items.ListingErrors(l) == {}
    ensures r.result.Err? ==> r.store == s && r.result.error == ValidationError(Items.ListingErrors(l))
    ensures r.result.Ok? ==> r.result.value == id && id in r.store.items
    ensures r.result.Ok? ==>
      && r.store.items[id].status == Items.Pending && r.store.items[id].views == 0
      && r.store.items[id].swapRequests == [] && r.store.items[id].uploadedBy == creator
      && Items.AttributesValid(r.store.items[id].attrs)
      && Items.Unparse(r.store.items[id].attrs) == l.(title := Text.Trim(l.title))
    ensures r.result.Ok? ==> r.store.items == s.items[id := r.store.items[id]] && r.store.swaps == s.swaps
    ensures r.result.Ok? ==> creator in r.store.users && r.store.users == s.users[creator := r.store.users[creator]]
    ensures r.result.Ok? ==> Users.Moved(s.users[creator], r.store.users[creator], 0, 1, 0, 0, 0)
  {
    var parsed := Items.ParseListing(l);
    if parsed.Err? then Fail(s, parsed.error)
    else
      var it := Items.NewItem(parsed.value, creator);
      var u := Users.UpdateStats(s.users[creator], Users.ItemsListed, 1);
      assert Items.AttributesValid(it.attrs) && Items.Unparse(it.attrs) == l.(title := Text.Trim(l.title));
      assert Users.Moved(s.users[creator], u, 0, 1, 0, 0, 0);
      Step(s.(items := s.items[id := it], users := s.users[creator := u]), Ok(id))
  }

  /** `POST /api/items`: the route's own field and image checks, then schema validation;
      on success a listing owned by `creator` under the fresh id `id`, awaiting moderation. */
  function CreateItem(s: Store, creator: UserId, b: NewItemBody, id: ItemId): (r: Step<ItemId>)
    requires creator in s.users
    requires id !in s.items
    ensures r.result.Err? ==> r.store == s
    ensures MissingRequired(b) ==> r.result == Err(MissingFields)
    ensures !MissingRequired(b) && (b.images.value.NotAnArray? || |b.images.value.urls| == 0) ==>
      r.result == Err(NoImages)
    ensures !MissingRequired(b) && b.images.value.ImageArray? && |b.images.value.urls| > MaxImages ==>
      r.result == Err(TooManyImages)
    ensures r.result.Ok? <==> !MissingRequired(b) && ImagesOk(b) && Items.ListingErrors(ListingOf(b)) == {}
    ensures r.result.Err? && !MissingRequired(b) && ImagesOk(b) ==>
      r.result.error == ValidationError(Items.ListingErrors(ListingOf(b)))
    ensures r.result.Ok? ==> r.result.value == id && id in r.store.items
    ensures r.result.Ok? ==>
      && r.store.items[id].status == Items.Pending && r.store.items[id].views == 0
      && r.store.items[id].swapRequests == [] && r.store.items[id].uploadedBy == creator
      && Items.AttributesValid(r.store.items[id].attrs)
      && Items.Unparse(r.store.items[id].attrs) == ListingOf(b)
      && 1 <= |r.store.items[id].attrs.images| <= MaxImages
    ensures r.result.Ok? ==> r.store.items == s.items[id := r.store.items[id]] && r.store.swaps == s.swaps
    ensures r.result.Ok? ==> creator in r.store.users && r.store.users == s.users[creator := r.store.users[creator]]
    ensures r.result.Ok? ==> Users.Moved(s.users[creator], r.store.users[creator], 0, 1, 0, 0, 0)
  {
    if MissingRequired(b) then Fail(s, MissingFields)
    else if b.images.value.NotAnArray? || |b.images.value.urls| == 0 then Fail(s, NoImages)
    else if |b.images.value.urls| > MaxImages then Fail(s, TooManyImages)
    else
      var l := ListingOf(b);
      Text.TrimIdempotent(b.title.value);
      assert l.(title := Text.Trim(l.title)) == l;
      ListNewItem(s, creator, l, id)
  }

  // ---------------------------------------------------------------- PUT /api/items/:id

  /** The update request body: any of the nine editable fields. */
  datatype Patch = Patch(title: Option<string>, description: Option<string>, category: Option<string>,
                         itemType: Option<string>, size: Option<string>, condition: Option<string>,
                         images: Option<seq<string>>, tags: Option<seq<string>>, pointValue: Option<int>)

  /** The stored fields with every supplied field copied over them (title and description trimmed). */
  function Patched(a: Items.Attributes, p: Patch): Items.Listing {
    var l := Items.Unparse(a);
    Items.Listing(if p.title.Some? then Text.Trim(p.title.value) else l.title,
                  if p.description.Some? then Text.Trim(p.description.value) else l.description,
                  p.category.GetOr(l.category), p.itemType.GetOr(l.itemType), p.size.GetOr(l.size),
                  p.condition.GetOr(l.condition), p.images.GetOr(l.images), p.tags.GetOr(l.tags),
                  p.pointValue.GetOr(l.pointValue))
  }

  predicate Editable(st: Items.ItemStatus) {
    st == Items.Pending || st == Items.Available
  }

  /** Owner edit of the nine listing fields while the item is pending or available; the
      schema validators run again on save. Nothing else about the item changes. */
  function UpdateItem(s: Store, caller: UserId, id: ItemId, p: Patch): (r: Step<Items.Item>)
    ensures r.result.Err? ==> r.store == s
    ensures id !in s.items ==> r.result == Err(NotFound)
    ensures id in s.items && s.items[id].uploadedBy != caller ==> r.result == Err(Forbidden)
    ensures id in s.items && s.items[id].uploadedBy == caller && !Editable(s.items[id].status) ==>
      r.result == Err(NotEditable)
    ensures r.result.Ok? <==>
      && id in s.items && s.items[id].uploadedBy == caller && Editable(s.items[id].status)
      && Items.ListingErrors(Patched(s.items[id].attrs, p)) == {}
    ensures r.result.Ok? ==> r.store == s.(items := s.items[id := r.result.value])
    ensures r.result.Ok? ==> r.result.value == s.items[id].(attrs := r.result.value.attrs)
    ensures r.result.Ok? ==> Items.AttributesValid(r.result.value.attrs)
    ensures r.result.Ok? ==>
      var l := Patched(s.items[id].attrs, p);
      Items.Unparse(r.result.value.attrs) == l.(title := Text.Trim(l.title))
  {
    if id !in s.items then Fail(s, NotFound)
    else
      var it := s.items[id];
      if it.uploadedBy != caller then Fail(s, Forbidden)
      else if !Editable(it.status) then Fail(s, NotEditable)
      else
        match Items.ParseListing(Patched(it.attrs, p))
        case Err(e) => Fail(s, e)
        case Ok(a) =>
          var it' := it.(attrs := a);
          Step(s.(items := s.items[id := it']), Ok(it'))
  }

  // ---------------------------------------------------------------- DELETE /api/items/:id

  /** Owner delete, refused while any embedded request is pending. Swap records that
      reference the item are left in place. */
  function DeleteItem(s: Store, caller: UserId, id: ItemId): (r: Step<ItemId>)
    ensures r.result.Err? ==> r.store == s
    ensures id !in s.items ==> r.result == Err(NotFound)
    ensures id in s.items && s.items[id].uploadedBy != caller ==> r.result == Err(Forbidden)
    ensures id in s.items && s.items[id].uploadedBy == caller && Items.SwapRequestCount(s.items[id]) > 0 ==>
      r.result == Err(HasPendingRequests)
    ensures r.result.Ok? <==>
      id in s.items && s.items[id].uploadedBy == caller && Items.SwapRequestCount(s.items[id]) == 0
    ensures r.result.Ok? ==> r.store == s.(items := s.items - {id})
  {
    if id !in s.items then Fail(s, NotFound)
    else
      var it := s.items[id];
      Items.PendingCountZeroIff(it.swapRequests);
      if it.uploadedBy != caller then Fail(s, Forbidden)
      else if exists i :: 0 <= i < |it.swapRequests| && it.swapRequests[i].status == Items.RequestPending then
        Fail(s, HasPendingRequests)
      else Step(s.(items := s.items - {id}), Ok(id))
  }

  // ---------------------------------------------------------------- POST /api/items/:id/swap

  /** The guards a swap request must pass before any record is written. */
  predicate SwapRequestAllowed(s: Store, caller: UserId, id: ItemId, offered: Option<ItemId>) {
    && id in s.items
    && s.items[id].status == Items.Available
    && s.items[id].uploadedBy != caller
    && (offered.Some? ==> offered.value in s.items && s.items[offered.value].uploadedBy == caller)
  }

  /** The Swap record a request writes: always `direct_swap`, whether or not an item is offered. */
  function RequestDraft(s: Store, caller: UserId, id: ItemId, message: Option<string>, offered: Option<ItemId>): Swaps.Draft
    requires id in s.items
  {
    Swaps.Draft(Some(id), offered, Some(caller), Some(s.items[id].uploadedBy), Swaps.DirectSwap, None,
                Some(Text.OrEmpty(message)), None)
  }

  /** Requests a swap of item `id`, optionally offering one of the caller's items. The Swap
      record (fresh id `sid`) is created BEFORE the embedded request is added, so a duplicate
      request fails and still leaves its Swap record behind. */
  function RequestSwap(s: Store, caller: UserId, id: ItemId, message: Option<string>, offered: Option<ItemId>,
                       sid: SwapId, rid: RequestId): (r: Step<SwapId>)
    requires sid !in s.swaps
    ensures r.result.Err? && r.result.error != DuplicateRequest ==> r.store == s
    ensures id !in s.items ==> r.result == Err(NotFound)
    ensures id in s.items && s.items[id].status != Items.Available ==> r.result == Err(NotAvailable)
    ensures id in s.items && s.items[id].status == Items.Available && s.items[id].uploadedBy == caller ==>
      r.result == Err(OwnItem)
    ensures && id in s.items && s.items[id].status == Items.Available && s.items[id].uploadedBy != caller
            && !SwapRequestAllowed(s, caller, id, offered) ==>
      r.result == Err(InvalidOfferedItem)
    ensures r.result.Ok? <==>
      && SwapRequestAllowed(s, caller, id, offered)
      && |Text.OrEmpty(message)| <= Swaps.MaxMessageLength
      && !Items.HasPendingFrom(s.items[id].swapRequests, caller)
    ensures r.result == Err(DuplicateRequest) ==>
      && SwapRequestAllowed(s, caller, id, offered)
      && Items.HasPendingFrom(s.items[id].swapRequests, caller)
      && sid in r.store.swaps && r.store == s.(swaps := s.swaps[sid := r.store.swaps[sid]])
    ensures sid in r.store.swaps ==>
      var sw := r.store.swaps[sid];
      && sw.kind == Swaps.DirectSwap && sw.status == Swaps.Pending && sw.pointsUsed == 0
      && sw.itemRequested == id && sw.itemOffered == offered && sw.requester == caller
      && sw.owner == s.items[id].uploadedBy && sw.message == Some(Text.OrEmpty(message))
      && |Text.OrEmpty(message)| <= Swaps.MaxMessageLength
    ensures r.result.Ok? ==>
      && r.result.value == sid && sid in r.store.swaps
      && r.store.users == s.users && r.store.swaps == s.swaps[sid := r.store.swaps[sid]]
      && id in r.store.items && r.store.items == s.items[id := r.store.items[id]]
      && r.store.items[id] == s.items[id].(swapRequests := r.store.items[id].swapRequests)
      && r.store.items[id].swapRequests
         == s.items[id].swapRequests + [Items.SwapRequest(rid, caller, Text.OrEmpty(message), Items.RequestPending)]
  {
    if id !in s.items then Fail(s, NotFound)
    else
      var it := s.items[id];
      if it.status != Items.Available then Fail(s, NotAvailable)
      else if it.uploadedBy == caller then Fail(s, OwnItem)
      else if offered.Some? && (offered.value !in s.items || s.items[offered.value].uploadedBy != caller) then
        Fail(s, InvalidOfferedItem)
      else
        match Swaps.Create(RequestDraft(s, caller, id, message, offered))
        case Err(_) => Fail(s, ServerError)
        case Ok(sw) =>
          var s1 := s.(swaps := s.swaps[sid := sw]);
          match Items.AddSwapRequest(it, caller, message, rid)
          case Err(e) => Step(s1, Err(e))
          case Ok(it') => Step(s1.(items := s1.items[id := it']), Ok(sid))
  }

  // ---------------------------------------------------------------- POST /api/items/:id/redeem

  /** The redemption reply: the new Swap record's id and the reported remaining balance. */
  datatype Receipt = Receipt(swap: SwapId, pointsRemaining: int)

  /** The guards a redemption must pass. */
  predicate RedeemAllowed(s: Store, caller: UserId, id: ItemId)
    requires caller in s.users
  {
    && id in s.items
    && s.items[id].status == Items.Available
    && s.items[id].uploadedBy != caller
    && s.users[caller].points >= s.items[id].attrs.pointValue
  }

  /** Buys item `id` for its point value: the price moves from the caller to the owner, a
      completed `point_redemption` Swap record is written under `sid`, the item becomes
      swapped and both parties count one more completed swap. The reply's `pointsRemaining`
      subtracts the price from the already debited balance a second time. */
  function Redeem(s: Store, caller: UserId, id: ItemId, sid: SwapId): (r: Step<Receipt>)
    requires caller in s.users
    requires sid !in s.swaps
    ensures r.result.Err? ==> r.store == s
    ensures id !in s.items ==> r.result == Err(NotFound)
    ensures id in s.items && s.items[id].status != Items.Available ==> r.result == Err(NotAvailable)
    ensures id in s.items && s.items[id].status == Items.Available && s.items[id].uploadedBy == caller ==>
      r.result == Err(OwnItem)
    ensures && id in s.items && s.items[id].status == Items.Available && s.items[id].uploadedBy != caller
            && s.users[caller].points < s.items[id].attrs.pointValue ==>
      r.result == Err(InsufficientPoints(s.items[id].attrs.pointValue, s.users[caller].points))
    ensures r.result.Ok? <==> RedeemAllowed(s, caller, id) && s.items[id].uploadedBy in s.users
    ensures r.result.Ok? ==>
      var owner := s.items[id].uploadedBy;
      var price := s.items[id].attrs.pointValue;
      && caller in r.store.users && owner in r.store.users
      && r.store.users == s.users[caller := r.store.users[caller]][owner := r.store.users[owner]]
      && Users.Moved(s.users[caller], r.store.users[caller], -price, 0, 1, 0, price)
      && Users.Moved(s.users[owner], r.store.users[owner], price, 0, 1, price, 0)
      && r.store.users[caller].points + r.store.users[owner].points == s.users[caller].points + s.users[owner].points
      && r.store.items == s.items[id := s.items[id].(status := Items.Swapped)]
      && sid in r.store.swaps && r.store.swaps == s.swaps[sid := r.store.swaps[sid]]
      && r.store.swaps[sid].kind == Swaps.PointRedemption && r.store.swaps[sid].status == Swaps.Completed
      && r.store.swaps[sid].pointsUsed == price && r.store.swaps[sid].itemRequested == id
      && r.store.swaps[sid].itemOffered.None? && r.store.swaps[sid].requester == caller
      && r.store.swaps[sid].owner == owner && r.store.swaps[sid].completedAt.None?
      && r.store.swaps[sid].message.None?
      && r.result.value == Receipt(sid, r.store.users[caller].points - price)
  {
    if id !in s.items then Fail(s, NotFound)
    else
      var it := s.items[id];
      var price := it.attrs.pointValue;
      var buyer := s.users[caller];
      if it.status != Items.Available then Fail(s, NotAvailable)
      else if it.uploadedBy == caller then Fail(s, OwnItem)
      else if buyer.points < price then Fail(s, InsufficientPoints(price, buyer.points))
      else
        match Users.DeductPoints(buyer, price)
        case Err(e) => Fail(s, e)
        case Ok(debited) =>
          if it.uploadedBy !in s.users then Fail(s, ServerError)
          else
            var credited := Users.AddPoints(s.users[it.uploadedBy], price);
            match Swaps.Create(Swaps.Draft(Some(id), None, Some(caller), Some(it.uploadedBy), Swaps.PointRedemption,
                                           Some(Swaps.Completed), None, Some(price)))
            case Err(_) => Fail(s, ServerError)
            case Ok(sw) =>
              var buyer' := Users.UpdateStats(debited, Users.SwapsCompleted, 1);
              var owner' := Users.UpdateStats(credited, Users.SwapsCompleted, 1);
              var s' := Store(s.users[caller := buyer'][it.uploadedBy := owner'],
                              s.items[id := it.(status := Items.Swapped)],
                              s.swaps[sid := sw]);
              Step(s', Ok(Receipt(sid, buyer'.points - price)))
  }
}
