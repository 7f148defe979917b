/** The Item record of backend/models/Item.js: the closed enumerations and bounds its schema
    validates, the lifecycle status, the embedded swap-request list and the view counter,
    with the methods `addSwapRequest`, `updateSwapRequest`, `incrementViews` and the
    `swapRequestCount` virtual. */
module Items {
  import opened Common
  import Text

  // ---------------------------------------------------------------- enumerations

  datatype Category = Tops | Bottoms | Dresses | Outerwear | Shoes | Accessories | Activewear | Formal | Casual

  function CategoryName(c: Category): string {
    match c
    case Tops => "Tops"
    case Bottoms => "Bottoms"
    case Dresses => "Dresses"
    case Outerwear => "Outerwear"
    case Shoes => "Shoes"
    case Accessories => "Accessories"
    case Activewear => "Activewear"
    case Formal => "Formal"
    case Casual => "Casual"
  }

  /** The category enum validator: exactly the nine names denote a category. */
  function ParseCategory(s: string): (r: Option<Category>)
    ensures r.Some? ==> CategoryName(r.value) == s
    ensures r.None? ==> forall c :: CategoryName(c) != s
  {
    if s == "Tops" then Some(Tops)
    else if s == "Bottoms" then Some(Bottoms)
    else if s == "Dresses" then Some(Dresses)
    else if s == "Outerwear" then Some(Outerwear)
    else if s == "Shoes" then Some(Shoes)
    else if s == "Accessories" then Some(Accessories)
    else if s == "Activewear" then Some(Activewear)
    else if s == "Formal" then Some(Formal)
    else if s == "Casual" then Some(Casual)
    else None
  }

  datatype Size = XS | S | M | L | XL | XXL | Size6 | Size8 | Size10 | Size12 | Size14 | Size16

  function SizeName(z: Size): string {
    match z
    case XS => "XS"
    case S => "S"
    case M => "M"
    case L => "L"
    case XL => "XL"
    case XXL => "XXL"
    case Size6 => "6"
    case Size8 => "8"
    case Size10 => "10"
    case Size12 => "12"
    case Size14 => "14"
    case Size16 => "16"
  }

  /** The size enum validator: letter sizes and the even numeric sizes 6 to 16. */
  function ParseSize(s: string): (r: Option<Size>)
    ensures r.Some? ==> SizeName(r.value) == s
    ensures r.None? ==> forall z :: SizeName(z) != s
  {
    if s == "XS" then Some(XS)
    else if s == "S" then Some(S)
    else if s == "M" then Some(M)
    else if s == "L" then Some(L)
    else if s == "XL" then Some(XL)
    else if s == "XXL" then Some(XXL)
    else if s == "6" then Some(Size6)
    else if s == "8" then Some(Size8)
    else if s == "10" then Some(Size10)
    else if s == "12" then Some(Size12)
    else if s == "14" then Some(Size14)
    else if s == "16" then Some(Size16)
    else None
  }

  datatype Condition = LikeNew | Excellent | Good | Fair

  function ConditionName(c: Condition): string {
    match c
    case LikeNew => "Like New"
    case Excellent => "Excellent"
    case Good => "Good"
    case Fair => "Fair"
  }

  /** The condition enum validator. */
  function ParseCondition(s: string): (r: Option<Condition>)
    ensures r.Some? ==> ConditionName(r.value) == s
    ensures r.None? ==> forall c :: ConditionName(c) != s
  {
    if s == "Like New" then Some(LikeNew)
    else if s == "Excellent" then Some(Excellent)
    else if s == "Good" then Some(Good)
    else if s == "Fair" then Some(Fair)
    else None
  }

  /** Each enumeration's validator accepts its own stored names and reads them back. */
  lemma EnumNamesParse(c: Category, z: Size, k: Condition)
    ensures ParseCategory(CategoryName(c)) == Some(c)
    ensures ParseSize(SizeName(z)) == Some(z)
    ensures ParseCondition(ConditionName(k)) == Some(k)
  {
    match c
    case Tops => case Bottoms => case Dresses => case Outerwear => case Shoes =>
    case Accessories => case Activewear => case Formal => case Casual =>
  }

  // ---------------------------------------------------------------- editable attributes

  const MaxTitleLength := 100
  const MaxDescriptionLength := 500
  const MinPointValue := 1
  const MaxPointValue := 100

  /** The nine client-supplied fields as the request carries them: enumerations as strings. */
  datatype Listing = Listing(title: string, description: string, category: string, itemType: string,
                             size: string, condition: string, images: seq<string>, tags: seq<string>,
                             pointValue: int)

  /** The nine client-supplied fields once the schema has accepted them. */
  datatype Attributes = Attributes(title: string, description: string, category: Category, itemType: string,
                                   size: Size, condition: Condition, images: seq<string>, tags: seq<string>,
                                   pointValue: int)

  /** The paths whose schema validators reject a listing: `title` is trimmed by its schema
      setter, then must be non-empty and at most 100 characters; `description` non-empty and
      at most 500; the three enumerations closed; `type` non-empty; `pointValue` in [1,100]. */
  function ListingErrors(l: Listing): set<string> {
    var t := Text.Trim(l.title);
    (if t == "" || |t| > MaxTitleLength then {"title"} else {})
    + (if l.description == "" || |l.description| > MaxDescriptionLength then {"description"} else {})
    + (if ParseCategory(l.category).None? then {"category"} else {})
    + (if l.itemType == "" then {"type"} else {})
    + (if ParseSize(l.size).None? then {"size"} else {})
    + (if ParseCondition(l.condition).None? then {"condition"} else {})
    + (if l.pointValue < MinPointValue || l.pointValue > MaxPointValue then {"pointValue"} else {})
  }

  /** What every stored item's attributes satisfy. */
  predicate AttributesValid(a: Attributes) {
    && a.title != "" && |a.title| <= MaxTitleLength && Text.Trim(a.title) == a.title
    && a.description != "" && |a.description| <= MaxDescriptionLength
    && a.itemType != ""
    && MinPointValue <= a.pointValue <= MaxPointValue
  }

  /** The stored attributes written back as request strings. */
  function Unparse(a: Attributes): Listing {
    Listing(a.title, a.description, CategoryName(a.category), a.itemType, SizeName(a.size),
            ConditionName(a.condition), a.images, a.tags, a.pointValue)
  }

  /** Schema validation of the nine fields: fails with every rejected path, otherwise
      yields attributes that are valid and that write back to the (title-trimmed) input. */
  function ParseListing(l: Listing): (r: Result<Attributes>)
    ensures r.Ok? <==> ListingErrors(l) == {}
    ensures r.Err? ==> r.error == ValidationError(ListingErrors(l))
    ensures r.Ok? ==> AttributesValid(r.value) && Unparse(r.value) == l.(title := Text.Trim(l.title))
  {
    if ListingErrors(l) != {} then Err(ValidationError(ListingErrors(l)))
    else
      Text.TrimIdempotent(l.title);
      assert "category" !in ListingErrors(l) && "size" !in ListingErrors(l) && "condition" !in ListingErrors(l);
      Ok(Attributes(Text.Trim(l.title), l.description, ParseCategory(l.category).value, l.itemType,
                    ParseSize(l.size).value, ParseCondition(l.condition).value, l.images, l.tags,
                    l.pointValue))
  }

  /** Valid attributes survive being written back and validated again unchanged. */
  lemma ListingRoundTrip(a: Attributes)
    requires AttributesValid(a)
    ensures ParseListing(Unparse(a)) == Ok(a)
  {
    EnumNamesParse(a.category, a.size, a.condition);
    assert ListingErrors(Unparse(a)) == {};
  }

  // ---------------------------------------------------------------- the item record

  datatype ItemStatus = Pending | Available | Swapped | Rejected

  datatype RequestStatus = RequestPending | RequestAccepted | RequestRejected

  /** An entry of the embedded `swapRequests` list; its creation date is not modelled. */
  datatype SwapRequest = SwapRequest(id: RequestId, requester: UserId, message: string, status: RequestStatus)

  datatype Item = Item(attrs: Attributes, uploadedBy: UserId, status: ItemStatus,
                       swapRequests: seq<SwapRequest>, views: int)

  /** A new listing with the schema defaults: awaiting moderation, no requests, no views. */
  function NewItem(a: Attributes, owner: UserId): Item {
    Item(a, owner, Pending, [], 0)
  }

  predicate IsPendingFrom(r: SwapRequest, requester: UserId) {
    r.requester == requester && r.status == RequestPending
  }

  /** Some entry is a pending request of `requester`. */
  predicate HasPendingFrom(reqs: seq<SwapRequest>, requester: UserId) {
    exists i :: 0 <= i < |reqs| && IsPendingFrom(reqs[i], requester)
  }

  /** The embedded-list invariant: no requester has two pending entries. */
  predicate OnePendingPerRequester(reqs: seq<SwapRequest>) {
    forall i, j :: 0 <= i < j < |reqs| && reqs[i].status == RequestPending && reqs[j].status == RequestPending
      ==> reqs[i].requester != reqs[j].requester
  }

  /** What every stored item satisfies. */
  predicate Valid(it: Item) {
    AttributesValid(it.attrs) && it.views >= 0 && OnePendingPerRequester(it.swapRequests)
  }

  // ---------------------------------------------------------------- swapRequestCount

  /** The number of pending entries, counted from the end. */
  function PendingCount(reqs: seq<SwapRequest>): (n: nat)
    ensures n <= |reqs|
  {
    if reqs == [] then 0
    else PendingCount(reqs[..|reqs| - 1]) + (if reqs[|reqs| - 1].status == RequestPending then 1 else 0)
  }

  /** The `swapRequestCount` virtual. */
  function SwapRequestCount(it: Item): nat {
    PendingCount(it.swapRequests)
  }

  /** The positions of the pending entries. */
  ghost function PendingIndices(reqs: seq<SwapRequest>): set<nat> {
    set i: nat | i < |reqs| && reqs[i].status == RequestPending
  }

  /** The count is the number of pending entries, whatever their order. */
  lemma {:induction false} PendingCountIsCardinality(reqs: seq<SwapRequest>)
    ensures PendingCount(reqs) == |PendingIndices(reqs)|
  {
    if reqs != [] {
      var n := |reqs| - 1;
      var init := reqs[..n];
      PendingCountIsCardinality(init);
      if reqs[n].status == RequestPending {
        assert PendingIndices(reqs) == PendingIndices(init) + {n};
      } else {
        assert PendingIndices(reqs) == PendingIndices(init);
      }
    }
  }

  lemma PendingCountAppend(reqs: seq<SwapRequest>, r: SwapRequest)
    ensures PendingCount(reqs + [r]) == PendingCount(reqs) + (if r.status == RequestPending then 1 else 0)
  {
    assert (reqs + [r])[..|reqs|] == reqs;
  }

  /** The count is zero exactly when no entry is pending. */
  lemma {:induction false} PendingCountZeroIff(reqs: seq<SwapRequest>)
    ensures PendingCount(reqs) == 0 <==> forall i :: 0 <= i < |reqs| ==> reqs[i].status != RequestPending
  {
    if reqs != [] {
      var n := |reqs| - 1;
      var init := reqs[..n];
      PendingCountLast(reqs);
      PendingCountZeroIff(init);
      assert forall i :: 0 <= i < n ==> init[i] == reqs[i];
    }
  }

  /** One step of the count: the entries before the last, plus the last. */
  lemma PendingCountLast(reqs: seq<SwapRequest>)
    requires reqs != []
    ensures PendingCount(reqs)
         == PendingCount(reqs[..|reqs| - 1]) + (if reqs[|reqs| - 1].status == RequestPending then 1 else 0)
  {
  }

  /** Overwriting an entry before the last commutes with dropping the last. */
  lemma UpdateBeforeLast(reqs: seq<SwapRequest>, i: nat, x: SwapRequest)
    requires i < |reqs| - 1
    ensures reqs[i := x][..|reqs| - 1] == reqs[..|reqs| - 1][i := x]
    ensures reqs[i := x][|reqs| - 1] == reqs[|reqs| - 1]
  {
  }

  /** Overwriting the last entry leaves the entries before it alone. */
  lemma UpdateLast(reqs: seq<SwapRequest>, x: SwapRequest)
    requires reqs != []
    ensures reqs[|reqs| - 1 := x][..|reqs| - 1] == reqs[..|reqs| - 1]
  {
  }

  /** Overwriting one entry moves the count by that entry's own change. */
  lemma {:induction false} PendingCountUpdate(reqs: seq<SwapRequest>, i: nat, x: SwapRequest)
    requires i < |reqs|
    ensures PendingCount(reqs[i := x])
         == PendingCount(reqs) - (if reqs[i].status == RequestPending then 1 else 0)
                               + (if x.status == RequestPending then 1 else 0)
  {
    var n := |reqs| - 1;
    PendingCountLast(reqs);
    PendingCountLast(reqs[i := x]);
    if i == n {
      UpdateLast(reqs, x);
    } else {
      UpdateBeforeLast(reqs, i, x);
      PendingCountUpdate(reqs[..n], i, x);
    }
  }

  // ---------------------------------------------------------------- item methods

  /** `addSwapRequest(requesterId, message)`. */
  function AddSwapRequest(it: Item, requester: UserId, message: Option<string>, rid: RequestId): (r: Result<Item>)
    ensures r.Err? <==> HasPendingFrom(it.swapRequests, requester)
    ensures r.Err? ==> r.error == DuplicateRequest
    ensures r.Ok? ==>
      r.value.swapRequests == it.swapRequests + [SwapRequest(rid, requester, Text.OrEmpty(message), RequestPending)]
    ensures r.Ok? ==> r.value == it.(swapRequests := r.value.swapRequests)
    ensures r.Ok? ==> SwapRequestCount(r.value) == SwapRequestCount(it) + 1
    ensures r.Ok? && OnePendingPerRequester(it.swapRequests) ==> OnePendingPerRequester(r.value.swapRequests)
  {
    if HasPendingFrom(it.swapRequests, requester) then Err(DuplicateRequest)
    else
      var entry := SwapRequest(rid, requester, Text.OrEmpty(message), RequestPending);
      PendingCountAppend(it.swapRequests, entry);
      Ok(it.(swapRequests := it.swapRequests + [entry]))
  }

  /** `i` is the first position holding request id `rid`: what `swapRequests.id(rid)` finds. */
  ghost predicate FirstWithId(reqs: seq<SwapRequest>, rid: RequestId, i: int) {
    0 <= i < |reqs| && reqs[i].id == rid && forall j :: 0 <= j < i ==> reqs[j].id != rid
  }

  function FindRequest(reqs: seq<SwapRequest>, rid: RequestId): (r: Option<nat>)
    ensures r.Some? ==> FirstWithId(reqs, rid, r.value)
    ensures r.None? ==> forall j :: 0 <= j < |reqs| ==> reqs[j].id != rid
  {
    if reqs == [] then None
    else if reqs[0].id == rid then Some(0)
    else
      match FindRequest(reqs[1..], rid)
      case None => None
      case Some(k) => Some(k + 1)
  }

  /** `updateSwapRequest(requestId, status)`. */
  function UpdateSwapRequest(it: Item, rid: RequestId, st: RequestStatus): (r: Result<Item>)
    ensures r.Err? <==> forall j :: 0 <= j < |it.swapRequests| ==> it.swapRequests[j].id != rid
    ensures r.Err? ==> r.error == RequestNotFound
    ensures r.Ok? ==> exists i :: FirstWithId(it.swapRequests, rid, i)
                        && r.value.swapRequests == it.swapRequests[i := it.swapRequests[i].(status := st)]
                        && SwapRequestCount(r.value)
                           == SwapRequestCount(it) - (if it.swapRequests[i].status == RequestPending then 1 else 0)
                                                   + (if st == RequestPending then 1 else 0)
    ensures r.Ok? ==> r.value == it.(swapRequests := r.value.swapRequests)
  {
    match FindRequest(it.swapRequests, rid)
    case None => Err(RequestNotFound)
    case Some(i) =>
      assert FirstWithId(it.swapRequests, rid, i);
      PendingCountUpdate(it.swapRequests, i, it.swapRequests[i].(status := st));
      Ok(it.(swapRequests := it.swapRequests[i := it.swapRequests[i].(status := st)]))
  }

  /** `incrementViews()`. */
  function IncrementViews(it: Item): (r: Item)
    ensures r.views == it.views + 1
    ensures r == it.(views := r.views)
  {
    it.(views := it.views + 1)
  }
}
