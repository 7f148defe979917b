/** The marketplace invariant `State.Valid` is kept by every handler, and the marketplace
    workflows hold: an item is never sold twice, a listing is approved once, an accepted
    swap pays its bonus, and a live request blocks the deletes. */
module Invariants {
  import opened Common
  import Text
  import Users
  import Items
  import Swaps
  import opened State
  import ItemRoutes
  import UserRoutes
  import AdminRoutes

  /** A change of balance that is booked as earned or spent keeps a user valid while the
      balance stays non-negative. */
  lemma MovedKeepsValid(u: Users.User, v: Users.User, points: int, listed: int, swaps: int, earned: int, spent: int)
    requires Users.Valid(u) && Users.Moved(u, v, points, listed, swaps, earned, spent)
    requires listed >= 0 && swaps >= 0 && earned >= 0 && spent >= 0 && points == earned - spent
    requires u.points + points >= 0
    ensures Users.Valid(v)
  {
  }

  // ---------------------------------------------------------------- single writes

  lemma PutItem(s: Store, id: ItemId, it: Items.Item)
    requires Valid(s) && Items.Valid(it)
    ensures Valid(s.(items := s.items[id := it]))
  {
  }

  lemma PutUser(s: Store, id: UserId, u: Users.User)
    requires Valid(s) && Users.Valid(u)
    ensures Valid(s.(users := s.users[id := u]))
  {
  }

  lemma PutSwap(s: Store, id: SwapId, sw: Swaps.Swap)
    requires Valid(s) && Swaps.Valid(sw)
    ensures Valid(s.(swaps := s.swaps[id := sw]))
  {
  }

  /** A status change leaves an item valid. */
  lemma RestatusKeepsValid(it: Items.Item, st: Items.ItemStatus)
    requires Items.Valid(it)
    ensures Items.Valid(it.(status := st))
  {
  }

  // ---------------------------------------------------------------- preservation

  /** A freshly registered account, created with the schema defaults, keeps the store valid. */
  lemma RegisterKeepsValid(s: Store, id: UserId)
    requires Valid(s) && id !in s.users
    ensures Valid(s.(users := s.users[id := Users.NewUser()]))
  {
  }

  lemma GetItemKeepsValid(s: Store, viewer: Option<UserId>, id: ItemId)
    requires Valid(s)
    ensures Valid(ItemRoutes.GetItem(s, viewer, id).store)
  {
    var r := ItemRoutes.GetItem(s, viewer, id);
    if r.result.Ok? {
      var it, it' := s.items[id], r.result.value;
      assert Items.Valid(it);
      assert it' == it.(views := it'.views) && it'.views >= it.views;
      PutItem(s, id, it');
    }
  }

  lemma CreateItemKeepsValid(s: Store, creator: UserId, b: ItemRoutes.NewItemBody, id: ItemId)
    requires Valid(s) && creator in s.users && id !in s.items
    ensures Valid(ItemRoutes.CreateItem(s, creator, b, id).store)
  {
    var r := ItemRoutes.CreateItem(s, creator, b, id);
    if r.result.Ok? {
      var it, u := r.store.items[id], r.store.users[creator];
      assert Items.Valid(it);
      MovedKeepsValid(s.users[creator], u, 0, 1, 0, 0, 0);
      var s1 := s.(items := s.items[id := it]);
      PutItem(s, id, it);
      PutUser(s1, creator, u);
      assert r.store == s1.(users := s1.users[creator := u]);
    }
  }

  lemma UpdateItemKeepsValid(s: Store, caller: UserId, id: ItemId, p: ItemRoutes.Patch)
    requires Valid(s)
    ensures Valid(ItemRoutes.UpdateItem(s, caller, id, p).store)
  {
    var r := ItemRoutes.UpdateItem(s, caller, id, p);
    if r.result.Ok? {
      var it, it' := s.items[id], r.result.value;
      assert Items.Valid(it);
      assert it' == it.(attrs := it'.attrs);
      PutItem(s, id, it');
    }
  }

  lemma DeleteItemKeepsValid(s: Store, caller: UserId, id: ItemId)
    requires Valid(s)
    ensures Valid(ItemRoutes.DeleteItem(s, caller, id).store)
  {
  }

  /** Also when a duplicate request leaves its Swap record behind: that record is valid too. */
  lemma RequestSwapKeepsValid(s: Store, caller: UserId, id: ItemId, message: Option<string>,
                              offered: Option<ItemId>, sid: SwapId, rid: RequestId)
    requires Valid(s) && sid !in s.swaps
    ensures Valid(ItemRoutes.RequestSwap(s, caller, id, message, offered, sid, rid).store)
  {
    var r := ItemRoutes.RequestSwap(s, caller, id, message, offered, sid, rid);
    if sid in r.store.swaps {
      var sw := r.store.swaps[sid];
      assert Swaps.Valid(sw);
      var s1 := s.(swaps := s.swaps[sid := sw]);
      PutSwap(s, sid, sw);
      if r.result.Ok? {
        var it, it' := s.items[id], r.store.items[id];
        assert Items.Valid(it);
        assert Items.AddSwapRequest(it, caller, message, rid) == Ok(it');
        assert Items.Valid(it');
        PutItem(s1, id, it');
        assert r.store == s1.(items := s1.items[id := it']);
      } else {
        assert r.store == s1;
      }
    }
  }

  lemma RedeemKeepsValid(s: Store, caller: UserId, id: ItemId, sid: SwapId)
    requires Valid(s) && caller in s.users && sid !in s.swaps
    ensures Valid(ItemRoutes.Redeem(s, caller, id, sid).store)
  {
    var r := ItemRoutes.Redeem(s, caller, id, sid);
    if r.result.Ok? {
      var owner, price := s.items[id].uploadedBy, s.items[id].attrs.pointValue;
      var b, o, it, sw := r.store.users[caller], r.store.users[owner], r.store.items[id], r.store.swaps[sid];
      assert Items.Valid(s.items[id]);
      MovedKeepsValid(s.users[caller], b, -price, 0, 1, 0, price);
      MovedKeepsValid(s.users[owner], o, price, 0, 1, price, 0);
      RestatusKeepsValid(s.items[id], Items.Swapped);
      assert sw.message.None?;
      var s1 := s.(users := s.users[caller := b]);
      var s2 := s1.(users := s1.users[owner := o]);
      var s3 := s2.(items := s2.items[id := it]);
      PutUser(s, caller, b);
      PutUser(s1, owner, o);
      PutItem(s2, id, it);
      PutSwap(s3, sid, sw);
      assert r.store == s3.(swaps := s3.swaps[sid := sw]);
    }
  }

  lemma RespondKeepsValid(s: Store, caller: UserId, sid: SwapId, action: string, now: int)
    requires Valid(s)
    ensures Valid(UserRoutes.Respond(s, caller, sid, action, now).store)
  {
    var r := UserRoutes.Respond(s, caller, sid, action, now);
    if r.result.Ok? {
      var sw, sw' := s.swaps[sid], r.result.value;
      assert Swaps.Valid(sw) && sw.kind == Swaps.DirectSwap;
      assert Swaps.Valid(sw');
      var s1 := s.(swaps := s.swaps[sid := sw']);
      PutSwap(s, sid, sw');
      if action == "accept" {
        AcceptKeepsValid(s1, sw);
        assert r.store == s1.(users := UserRoutes.Reward(s1.users, sw), items := UserRoutes.MarkSwapped(s1.items, sw));
      }
    }
  }

  /** The rewards and item updates of an acceptance keep a valid store valid. */
  lemma AcceptKeepsValid(s: Store, sw: Swaps.Swap)
    requires Valid(s) && Swaps.Valid(sw)
    requires sw.itemRequested in s.items && sw.requester in s.users && sw.owner in s.users
    ensures Valid(s.(users := UserRoutes.Reward(s.users, sw), items := UserRoutes.MarkSwapped(s.items, sw)))
  {
    RewardKeepsValid(s.users, sw);
    MarkSwappedKeepsValid(s.items, sw);
  }

  lemma RewardKeepsValid(users: map<UserId, Users.User>, sw: Swaps.Swap)
    requires forall u :: u in users ==> Users.Valid(users[u])
    requires sw.requester in users && sw.owner in users && sw.requester != sw.owner
    ensures var r := UserRoutes.Reward(users, sw); forall u :: u in r ==> Users.Valid(r[u])
  {
    var r := UserRoutes.Reward(users, sw);
    var bonus := if sw.kind == Swaps.DirectSwap then UserRoutes.SwapBonus else 0;
    MovedKeepsValid(users[sw.requester], r[sw.requester], bonus, 0, 1, bonus, 0);
    MovedKeepsValid(users[sw.owner], r[sw.owner], bonus, 0, 1, bonus, 0);
  }

  lemma MarkSwappedKeepsValid(items: map<ItemId, Items.Item>, sw: Swaps.Swap)
    requires forall i :: i in items ==> Items.Valid(items[i])
    requires sw.itemRequested in items
    ensures var r := UserRoutes.MarkSwapped(items, sw); forall i :: i in r ==> Items.Valid(r[i])
  {
    var r := UserRoutes.MarkSwapped(items, sw);
    forall i | i in r
      ensures Items.Valid(r[i])
    {
      var it := items[i];
      assert Items.Valid(it);
      RestatusKeepsValid(it, Items.Swapped);
      assert r[i] == it || r[i] == it.(status := Items.Swapped);
    }
  }

  lemma ApproveKeepsValid(s: Store, caller: UserId, id: ItemId)
    requires Valid(s)
    ensures Valid(AdminRoutes.Approve(s, caller, id).store)
  {
    var r := AdminRoutes.Approve(s, caller, id);
    if r.result.Ok? {
      var it := r.result.value;
      RestatusKeepsValid(s.items[id], Items.Available);
      var s1 := s.(items := s.items[id := it]);
      PutItem(s, id, it);
      var o := s.items[id].uploadedBy;
      if o in s.users {
        var u := r.store.users[o];
        MovedKeepsValid(s.users[o], u, AdminRoutes.ApprovalBonus, 0, 0, AdminRoutes.ApprovalBonus, 0);
        PutUser(s1, o, u);
        assert r.store == s1.(users := s1.users[o := u]);
      } else {
        assert r.store == s1;
      }
    }
  }

  lemma RejectItemKeepsValid(s: Store, caller: UserId, id: ItemId)
    requires Valid(s)
    ensures Valid(AdminRoutes.RejectItem(s, caller, id).store)
  {
    var r := AdminRoutes.RejectItem(s, caller, id);
    if r.result.Ok? {
      RestatusKeepsValid(s.items[id], Items.Rejected);
      PutItem(s, id, r.result.value);
    }
  }

  lemma AdminDeleteKeepsValid(s: Store, caller: UserId, id: ItemId)
    requires Valid(s)
    ensures Valid(AdminRoutes.AdminDelete(s, caller, id).store)
  {
  }

  lemma UpdateRoleKeepsValid(s: Store, caller: UserId, id: UserId, role: string)
    requires Valid(s)
    ensures Valid(AdminRoutes.UpdateRole(s, caller, id, role).store)
  {
    var r := AdminRoutes.UpdateRole(s, caller, id, role);
    if r.result.Ok? {
      assert Users.Valid(s.users[id]);
      PutUser(s, id, r.result.value);
    }
  }

  // ---------------------------------------------------------------- workflows

  /** No item is sold twice: once redeemed it is swapped, and every later redemption of it
      fails, whoever tries. */
  lemma RedeemTwiceFails(s: Store, caller: UserId, id: ItemId, sid: SwapId, other: UserId, sid2: SwapId)
    requires caller in s.users && sid !in s.swaps
    requires ItemRoutes.Redeem(s, caller, id, sid).result.Ok?
    requires other in ItemRoutes.Redeem(s, caller, id, sid).store.users
    requires sid2 !in ItemRoutes.Redeem(s, caller, id, sid).store.swaps
    ensures ItemRoutes.Redeem(ItemRoutes.Redeem(s, caller, id, sid).store, other, id, sid2).result == Err(NotAvailable)
  {
    var s1 := ItemRoutes.Redeem(s, caller, id, sid).store;
    assert s1.items[id].status == Items.Swapped;
  }

  /** A swapped item also refuses every new swap request. */
  lemma RedeemedItemRefusesRequests(s: Store, caller: UserId, id: ItemId, sid: SwapId, other: UserId,
                                    message: Option<string>, offered: Option<ItemId>, sid2: SwapId, rid: RequestId)
    requires caller in s.users && sid !in s.swaps
    requires ItemRoutes.Redeem(s, caller, id, sid).result.Ok?
    requires sid2 !in ItemRoutes.Redeem(s, caller, id, sid).store.swaps
    ensures ItemRoutes.RequestSwap(ItemRoutes.Redeem(s, caller, id, sid).store, other, id, message, offered, sid2, rid).result
            == Err(NotAvailable)
  {
    var s1 := ItemRoutes.Redeem(s, caller, id, sid).store;
    assert s1.items[id].status == Items.Swapped;
  }

  /** The redemption example: a buyer with 50 points buys a 20-point item from an owner
      with 100 points; afterwards they hold 30 and 120, the item is swapped, one completed
      redemption record exists, and the reply reports 10 points remaining. */
  lemma RedeemExample(s: Store, buyer: UserId, owner: UserId, id: ItemId, sid: SwapId)
    requires buyer in s.users && owner in s.users && id in s.items && sid !in s.swaps
    requires s.users[buyer].points == 50 && s.users[owner].points == 100
    requires s.items[id].uploadedBy == owner && owner != buyer
    requires s.items[id].status == Items.Available && s.items[id].attrs.pointValue == 20
    ensures var r := ItemRoutes.Redeem(s, buyer, id, sid);
      && r.result == Ok(ItemRoutes.Receipt(sid, 10))
      && r.store.users[buyer].points == 30 && r.store.users[owner].points == 120
      && r.store.items[id].status == Items.Swapped
      && r.store.swaps.Keys == s.swaps.Keys + {sid}
      && r.store.swaps[sid].kind == Swaps.PointRedemption && r.store.swaps[sid].status == Swaps.Completed
  {
  }

  /** Approving twice: the second approval fails and pays nothing. */
  lemma ApproveTwiceFails(s: Store, caller: UserId, id: ItemId)
    requires AdminRoutes.Approve(s, caller, id).result.Ok?
    ensures var s1 := AdminRoutes.Approve(s, caller, id).store;
      AdminRoutes.Approve(s1, caller, id) == Step(s1, Err(NotPending))
  {
  }

  /** Under the invariant only direct swaps are ever pending, so every accepted swap pays
      both parties the completion bonus. */
  lemma AcceptPaysBonus(s: Store, caller: UserId, sid: SwapId, now: int)
    requires Valid(s)
    requires UserRoutes.Respond(s, caller, sid, "accept", now).result.Ok?
    ensures var sw, r := s.swaps[sid], UserRoutes.Respond(s, caller, sid, "accept", now);
      && sw.kind == Swaps.DirectSwap
      && r.store.users[sw.requester].points == s.users[sw.requester].points + UserRoutes.SwapBonus
      && r.store.users[sw.owner].points == s.users[sw.owner].points + UserRoutes.SwapBonus
  {
    var sw := s.swaps[sid];
    assert Swaps.Valid(sw);
  }

  /** A swap is answered once: after an accept or reject, every further response fails. */
  lemma RespondTwiceFails(s: Store, caller: UserId, sid: SwapId, action: string, action2: string, now: int, later: int)
    requires UserRoutes.Respond(s, caller, sid, action, now).result.Ok?
    requires UserRoutes.ParseAction(action2).Some?
    ensures var s1 := UserRoutes.Respond(s, caller, sid, action, now).store;
      UserRoutes.Respond(s1, caller, sid, action2, later).result == Err(NotPending)
  {
    var r := UserRoutes.Respond(s, caller, sid, action, now);
    assert r.store.swaps[sid] == r.result.value;
    assert r.store.users.Keys == s.users.Keys;
  }

  /** Asking twice: the second request of the same requester is refused as a duplicate,
      yet its Swap record stays in the store. */
  lemma SecondRequestIsDuplicate(s: Store, caller: UserId, id: ItemId, message: Option<string>, offered: Option<ItemId>,
                                 sid: SwapId, rid: RequestId, message2: Option<string>, sid2: SwapId, rid2: RequestId)
    requires sid !in s.swaps
    requires ItemRoutes.RequestSwap(s, caller, id, message, offered, sid, rid).result.Ok?
    requires sid2 !in ItemRoutes.RequestSwap(s, caller, id, message, offered, sid, rid).store.swaps
    requires |Text.OrEmpty(message2)| <= Swaps.MaxMessageLength
    ensures var s1 := ItemRoutes.RequestSwap(s, caller, id, message, offered, sid, rid).store;
      var r := ItemRoutes.RequestSwap(s1, caller, id, message2, offered, sid2, rid2);
      && r.result == Err(DuplicateRequest)
      && sid2 in r.store.swaps && r.store.swaps[sid2].status == Swaps.Pending
  {
    var s1 := ItemRoutes.RequestSwap(s, caller, id, message, offered, sid, rid).store;
    var reqs := s1.items[id].swapRequests;
    assert Items.IsPendingFrom(reqs[|reqs| - 1], caller);
    assert ItemRoutes.SwapRequestAllowed(s1, caller, id, offered);
  }

  /** A live request blocks both deletes: the owner's (through the embedded request) and
      the moderator's (through the Swap record). */
  lemma RequestBlocksDeletes(s: Store, caller: UserId, id: ItemId, message: Option<string>, offered: Option<ItemId>,
                             sid: SwapId, rid: RequestId, admin: UserId)
    requires sid !in s.swaps
    requires AdminRoutes.IsAdmin(s, admin)
    requires ItemRoutes.RequestSwap(s, caller, id, message, offered, sid, rid).result.Ok?
    ensures var s1 := ItemRoutes.RequestSwap(s, caller, id, message, offered, sid, rid).store;
      && ItemRoutes.DeleteItem(s1, s.items[id].uploadedBy, id).result == Err(HasPendingRequests)
      && AdminRoutes.AdminDelete(s1, admin, id).result == Err(HasActiveSwaps)
  {
    var s1 := ItemRoutes.RequestSwap(s, caller, id, message, offered, sid, rid).store;
    var reqs := s.items[id].swapRequests;
    var x := Items.SwapRequest(rid, caller, Text.OrEmpty(message), Items.RequestPending);
    Items.PendingCountAppend(reqs, x);
    assert AdminRoutes.IsActiveFor(s1.swaps[sid], id);
  }
}
