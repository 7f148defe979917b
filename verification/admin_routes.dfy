/** The moderation handlers of backend/routes/admin.js: approving and rejecting a pending
    listing, deleting a listing that no active swap involves, and changing a user's role
    without ever removing the last administrator. Every handler sits behind the router's
    sign-in and administrator gate. */
module AdminRoutes {
  import opened Common
  import Users
  import Items
  import Swaps
  import opened State

  /** The points an owner receives when a listing is approved. */
  const ApprovalBonus := 10

  /** The gate in front of every admin route: the caller is a signed-in account holding the
      administrator role. A caller who fails it is turned away before the handler runs. */
  predicate IsAdmin(s: Store, caller: UserId) {
    caller in s.users && s.users[caller].role == Users.Admin
  }

  // ---------------------------------------------------------------- POST /api/admin/items/:id/approve

  /** Approves a pending listing: it becomes available, and its owner, if the account still
      exists, receives the approval bonus as earned points. */
  function Approve(s: Store, caller: UserId, id: ItemId): (r: Step<Items.Item>)
    ensures r.result.Err? ==> r.store == s
    ensures !IsAdmin(s, caller) ==> r.result == Err(Forbidden)
    ensures IsAdmin(s, caller) && id !in s.items ==> r.result == Err(NotFound)
    ensures IsAdmin(s, caller) && id in s.items && s.items[id].status != Items.Pending ==>
      r.result == Err(NotPending)
    ensures r.result.Ok? <==> IsAdmin(s, caller) && id in s.items && s.items[id].status == Items.Pending
    ensures r.result.Ok? ==>
      && r.result.value == s.items[id].(status := Items.Available)
      && r.store.items == s.items[id := r.result.value]
      && r.store.swaps == s.swaps
      && r.store.users.Keys == s.users.Keys
      && (forall u :: u in s.users && u != s.items[id].uploadedBy ==> r.store.users[u] == s.users[u])
    ensures r.result.Ok? && s.items[id].uploadedBy in s.users ==>
      var o := s.items[id].uploadedBy;
      Users.Moved(s.users[o], r.store.users[o], ApprovalBonus, 0, 0, ApprovalBonus, 0)
  {
    if !IsAdmin(s, caller) then Fail(s, Forbidden)
    else if id !in s.items then Fail(s, NotFound)
    else
      var it := s.items[id];
      if it.status != Items.Pending then Fail(s, NotPending)
      else
        var it' := it.(status := Items.Available);
        var users := if it.uploadedBy in s.users
                     then s.users[it.uploadedBy := Users.AddPoints(s.users[it.uploadedBy], ApprovalBonus)]
                     else s.users;
        Step(Store(users, s.items[id := it'], s.swaps), Ok(it'))
  }

  // ---------------------------------------------------------------- POST /api/admin/items/:id/reject

  /** Rejects a pending listing. Nothing else changes, and no points move. */
  function RejectItem(s: Store, caller: UserId, id: ItemId): (r: Step<Items.Item>)
    ensures r.result.Err? ==> r.store == s
    ensures !IsAdmin(s, caller) ==> r.result == Err(Forbidden)
    ensures IsAdmin(s, caller) && id !in s.items ==> r.result == Err(NotFound)
    ensures IsAdmin(s, caller) && id in s.items && s.items[id].status != Items.Pending ==>
      r.result == Err(NotPending)
    ensures r.result.Ok? <==> IsAdmin(s, caller) && id in s.items && s.items[id].status == Items.Pending
    ensures r.result.Ok? ==>
      && r.result.value == s.items[id].(status := Items.Rejected)
      && r.store == s.(items := s.items[id := r.result.value])
  {
    if !IsAdmin(s, caller) then Fail(s, Forbidden)
    else if id !in s.items then Fail(s, NotFound)
    else
      var it := s.items[id];
      if it.status != Items.Pending then Fail(s, NotPending)
      else
        var it' := it.(status := Items.Rejected);
        Step(s.(items := s.items[id := it']), Ok(it'))
  }

  // ---------------------------------------------------------------- DELETE /api/admin/items/:id

  /** A swap that still involves item `id`, as requested or offered item, and is pending or accepted. */
  predicate IsActiveFor(sw: Swaps.Swap, id: ItemId) {
    && (sw.itemRequested == id || sw.itemOffered == Some(id))
    && (sw.status == Swaps.Pending || sw.status == Swaps.Accepted)
  }

  /** The swaps the active-swap count of the delete handler counts. */
  function ActiveSwaps(s: Store, id: ItemId): (r: set<SwapId>)
    ensures forall k :: k in r <==> k in s.swaps && IsActiveFor(s.swaps[k], id)
  {
    set k | k in s.swaps && IsActiveFor(s.swaps[k], id)
  }

  /** Deletes a listing unless some active swap involves it. Its records in other
      collections are left as they are. */
  function AdminDelete(s: Store, caller: UserId, id: ItemId): (r: Step<()>)
    ensures r.result.Err? ==> r.store == s
    ensures !IsAdmin(s, caller) ==> r.result == Err(Forbidden)
    ensures IsAdmin(s, caller) && id !in s.items ==> r.result == Err(NotFound)
    ensures IsAdmin(s, caller) && id in s.items && (exists k :: k in s.swaps && IsActiveFor(s.swaps[k], id)) ==>
      r.result == Err(HasActiveSwaps)
    ensures r.result.Ok? <==>
      IsAdmin(s, caller) && id in s.items && forall k :: k in s.swaps ==> !IsActiveFor(s.swaps[k], id)
    ensures r.result.Ok? ==> r.store == s.(items := s.items - {id})
  {
    if !IsAdmin(s, caller) then Fail(s, Forbidden)
    else if id !in s.items then Fail(s, NotFound)
    else if |ActiveSwaps(s, id)| > 0 then Fail(s, HasActiveSwaps)
    else
      assert ActiveSwaps(s, id) == {};
      Step(s.(items := s.items - {id}), Ok(()))
  }

  // ---------------------------------------------------------------- PUT /api/admin/users/:id/role

  /** The accounts holding the administrator role. */
  function Admins(users: map<UserId, Users.User>): (r: set<UserId>)
    ensures forall u :: u in r <==> u in users && users[u].role == Users.Admin
  {
    set u | u in users && users[u].role == Users.Admin
  }

  /** Sets the role of account `id` to `role`, which must be "user" or "admin" (checked
      before the lookup). Demoting an administrator is refused while there is at most one. */
  function UpdateRole(s: Store, caller: UserId, id: UserId, role: string): (r: Step<Users.User>)
    ensures r.result.Err? ==> r.store == s
    ensures !IsAdmin(s, caller) ==> r.result == Err(Forbidden)
    ensures IsAdmin(s, caller) && Users.ParseRole(role).None? ==> r.result == Err(InvalidRole)
    ensures IsAdmin(s, caller) && Users.ParseRole(role).Some? && id !in s.users ==> r.result == Err(NotFound)
    ensures IsAdmin(s, caller) && Users.ParseRole(role) == Some(Users.Regular) && id in s.users
            && s.users[id].role == Users.Admin && |Admins(s.users)| <= 1 ==>
      r.result == Err(LastAdmin)
    ensures r.result.Ok? <==>
      && IsAdmin(s, caller) && Users.ParseRole(role).Some? && id in s.users
      && (Users.ParseRole(role) == Some(Users.Regular) && s.users[id].role == Users.Admin ==> |Admins(s.users)| > 1)
    ensures r.result.Ok? ==>
      && Users.RoleName(r.result.value.role) == role
      && r.result.value == s.users[id].(role := r.result.value.role)
      && r.store == s.(users := s.users[id := r.result.value])
  {
    if !IsAdmin(s, caller) then Fail(s, Forbidden)
    else
      match Users.ParseRole(role)
      case None => Fail(s, InvalidRole)
      case Some(newRole) =>
        if id !in s.users then Fail(s, NotFound)
        else
          var u := s.users[id];
          if u.role == Users.Admin && newRole == Users.Regular && |Admins(s.users)| <= 1 then Fail(s, LastAdmin)
          else
            var u' := u.(role := newRole);
            Step(s.(users := s.users[id := u']), Ok(u'))
  }

  /** A role change never leaves a marketplace that had an administrator without one. */
  lemma UpdateRoleKeepsAnAdmin(s: Store, caller: UserId, id: UserId, role: string)
    requires |Admins(s.users)| >= 1
    ensures |Admins(UpdateRole(s, caller, id, role).store.users)| >= 1
  {
    var r := UpdateRole(s, caller, id, role);
    if r.result.Ok? {
      var before, after := Admins(s.users), Admins(r.store.users);
      if r.result.value.role == Users.Admin {
        assert id in after;
      } else if s.users[id].role == Users.Admin {
        assert after == before - {id};
        assert |after| == |before| - 1;
      } else {
        assert after == before;
      }
    }
  }
}
