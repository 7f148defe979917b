/** The marketplace as the three collections the handlers read and write, and the step a
    handler takes: the collections afterwards together with the reply. */
module State {
  import opened Common
  import Users
  import Items
  import Swaps

  datatype Store = Store(users: map<UserId, Users.User>, items: map<ItemId, Items.Item>,
                         swaps: map<SwapId, Swaps.Swap>)

  /** The collections after a handler ran, and its reply. A failing handler usually leaves
      the collections as they were, but not always (a duplicate swap request does not). */
  datatype Step<+T> = Step(store: Store, result: Result<T>)

  function Fail<T>(s: Store, e: Error): Step<T> {
    Step(s, Err(e))
  }

  /** The invariant of a reachable marketplace: every record satisfies its own invariant. */
  predicate Valid(s: Store) {
    && (forall u :: u in s.users ==> Users.Valid(s.users[u]))
    && (forall i :: i in s.items ==> Items.Valid(s.items[i]))
    && (forall k :: k in s.swaps ==> Swaps.Valid(s.swaps[k]))
  }

  /** The marketplace before anything happened. */
  const Empty := Store(map[], map[], map[])
}
