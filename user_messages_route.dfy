/** The tool's reply route (`api/mcp/user-messages`): GET hands the user's replies to the tool. */
module UserMessagesRoute {
  import opened Support
  import opened Api
  import opened MessageStore

  /** GET: with `all=true` every user record, nothing marked; otherwise the undelivered user
      records, which are then marked as sent, so that no reply reaches the tool twice. */
  method Get(store: Store, allParam: Option<string>) returns (r: seq<Message>)
    requires store.Valid()
    modifies store
    ensures store.Valid()
    ensures store.nextId == old(store.nextId) && store.history == old(store.history)
    ensures forall m :: m in r ==> m.role == User
    ensures AllFlag(allParam) ==> r == WithRole(old(store.messages), User) && unchanged(store)
    ensures !AllFlag(allParam) ==> Delivery(old(store.messages), store.messages, User, r)
    ensures !AllFlag(allParam) ==> IdsOf(r) !! old(store.markedIds) && IdsOf(r) <= store.markedIds
  {
    var getAll := AllFlag(allParam);
    r := store.GetUnsentMessages(User, getAll);
    if !getAll {
      FetchAndMark(store.messages, User);
      FetchedNeverMarked(store.messages, store.nextId, store.history, store.markedIds, User);
      MarkRecordsBatch(store.messages, r);
      store.MarkMessagesAsSent(r);
    }
  }

  /** Two GETs without `all` and with nothing appended between them: the second returns nothing. */
  method GetTwice(store: Store) returns (first: seq<Message>, second: seq<Message>)
    requires store.Valid()
    modifies store
    ensures first == UnsentWithRole(old(store.messages), User)
    ensures second == []
  {
    first := Get(store, None);
    second := Get(store, None);
  }

  /** Successive fetches follow insertion order: a GET, then any number of appended
      messages of either role, then a second GET; every record of the second result is
      newer than every record of the first. */
  method FetchesFollowInsertionOrder(store: Store, posts: seq<(Role, string)>, timestamp: string)
    returns (first: seq<Message>, second: seq<Message>)
    requires store.Valid()
    modifies store
    ensures store.Valid()
    ensures first == UnsentWithRole(old(store.messages), User)
    ensures forall a, b :: a in first && b in second ==> a.id < b.id
  {
    first := Get(store, None);
    var bound := store.nextId;
    assert forall a :: a in first ==> a.id < bound;
    DeliveryDeliversRole(old(store.messages), store.messages, User, first, bound);
    var i := 0;
    while i < |posts|
      invariant 0 <= i <= |posts|
      invariant store.Valid()
      invariant bound <= store.nextId
      invariant DeliveredBelow(store.messages, User, bound)
    {
      var before := store.messages;
      var m := store.AddMessage(posts[i].1, posts[i].0, false, timestamp);
      AppendKeepsDeliveredBelow(before, m, User, bound);
      i := i + 1;
    }
    UnsentAreNew(store.messages, User, bound);
    second := Get(store, None);
  }
}
