/** The web client's speak route (`api/user/speak`): POST queues the user's reply on the
    shared store, GET lists the user's messages. */
module UserSpeakRoute {
  import opened Support
  import opened Api
  import opened MessageStore

  const ReceivedNote := "User message received"

  /** POST: refuse a missing or empty text; otherwise append an undelivered user record. */
  method Post(store: Store, text: Option<string>, timestamp: string) returns (r: PostResponse)
    requires store.Valid()
    modifies store
    ensures store.Valid()
    ensures !HasText(text) ==> r == BadRequest(TextRequired) && Status(r) == 400 && unchanged(store)
    ensures HasText(text) ==> r.Accepted? && r.note == ReceivedNote && Status(r) == 200
    ensures r.Accepted? ==>
      var m := Message(r.messageId, text.value, timestamp, User, false);
      && HasText(text)
      && r.messageId !in Ids(old(store.messages))
      && store.messages == KeepLast(old(store.messages) + [m], MaxMessages)
      && store.messages[|store.messages| - 1] == m
  {
    if !HasText(text) {
      return BadRequest(TextRequired);
    }
    var message := store.AddMessage(text.value, User, false, timestamp);
    r := Accepted(ReceivedNote, message.id);
  }

  /** GET: with `all=true` every user record, nothing marked; otherwise the undelivered user
      records, which are then marked as sent. Assistant records are never touched. */
  method Get(store: Store, allParam: Option<string>) returns (r: seq<Message>)
    requires store.Valid()
    modifies store
    ensures store.Valid()
    ensures store.nextId == old(store.nextId) && store.history == old(store.history)
    ensures forall m :: m in r ==> m.role == User
    ensures AllFlag(allParam) ==> r == WithRole(old(store.messages), User) && unchanged(store)
    ensures !AllFlag(allParam) ==> Delivery(old(store.messages), store.messages, User, r)
    ensures !AllFlag(allParam) ==> IdsOf(r) !! old(store.markedIds) && IdsOf(r) <= store.markedIds
  {
    var getAll := AllFlag(allParam);
    r := store.GetUnsentMessages(User, getAll);
    if !getAll {
      FetchAndMark(store.messages, User);
      FetchedNeverMarked(store.messages, store.nextId, store.history, store.markedIds, User);
      MarkRecordsBatch(store.messages, r);
      store.MarkMessagesAsSent(r);
    }
  }
}
