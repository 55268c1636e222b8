/** The tool-facing speak route (`api/mcp/speak`): POST queues assistant text on the shared
    store, GET hands the queued text to the web client. */
module McpSpeakRoute {
  import opened Support
  import opened Api
  import opened MessageStore

  const SpokenNote := "Message received and will be spoken"

  /** The role a GET reads: the `role` query parameter, or `assistant` when it is absent or
      empty; a name that is neither role selects no record. */
  function RequestedRole(param: Option<string>): (r: Option<Role>)
    ensures param.None? || param == Some("") ==> r == Some(Assistant)
    ensures forall ro: Role :: param == Some(RoleName(ro)) ==> r == Some(ro)
    ensures r.Some? ==> param.None? || param == Some("") || param == Some(RoleName(r.value))
  {
    RoleFromName(if param.Some? && param.value != "" then param.value else RoleName(Assistant))
  }

  /** POST: refuse a missing or empty text; otherwise append an undelivered assistant record. */
  method Post(store: Store, text: Option<string>, timestamp: string) returns (r: PostResponse)
    requires store.Valid()
    modifies store
    ensures store.Valid()
    ensures !HasText(text) ==> r == BadRequest(TextRequired) && Status(r) == 400 && unchanged(store)
    ensures HasText(text) ==> r.Accepted? && r.note == SpokenNote && Status(r) == 200
    ensures r.Accepted? ==>
      var m := Message(r.messageId, text.value, timestamp, Assistant, false);
      && HasText(text)
      && r.messageId !in Ids(old(store.messages))
      && store.messages == KeepLast(old(store.messages) + [m], MaxMessages)
      && store.messages[|store.messages| - 1] == m
  {
    if !HasText(text) {
      return BadRequest(TextRequired);
    }
    var message := store.AddMessage(text.value, Assistant, false, timestamp);
    r := Accepted(SpokenNote, message.id);
  }

  /** GET: with `all=true` every record of the requested role, nothing marked; otherwise the
      undelivered records of the role, which are then marked as sent. */
  method Get(store: Store, allParam: Option<string>, roleParam: Option<string>) returns (r: seq<Message>)
    requires store.Valid()
    modifies store
    ensures store.Valid()
    ensures store.nextId == old(store.nextId) && store.history == old(store.history)
    ensures AllFlag(allParam) || RequestedRole(roleParam).None? ==> store.messages == old(store.messages)
    ensures AllFlag(allParam) ==> store.markedIds == old(store.markedIds)
    ensures RequestedRole(roleParam).None? ==> r == []
    ensures RequestedRole(roleParam).Some? ==>
      var role := RequestedRole(roleParam).value;
      && (AllFlag(allParam) ==> r == WithRole(old(store.messages), role))
      && (!AllFlag(allParam) ==> Delivery(old(store.messages), store.messages, role, r))
    ensures !AllFlag(allParam) ==> IdsOf(r) !! old(store.markedIds) && IdsOf(r) <= store.markedIds
  {
    var getAll := AllFlag(allParam);
    var requested := RequestedRole(roleParam);
    if requested.None? {
      // No stored record carries another role name, so both filters select nothing
      // and marking the empty selection changes nothing.
      r := [];
      if !getAll {
        assert MarkSent(store.messages, IdsOf(r)) == store.messages;
        store.MarkMessagesAsSent(r);
      }
      return;
    }
    var role := requested.value;
    if getAll {
      r := store.GetUnsentMessages(role, true);
      return;
    }
    r := store.GetUnsentMessages(role, false);
    FetchAndMark(store.messages, role);
    FetchedNeverMarked(store.messages, store.nextId, store.history, store.markedIds, role);
    MarkRecordsBatch(store.messages, r);
    store.MarkMessagesAsSent(r);
  }
}
