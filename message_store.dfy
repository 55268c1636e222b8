/** The shared in-memory message store of the web app: an ordered log of at most
    100 messages, each with a delivery flag (`sent`). */
module MessageStore {
  import opened Support

  /** Which side of the conversation produced a message. */
  datatype Role = Assistant | User

  /** Message ids. The store draws them from a counter, so a new id is always fresh. */
  type MessageId = nat

  /** A stored record. `timestamp` is an opaque ISO-8601 string chosen by the caller. */
  datatype Message = Message(id: MessageId, text: string, timestamp: string, role: Role, sent: bool)

  /** Retention cap of the log. */
  const MaxMessages: nat := 100

  /** The wire name of a role, as the routes receive it in a query string. */
  function RoleName(role: Role): string
  {
    match role
    case Assistant => "assistant"
    case User => "user"
  }

  /** The role a wire name denotes; `None` for any other string. */
  function RoleFromName(name: string): (r: Option<Role>)
    ensures r.Some? <==> name == RoleName(Assistant) || name == RoleName(User)
    ensures r.Some? ==> RoleName(r.value) == name
  {
    if name == "assistant" then Some(Assistant)
    else if name == "user" then Some(User)
    else None
  }

  /** The ids of a log, position by position. */
  function Ids(log: seq<Message>): (r: seq<MessageId>)
    ensures |r| == |log|
    ensures forall k :: 0 <= k < |log| ==> r[k] == log[k].id
  {
    seq(|log|, k requires 0 <= k < |log| => log[k].id)
  }

  /** The ids of a batch of messages, the way `markMessagesAsSent` collects them. */
  function IdsOf(batch: seq<Message>): set<MessageId>
  {
    set m | m in batch :: m.id
  }

  /** No two records of the log share an id. */
  predicate UniqueIds(log: seq<Message>)
  {
    forall i, j :: 0 <= i < j < |log| ==> log[i].id != log[j].id
  }

  /** The records of one role, in log order (`getMessagesByRole`,
      and `getUnsentMessages(role, true)`). */
  function WithRole(log: seq<Message>, role: Role): (r: seq<Message>)
    ensures forall m :: m in r <==> m in log && m.role == role
    ensures IsSubseq(r, log)
  {
    if log == [] then []
    else
      var init, last := log[..|log| - 1], log[|log| - 1];
      assert log == init + [last];
      var rest := WithRole(init, role);
      if last.role == role then rest + [last]
      else
        assert rest != [] ==> rest[|rest| - 1] in rest;
        rest
  }

  /** The records of one role not yet delivered, in log order (`getUnsentMessages(role, false)`). */
  function UnsentWithRole(log: seq<Message>, role: Role): (r: seq<Message>)
    ensures forall m :: m in r <==> m in log && m.role == role && !m.sent
    ensures IsSubseq(r, log)
  {
    if log == [] then []
    else
      var init, last := log[..|log| - 1], log[|log| - 1];
      assert log == init + [last];
      var rest := UnsentWithRole(init, role);
      if last.role == role && !last.sent then rest + [last]
      else
        assert rest != [] ==> rest[|rest| - 1] in rest;
        rest
  }

  /** Filtering a log extended by one record extends the filtered log by that record when it
      has the role and is undelivered. */
  lemma UnsentWithRoleSnoc(log: seq<Message>, m: Message, role: Role)
    ensures UnsentWithRole(log + [m], role) ==
      UnsentWithRole(log, role) + (if m.role == role && !m.sent then [m] else [])
  {
    assert (log + [m])[..|log|] == log;
  }

  /** `markMessagesAsSent`: every record whose id is in `ids` is delivered; nothing else changes. */
  function MarkSent(log: seq<Message>, ids: set<MessageId>): (r: seq<Message>)
    ensures |r| == |log|
    ensures forall k :: 0 <= k < |log| ==> r[k].sent == (log[k].sent || log[k].id in ids)
    ensures forall k :: 0 <= k < |log| ==> r[k] == log[k].(sent := r[k].sent)
  {
    seq(|log|, k requires 0 <= k < |log| => if log[k].id in ids then log[k].(sent := true) else log[k])
  }

  /** The undelivered records of a role come in the same order as all records of that role:
      `getUnsentMessages(role, false)` is a subsequence of `getMessagesByRole(role)`. */
  lemma {:induction false} UnsentWithinRole(log: seq<Message>, role: Role)
    ensures IsSubseq(UnsentWithRole(log, role), WithRole(log, role))
  {
    if log != [] {
      var init, last := log[..|log| - 1], log[|log| - 1];
      UnsentWithinRole(init, role);
      var u := UnsentWithRole(init, role);
      if last.role == role && last.sent {
        assert u != [] ==> u[|u| - 1] in u;
      }
    }
  }

  /** Marking the same ids twice is the same as marking them once. */
  lemma MarkSentIdempotent(log: seq<Message>, ids: set<MessageId>)
    ensures MarkSent(MarkSent(log, ids), ids) == MarkSent(log, ids)
  {
    var once := MarkSent(log, ids);
    var twice := MarkSent(once, ids);
    forall k | 0 <= k < |log|
      ensures twice[k] == once[k]
    {
      assert once[k].id == log[k].id;
    }
  }

  /** A log in which every record of the role is delivered has nothing left to fetch for it. */
  lemma {:induction false} NothingUnsent(log: seq<Message>, role: Role)
    requires forall k :: 0 <= k < |log| && log[k].role == role ==> log[k].sent
    ensures UnsentWithRole(log, role) == []
  {
    if log != [] {
      NothingUnsent(log[..|log| - 1], role);
    }
  }

  /** Fetch-then-mark drains a role: afterwards no record of that role is undelivered. */
  lemma FetchThenMarkDrains(log: seq<Message>, role: Role)
    ensures UnsentWithRole(MarkSent(log, IdsOf(UnsentWithRole(log, role))), role) == []
  {
    var fetched := UnsentWithRole(log, role);
    var marked := MarkSent(log, IdsOf(fetched));
    forall k | 0 <= k < |marked| && marked[k].role == role
      ensures marked[k].sent
    {
      if !log[k].sent {
        assert log[k] in fetched;
      }
    }
    NothingUnsent(marked, role);
  }

  /** With unique ids, fetch-then-mark delivers exactly the undelivered records of the role:
      their flag flips, and every record of the other role is left as it was. */
  lemma FetchThenMarkExact(log: seq<Message>, role: Role)
    requires UniqueIds(log)
    ensures var marked := MarkSent(log, IdsOf(UnsentWithRole(log, role)));
      && |marked| == |log|
      && (forall k :: 0 <= k < |log| ==> marked[k].sent == (log[k].sent || log[k].role == role))
      && (forall k :: 0 <= k < |log| && log[k].role != role ==> marked[k] == log[k])
  {
    var fetched := UnsentWithRole(log, role);
    var marked := MarkSent(log, IdsOf(fetched));
    forall k | 0 <= k < |log|
      ensures marked[k].sent == (log[k].sent || log[k].role == role)
      ensures log[k].role != role ==> marked[k] == log[k]
    {
      if log[k].role == role && !log[k].sent {
        assert log[k] in fetched;
      }
      if log[k].role != role && log[k].id in IdsOf(fetched) {
        assert false;
      }
    }
  }

  /** Two undelivered records, one of each role, that share the id 7. */
  function SharedIdLog(): seq<Message>
  {
    [Message(7, "hello", "t0", Assistant, false), Message(7, "hi", "t1", User, false)]
  }

  /** On `SharedIdLog`, each role's fetch returns that role's one record. */
  lemma SharedIdFetches()
    ensures UnsentWithRole(SharedIdLog(), Assistant) == [SharedIdLog()[0]]
    ensures UnsentWithRole(SharedIdLog(), User) == [SharedIdLog()[1]]
  {
    var log := SharedIdLog();
    var a, b := log[0], log[1];
    assert [] + [a] == [a] && [a] + [b] == log;
    UnsentWithRoleSnoc([], a, Assistant);
    UnsentWithRoleSnoc([a], b, Assistant);
    UnsentWithRoleSnoc([], a, User);
    UnsentWithRoleSnoc([a], b, User);
  }

  /** Why ids must be unique: `markMessagesAsSent` matches by id, so when a user record
      shares its id with an undelivered assistant record, fetching the assistant records
      also marks the user record as sent although it was never returned. */
  lemma SharedIdLosesDelivery()
    ensures var log := SharedIdLog();
      var fetched := UnsentWithRole(log, Assistant);
      && fetched == [log[0]]
      && UnsentWithRole(log, User) == [log[1]]
      && UnsentWithRole(MarkSent(log, IdsOf(fetched)), User) == []
  {
    SharedIdFetches();
    var log := SharedIdLog();
    assert IdsOf([log[0]]) == {7};
    NothingUnsent(MarkSent(log, {7}), User);
  }

  /** What one non-`all` GET does to the log: it returns the undelivered records of the role
      in log order, still showing `sent = false` (marking replaces the stored records, not the
      returned ones), flips exactly those records to sent, leaves every record of the other
      role as it was, and leaves nothing of the role to fetch again. */
  ghost predicate Delivery(before: seq<Message>, after: seq<Message>, role: Role, r: seq<Message>)
  {
    && r == UnsentWithRole(before, role)
    && (forall m :: m in r ==> m in before && m.role == role && !m.sent)
    && after == MarkSent(before, IdsOf(r))
    && |after| == |before|
    && (forall k :: 0 <= k < |before| ==> after[k].sent == (before[k].sent || before[k].role == role))
    && (forall k :: 0 <= k < |before| ==> after[k] == before[k].(sent := after[k].sent))
    && (forall k :: 0 <= k < |before| && before[k].role != role ==> after[k] == before[k])
    && UnsentWithRole(after, role) == []
  }

  /** `getUnsentMessages(role)` followed by `markMessagesAsSent` of its result is a `Delivery`. */
  lemma FetchAndMark(log: seq<Message>, role: Role)
    requires UniqueIds(log)
    ensures var r := UnsentWithRole(log, role);
      Delivery(log, MarkSent(log, IdsOf(r)), role, r)
  {
    FetchThenMarkExact(log, role);
    FetchThenMarkDrains(log, role);
  }

  /** Ids of a trimmed log are the trimmed ids. */
  lemma IdsKeepLast(log: seq<Message>, n: nat)
    ensures Ids(KeepLast(log, n)) == KeepLast(Ids(log), n)
  {
    var a, b := Ids(KeepLast(log, n)), KeepLast(Ids(log), n);
    assert |a| == |b|;
    forall k | 0 <= k < |a| ensures a[k] == b[k] { }
  }

  /** Appending a record whose id exceeds every id of a log with unique ids keeps the ids
      unique, also after trimming. */
  lemma AppendFresh(log: seq<Message>, m: Message)
    requires UniqueIds(log)
    requires forall x :: x in log ==> x.id < m.id
    ensures Ids(log + [m]) == Ids(log) + [m.id]
    ensures m.id !in Ids(log)
    ensures UniqueIds(KeepLast(log + [m], MaxMessages))
    ensures forall x :: x in KeepLast(log + [m], MaxMessages) ==> x in log || x == m
  {
    var s := log + [m];
    assert UniqueIds(s) by {
      forall i, j | 0 <= i < j < |s|
        ensures s[i].id != s[j].id
      {
        if j == |log| {
          assert log[i] in log;
        }
      }
    }
  }

  /** What the store keeps true of its state: at most 100 records with unique ids, every id
      of the log, of the delivered set and of the append history below the counter, the
      history's ids increasing, every record whose id was delivered still marked as sent,
      and the log's ids exactly the last 100 ids appended since the last clear. */
  ghost predicate StoreInvariant(log: seq<Message>, nextId: MessageId, history: seq<MessageId>,
                                 markedIds: set<MessageId>)
  {
    && |log| <= MaxMessages
    && UniqueIds(log)
    && (forall m :: m in log ==> m.id < nextId)
    && (forall id :: id in markedIds ==> id < nextId)
    && (forall m :: m in log && m.id in markedIds ==> m.sent)
    && (forall i :: 0 <= i < |history| ==> history[i] < nextId)
    && (forall i, j :: 0 <= i < j < |history| ==> history[i] < history[j])
    && Ids(log) == KeepLast(history, MaxMessages)
  }

  /** Appending the counter to an increasing history below it, and then advancing the
      counter, keeps the history increasing and below the counter. */
  lemma HistoryAppend(history: seq<MessageId>, nextId: MessageId)
    requires forall i :: 0 <= i < |history| ==> history[i] < nextId
    requires forall i, j :: 0 <= i < j < |history| ==> history[i] < history[j]
    ensures forall i :: 0 <= i < |history + [nextId]| ==> (history + [nextId])[i] < nextId + 1
    ensures forall i, j :: 0 <= i < j < |history + [nextId]| ==> (history + [nextId])[i] < (history + [nextId])[j]
  {
    var h := history + [nextId];
    forall i, j | 0 <= i < j < |h|
      ensures h[i] < h[j]
    {
      if j == |history| {
        assert h[i] == history[i];
      }
    }
  }

  /** Appending a record with the counter's id and trimming keeps the invariant. */
  lemma AppendKeepsInvariant(log: seq<Message>, nextId: MessageId, history: seq<MessageId>,
                             markedIds: set<MessageId>, m: Message)
    requires StoreInvariant(log, nextId, history, markedIds)
    requires m.id == nextId
    ensures StoreInvariant(KeepLast(log + [m], MaxMessages), nextId + 1, history + [m.id], markedIds)
    ensures m.id !in Ids(log) && m.id !in markedIds
  {
    HistoryAppend(history, nextId);
    AppendFresh(log, m);
    IdsKeepLast(log + [m], MaxMessages);
    KeepLastAppend(history, m.id, MaxMessages);
  }

  /** Marking keeps the invariant when the newly marked ids of the log are recorded as delivered. */
  lemma MarkKeepsInvariant(log: seq<Message>, nextId: MessageId, history: seq<MessageId>,
                           markedIds: set<MessageId>, ids: set<MessageId>)
    requires StoreInvariant(log, nextId, history, markedIds)
    ensures StoreInvariant(MarkSent(log, ids), nextId, history,
                           markedIds + (set m | m in log && m.id in ids :: m.id))
  {
    var marked := MarkSent(log, ids);
    assert Ids(marked) == Ids(log);
    forall m | m in marked
      ensures m.id < nextId
      ensures m.id in markedIds + (set m | m in log && m.id in ids :: m.id) ==> m.sent
    {
      var k :| 0 <= k < |marked| && marked[k] == m;
      assert log[k] in log;
    }
  }

  /** At most once: nothing a fetch has marked can be fetched as undelivered again. */
  lemma FetchedNeverMarked(log: seq<Message>, nextId: MessageId, history: seq<MessageId>,
                           markedIds: set<MessageId>, role: Role)
    requires StoreInvariant(log, nextId, history, markedIds)
    ensures IdsOf(UnsentWithRole(log, role)) !! markedIds
  {
    var fetched := UnsentWithRole(log, role);
    forall id | id in IdsOf(fetched)
      ensures id !in markedIds
    {
      var m :| m in fetched && m.id == id;
    }
  }

  /** Every record of `role` whose id is below `bound` has been delivered. */
  ghost predicate DeliveredBelow(log: seq<Message>, role: Role, bound: MessageId)
  {
    forall m :: m in log && m.role == role && m.id < bound ==> m.sent
  }

  /** After a delivery for a role, every record of that role is delivered, whatever its id. */
  lemma DeliveryDeliversRole(before: seq<Message>, after: seq<Message>, role: Role,
                             r: seq<Message>, bound: MessageId)
    requires Delivery(before, after, role, r)
    ensures DeliveredBelow(after, role, bound)
  {
    forall m | m in after && m.role == role
      ensures m.sent
    {
      var k :| 0 <= k < |after| && after[k] == m;
      assert after[k].role == before[k].role;
    }
  }

  /** Appending a record whose id is at least `bound`, then trimming, delivers nothing
      new below `bound` and undoes no delivery. */
  lemma AppendKeepsDeliveredBelow(log: seq<Message>, m: Message, role: Role, bound: MessageId)
    requires DeliveredBelow(log, role, bound)
    requires m.id >= bound
    ensures DeliveredBelow(KeepLast(log + [m], MaxMessages), role, bound)
  {
    var s := log + [m];
    var t := KeepLast(s, MaxMessages);
    forall x | x in t && x.role == role && x.id < bound
      ensures x.sent
    {
      var k :| 0 <= k < |t| && t[k] == x;
      var j := |s| - |t| + k;
      assert s[j] == x;
      if j < |log| {
        assert log[j] == x;
      }
    }
  }

  /** Marking never takes a delivery back. */
  lemma MarkKeepsDeliveredBelow(log: seq<Message>, ids: set<MessageId>, role: Role, bound: MessageId)
    requires DeliveredBelow(log, role, bound)
    ensures DeliveredBelow(MarkSent(log, ids), role, bound)
  {
    var marked := MarkSent(log, ids);
    forall x | x in marked && x.role == role && x.id < bound
      ensures x.sent
    {
      var k :| 0 <= k < |marked| && marked[k] == x;
      assert log[k] in log;
    }
  }

  /** Once everything of a role below `bound` is delivered, a fetch of that role returns
      only records with ids from `bound` on. */
  lemma {:induction false} UnsentAreNew(log: seq<Message>, role: Role, bound: MessageId)
    requires DeliveredBelow(log, role, bound)
    ensures forall m :: m in UnsentWithRole(log, role) ==> m.id >= bound
  {
  }

  /** Marking a batch of records taken from the log records all of their ids as delivered. */
  lemma MarkRecordsBatch(log: seq<Message>, batch: seq<Message>)
    requires forall m :: m in batch ==> m in log
    ensures IdsOf(batch) <= (set m | m in log && m.id in IdsOf(batch) :: m.id)
  {
  }

  /** The process-wide store. `history` lists, oldest first, the ids appended since the
      last clear; `markedIds` holds every id a fetch has ever marked as delivered. */
  class Store {
    var messages: seq<Message>
    var nextId: MessageId
    ghost var history: seq<MessageId>
    ghost var markedIds: set<MessageId>

    ghost predicate Valid()
      reads this
    {
      StoreInvariant(messages, nextId, history, markedIds)
    }

    constructor ()
      ensures Valid()
      ensures messages == [] && history == [] && markedIds == {}
    {
      messages := [];
      nextId := 0;
      history := [];
      markedIds := {};
    }

    /** `addMessage`: append a fresh record, then keep only the last 100. */
    method AddMessage(text: string, role: Role, sent: bool, timestamp: string) returns (m: Message)
      requires Valid()
      modifies this
      ensures Valid()
      ensures m.text == text && m.role == role && m.sent == sent && m.timestamp == timestamp
      ensures m.id == old(nextId)
      ensures m.id !in Ids(old(messages)) && m.id !in old(markedIds)
      ensures messages == KeepLast(old(messages) + [m], MaxMessages)
      ensures |messages| > 0 && messages[|messages| - 1] == m
      ensures history == old(history) + [m.id]
      ensures markedIds == old(markedIds) && nextId == old(nextId) + 1
    {
      m := Message(nextId, text, timestamp, role, sent);
      var log := messages + [m];
      if |log| > MaxMessages {
        log := log[|log| - MaxMessages..];
      }
      AppendKeepsInvariant(messages, nextId, history, markedIds, m);
      messages, nextId := log, nextId + 1;
      history := history + [m.id];
    }

    /** `getAllMessages`: a copy of the whole log. */
    method GetAllMessages() returns (r: seq<Message>)
      ensures r == messages
    {
      r := messages;
    }

    /** `getMessagesByRole`. */
    method GetMessagesByRole(role: Role) returns (r: seq<Message>)
      ensures forall m :: m in r <==> m in messages && m.role == role
      ensures IsSubseq(r, messages)
      ensures r == WithRole(messages, role)
    {
      r := WithRole(messages, role);
    }

    /** `getUnsentMessages`: all records of the role when `includeAll`, else only the undelivered ones. */
    method GetUnsentMessages(role: Role, includeAll: bool) returns (r: seq<Message>)
      ensures includeAll ==> r == WithRole(messages, role)
      ensures !includeAll ==> r == UnsentWithRole(messages, role)
      ensures forall m :: m in r ==> m in messages && m.role == role && (includeAll || !m.sent)
    {
      if includeAll {
        r := WithRole(messages, role);
      } else {
        r := UnsentWithRole(messages, role);
      }
    }

    /** `markMessagesAsSent`: flip `sent` on every record whose id is in the batch. */
    method MarkMessagesAsSent(batch: seq<Message>)
      requires Valid()
      modifies this
      ensures Valid()
      ensures messages == MarkSent(old(messages), IdsOf(batch))
      ensures nextId == old(nextId) && history == old(history)
      ensures markedIds == old(markedIds) + (set m | m in old(messages) && m.id in IdsOf(batch) :: m.id)
    {
      MarkKeepsInvariant(messages, nextId, history, markedIds, IdsOf(batch));
      markedIds := markedIds + (set m | m in messages && m.id in IdsOf(batch) :: m.id);
      messages := MarkSent(messages, IdsOf(batch));
    }

    /** `clearMessages`: empty the log. Ids keep counting, so they stay fresh. */
    method ClearMessages()
      requires Valid()
      modifies this
      ensures Valid()
      ensures messages == [] && history == []
      ensures nextId == old(nextId) && markedIds == old(markedIds)
    {
      messages := [];
      history := [];
    }
  }
}
