/** The stand-alone speak route (`api/speak`). It keeps its own role-less log with no
    retention cap, and its GET flips `sent` on the very records it returns. */
module SpeakRoute {
  import opened Support
  import opened Api

  const WaitNote := "stop and wait for response"

  /** A record of this route's own log. */
  datatype Note = Note(id: nat, text: string, timestamp: string, sent: bool)

  /** The undelivered records, in log order. */
  function Unsent(log: seq<Note>): (r: seq<Note>)
    ensures forall n :: n in r <==> n in log && !n.sent
    ensures IsSubseq(r, log)
  {
    if log == [] then []
    else
      var init, last := log[..|log| - 1], log[|log| - 1];
      assert log == init + [last];
      var rest := Unsent(init);
      if !last.sent then rest + [last]
      else
        assert rest != [] ==> rest[|rest| - 1] in rest;
        rest
  }

  /** The same records, each showing `sent = true`. */
  function AllSent(log: seq<Note>): (r: seq<Note>)
    ensures |r| == |log|
    ensures forall k :: 0 <= k < |r| ==> r[k].sent && r[k] == log[k].(sent := true)
  {
    seq(|log|, k requires 0 <= k < |log| => log[k].(sent := true))
  }

  /** Filtering a log extended by one record extends the filtered log by that record when it is unsent. */
  lemma UnsentSnoc(log: seq<Note>, n: Note)
    ensures Unsent(log + [n]) == Unsent(log) + (if n.sent then [] else [n])
  {
    assert (log + [n])[..|log|] == log;
  }

  lemma AllSentSnoc(log: seq<Note>, n: Note)
    ensures AllSent(log + [n]) == AllSent(log) + [n.(sent := true)]
  {
    assert AllSent(log + [n])[..|log|] == AllSent(log);
  }

  /** One step of the walk over the log: flipping record `i` when it is unsent turns the
      log after `i` records into the log after `i + 1`. */
  lemma FlipStep(log: seq<Note>, i: nat, after: seq<Note>)
    requires i < |log|
    requires after == AllSent(log[..i]) + log[i..]
    ensures i < |after| && after[i] == log[i]
    ensures (if log[i].sent then after else after[i := log[i].(sent := true)])
      == AllSent(log[..i + 1]) + log[i + 1..]
  {
    var next := if log[i].sent then after else after[i := log[i].(sent := true)];
    var want := AllSent(log[..i + 1]) + log[i + 1..];
    assert |next| == |want|;
    forall k | 0 <= k < |next|
      ensures next[k] == want[k]
    {
      if k < i {
        assert next[k] == AllSent(log[..i])[k];
      } else if k > i {
        assert next[k] == log[k];
      }
    }
  }

  /** One step of the collection: the records delivered from the first `i + 1` records are
      those from the first `i`, followed by record `i`, flipped, when it was unsent. */
  lemma CollectStep(log: seq<Note>, i: nat)
    requires i < |log|
    ensures AllSent(Unsent(log[..i + 1])) ==
      AllSent(Unsent(log[..i])) + (if log[i].sent then [] else [log[i].(sent := true)])
  {
    assert log[..i + 1] == log[..i] + [log[i]];
    UnsentSnoc(log[..i], log[i]);
    if !log[i].sent {
      AllSentSnoc(Unsent(log[..i]), log[i]);
    }
  }

  /** Once every record is sent, a GET has nothing left to return. */
  lemma {:induction false} NothingUnsentAfterGet(log: seq<Note>)
    ensures Unsent(AllSent(log)) == []
  {
    if log != [] {
      var init := log[..|log| - 1];
      NothingUnsentAfterGet(init);
      assert AllSent(log)[..|log| - 1] == AllSent(init);
    }
  }

  /** The `forEach` of a GET without `all`: walk the log, flip every undelivered record to
      sent, and collect the flipped records in log order. */
  method DeliverAll(log: seq<Note>) returns (after: seq<Note>, delivered: seq<Note>)
    ensures after == AllSent(log)
    ensures delivered == AllSent(Unsent(log))
  {
    after := log;
    delivered := [];
    var i := 0;
    while i < |log|
      invariant 0 <= i <= |log|
      invariant after == AllSent(log[..i]) + log[i..]
      invariant delivered == AllSent(Unsent(log[..i]))
    {
      FlipStep(log, i, after);
      CollectStep(log, i);
      if !after[i].sent {
        after := after[i := after[i].(sent := true)];
        delivered := delivered + [after[i]];
      }
      i := i + 1;
    }
    assert log[..i] == log;
  }

  /** This route's module-level state. */
  class SpeakLog {
    var messages: seq<Note>
    var nextId: nat

    ghost predicate Valid()
      reads this
    {
      forall k :: 0 <= k < |messages| ==> messages[k].id < nextId
    }

    constructor ()
      ensures Valid() && messages == []
    {
      messages := [];
      nextId := 0;
    }

    /** POST: refuse a missing or empty text; otherwise append one undelivered record.
        Nothing is ever evicted. */
    method Post(text: Option<string>, timestamp: string) returns (r: PostResponse)
      requires Valid()
      modifies this
      ensures Valid()
      ensures !HasText(text) ==> r == BadRequest(TextRequired) && Status(r) == 400 && unchanged(this)
      ensures HasText(text) ==> r.Accepted? && r.note == WaitNote && Status(r) == 200
      ensures r.Accepted? ==>
        && HasText(text)
        && (forall k :: 0 <= k < |old(messages)| ==> old(messages)[k].id != r.messageId)
        && messages == old(messages) + [Note(r.messageId, text.value, timestamp, false)]
        && |messages| == |old(messages)| + 1
    {
      if !HasText(text) {
        return BadRequest(TextRequired);
      }
      var note := Note(nextId, text.value, timestamp, false);
      nextId := nextId + 1;
      messages := messages + [note];
      r := Accepted(WaitNote, note.id);
    }

    /** GET: with `all=true` the whole log, unchanged. Otherwise every undelivered record is
        flipped to sent in place, and those same records are returned, already showing
        `sent = true`. */
    method Get(allParam: Option<string>) returns (r: seq<Note>)
      requires Valid()
      modifies this
      ensures Valid()
      ensures AllFlag(allParam) ==> r == old(messages) && unchanged(this)
      ensures !AllFlag(allParam) ==> r == AllSent(Unsent(old(messages)))
      ensures !AllFlag(allParam) ==> messages == AllSent(old(messages)) && nextId == old(nextId)
      ensures !AllFlag(allParam) ==> forall n :: n in messages ==> n.sent
      ensures !AllFlag(allParam) ==> Unsent(messages) == []
    {
      if AllFlag(allParam) {
        return messages;
      }
      var delivered;
      NothingUnsentAfterGet(messages);
      messages, delivered := DeliverAll(messages);
      r := delivered;
    }
  }
}
