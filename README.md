# talk-mcp message relay, modelled in Dafny

talk-mcp lets a language model talk with a person. The model calls the MCP tool
`speech_response`; the tool server POSTs the text to the web app and then polls the web app
every 2 seconds until the person's reply arrives or 3000 seconds pass. The web app keeps
every message in an in-memory log. Each record carries a `sent` flag, so that a fetch for a
role hands each message out at most once.

This project models that relay:

- `support.dfy` (`Support`): `Option`, the subsequence relation `IsSubseq`, and `KeepLast`,
  the effect of `slice(-100)`.
- `message_store.dfy` (`MessageStore`): the shared store of `lib/messageStore.ts`. A `Message`
  datatype, the pure filters behind `getMessagesByRole` / `getUnsentMessages`, and `MarkSent`
  behind `markMessagesAsSent`, with lemmas about them. The class `Store` holds the
  module-level `messages` array as a `seq<Message>` field, and its methods are the store's
  exported functions. Its invariant `StoreInvariant` says the following:
  - The log holds at most 100 records, and their ids are unique.
  - Every id in the log and every delivered id is below the counter `nextId`.
  - The ids appended since the last clear increase, and all of them are below `nextId`.
  - The log's ids are exactly the last 100 of those ids. The invariant tracks ids only, not
    texts, roles or timestamps.
  - Every record whose id was delivered is still marked as sent.
- `api.dfy` (`Api`): what the routes share: the `!text` check, the `all=true` flag, and the
  POST response with its status code.
- `mcp_speak_route.dfy`, `user_speak_route.dfy`, `user_messages_route.dfy`: the three route
  files built on the shared store. Each handler is a method that takes the `Store`.
- `speak_route.dfy` (`SpeakRoute`): the stand-alone `api/speak` route. It has its own
  role-less log with no cap, and its GET flips `sent` on the records it returns.
- `server.dfy` (`TalkServer`): the tool server. One interval tick is a transition
  `Tick` on `Waiting(start) | Resolved(reply) | TimedOut`. `Run` folds ticks, and
  `WaitForReply` is the interval as a loop that stops at the first decisive tick. The module
  also holds the `get_user_messages` handler and the `CallToolRequest` dispatch with its
  error wrapping.

Time, poll results, the outcome of the initial POST, timestamps and request bodies are
parameters. Message ids come from a counter in each log.

In these places the model follows the code as written:

- The legacy `api/speak` route does not use the shared store. It has no roles and no
  retention cap.
- A POST returns only the new record's id, not the whole record.
- The wait limit is the constant 3000000 ms, and the comparison is strict.
- Timestamps are opaque. Nothing orders them.

## Model

| member | source | states |
|---|---|---|
| Support.KeepLast | talk-mcp/web-app/src/lib/messageStore.ts:36-39 | the result has at most `n` records and is the suffix of the input of that length: the whole input when it has at most `n`, otherwise its last `n` |
| Support.KeepLastAppend | talk-mcp/web-app/src/lib/messageStore.ts:34-39 | trimming to the cap after every append gives the same log as appending everything and trimming once, so the log is always the most recent `n` appends in order |
| MessageStore.RoleFromName | talk-mcp/web-app/src/app/api/mcp/speak/route.ts:43 | a name denotes a role exactly when it is "assistant" or "user", and the role's name is then that name |
| MessageStore.WithRole | talk-mcp/web-app/src/lib/messageStore.ts:50-52 | a record is in the result if and only if it is in the log with that role; the result is a subsequence of the log, so log order is kept |
| MessageStore.UnsentWithRole | talk-mcp/web-app/src/lib/messageStore.ts:59 | a record is in the result if and only if it is in the log with that role and `sent == false`; the result is a subsequence of the log |
| MessageStore.MarkSent | talk-mcp/web-app/src/lib/messageStore.ts:63-72 | length kept; each record's `sent` becomes its old value or "its id is among the ids"; every other field of every record is unchanged |
| MessageStore.UnsentWithinRole | talk-mcp/web-app/src/lib/messageStore.ts:50-59 | the unsent records of a role are a subsequence of all records of that role |
| MessageStore.MarkSentIdempotent | talk-mcp/web-app/src/lib/messageStore.ts:63-72 | marking the same ids twice gives the same log as marking them once |
| MessageStore.NothingUnsent | talk-mcp/web-app/src/lib/messageStore.ts:59 | when every record of a role is sent, the unsent filter for that role is empty |
| MessageStore.FetchThenMarkDrains | talk-mcp/web-app/src/lib/messageStore.ts:59-72 | after marking the ids of `getUnsentMessages(role, false)`, a second `getUnsentMessages(role, false)` is empty |
| MessageStore.FetchThenMarkExact | talk-mcp/web-app/src/lib/messageStore.ts:59-72 | with unique ids, fetch-then-mark flips exactly the unsent records of the role, and records of the other role stay as they were |
| MessageStore.SharedIdLosesDelivery | talk-mcp/web-app/src/lib/messageStore.ts:63-71 | on a log where an assistant record and a user record share an id, fetching and marking the assistant records also drains the never-returned user record, which shows why unique ids are needed |
| MessageStore.FetchAndMark | talk-mcp/web-app/src/app/api/mcp/speak/route.ts:52-55 | fetch-then-mark is a `Delivery`. The result is the role's unsent records in log order, each still showing `sent = false`. Exactly those records become sent, all else is unchanged, and nothing of the role is left unsent |
| MessageStore.AppendKeepsInvariant | talk-mcp/web-app/src/lib/messageStore.ts:25-39 | appending a record with a fresh id and trimming keeps the store invariant: at most 100 records, unique ids, increasing ids in the append history, the log's ids the last 100 appended, delivered ids still sent |
| MessageStore.MarkKeepsInvariant | talk-mcp/web-app/src/lib/messageStore.ts:63-72 | marking keeps the store invariant, with the newly marked ids recorded as delivered |
| MessageStore.FetchedNeverMarked | talk-mcp/web-app/src/lib/messageStore.ts:59 | at most once: no record a fetch returns has an id that an earlier fetch already marked |
| MessageStore.DeliveryDeliversRole | talk-mcp/web-app/src/app/api/mcp/user-messages/route.ts:11-16 | after a fetch-and-mark for a role, every record of that role in the log is delivered |
| MessageStore.AppendKeepsDeliveredBelow | talk-mcp/web-app/src/lib/messageStore.ts:25-39 | appending a record whose id is at least the bound, and trimming to 100, leaves every record of the role below the bound delivered |
| MessageStore.MarkKeepsDeliveredBelow | talk-mcp/web-app/src/lib/messageStore.ts:63-72 | marking never takes a delivery back |
| MessageStore.UnsentAreNew | talk-mcp/web-app/src/lib/messageStore.ts:59 | when every record of a role below the bound is delivered, a fetch of that role returns only records whose ids are at least the bound |
| MessageStore.Store.constructor | talk-mcp/web-app/src/lib/messageStore.ts:12 | the store starts empty and valid |
| MessageStore.Store.AddMessage | talk-mcp/web-app/src/lib/messageStore.ts:20-42 | the returned record carries the given text, role, sent and timestamp, and the counter's current value as its id, which is fresh. It is the last record of the log, and the log becomes the last 100 of old log plus record, so it never exceeds 100 |
| MessageStore.Store.GetAllMessages | talk-mcp/web-app/src/lib/messageStore.ts:45-47 | returns the log's contents unchanged and changes nothing |
| MessageStore.Store.GetMessagesByRole | talk-mcp/web-app/src/lib/messageStore.ts:50-52 | returns exactly the records of the role, in log order, and changes nothing |
| MessageStore.Store.GetUnsentMessages | talk-mcp/web-app/src/lib/messageStore.ts:55-60 | with `includeAll`, all records of the role; otherwise only the unsent ones; every result is in the log and has the role; the store is not changed |
| MessageStore.Store.MarkMessagesAsSent | talk-mcp/web-app/src/lib/messageStore.ts:63-72 | the log becomes `MarkSent` of the old log by the batch's ids. The invariant is kept, and the batch's ids are recorded as delivered |
| MessageStore.Store.ClearMessages | talk-mcp/web-app/src/lib/messageStore.ts:75-77 | the log is empty afterwards; ids keep counting |
| Api.HasText | talk-mcp/web-app/src/app/api/mcp/speak/route.ts:10 | a request text passes the `!text` check exactly when it is present and not the empty string |
| Api.AllFlag | talk-mcp/web-app/src/app/api/mcp/speak/route.ts:42 | the full history is asked for only by the exact parameter value "true"; an absent parameter, or any other value, leaves the flag off |
| Api.Status | talk-mcp/web-app/src/app/api/mcp/speak/route.ts:10-28 | status 200 exactly for an accepted POST, 400 exactly for a refused one |
| McpSpeakRoute.RequestedRole | talk-mcp/web-app/src/app/api/mcp/speak/route.ts:43 | no `role` parameter, or an empty one, means `assistant`; "assistant" and "user" mean their roles; any role it yields was named or defaulted |
| McpSpeakRoute.Post | talk-mcp/web-app/src/app/api/mcp/speak/route.ts:5-28 | a missing or empty text gives "Text is required" with status 400 and leaves the store untouched. Otherwise one assistant record with `sent = false` is appended, and the response carries its fresh id |
| McpSpeakRoute.Get | talk-mcp/web-app/src/app/api/mcp/speak/route.ts:39-59 | with `all=true`, every record of the requested role and no change. Otherwise a `Delivery` for that role, with none of the returned ids delivered before. An unknown role name returns nothing and changes nothing |
| UserSpeakRoute.Post | talk-mcp/web-app/src/app/api/user/speak/route.ts:5-28 | a missing or empty text gives status 400 and no change; otherwise one user record with `sent = false` is appended and its id returned |
| UserSpeakRoute.Get | talk-mcp/web-app/src/app/api/user/speak/route.ts:39-54 | every returned record has role `user`. With `all=true`, all user records and no change. Otherwise a `Delivery` of the unsent user records, and assistant records stay untouched |
| UserMessagesRoute.Get | talk-mcp/web-app/src/app/api/mcp/user-messages/route.ts:5-20 | every returned record has role `user`. With `all=true`, all user records and no change. Otherwise the unsent user records in log order, after which no user record is unsent and none is handed out twice |
| UserMessagesRoute.FetchesFollowInsertionOrder | talk-mcp/web-app/src/app/api/mcp/user-messages/route.ts:5-20 | after a GET, any number of `addMessage` calls of either role and a second GET, every record of the second result has a larger id than every record of the first, so successive fetches follow insertion order |
| UserMessagesRoute.GetTwice | talk-mcp/web-app/src/app/api/mcp/user-messages/route.ts:11-16 | two GETs without `all` and with no POST between them: the first returns the unsent user records, the second returns nothing |
| SpeakRoute.Unsent | talk-mcp/web-app/src/app/api/speak/route.ts:66 | a record is in the result if and only if it is in the log and unsent; the result keeps log order |
| SpeakRoute.AllSent | talk-mcp/web-app/src/app/api/speak/route.ts:69-71 | same length; every record is sent afterwards and is the original record with only `sent` set to true |
| SpeakRoute.NothingUnsentAfterGet | talk-mcp/web-app/src/app/api/speak/route.ts:66-71 | once every record is flipped to sent, the unsent filter is empty, so a second GET returns nothing |
| SpeakRoute.DeliverAll | talk-mcp/web-app/src/app/api/speak/route.ts:66-71 | walking the log flips every record to sent. It collects exactly the unsent records, in log order, each showing `sent = true` |
| SpeakRoute.SpeakLog.constructor | talk-mcp/web-app/src/app/api/speak/route.ts:11 | the route's log starts empty |
| SpeakRoute.SpeakLog.Post | talk-mcp/web-app/src/app/api/speak/route.ts:18-45 | a missing or empty text gives "Text is required" with status 400 and no change. Otherwise exactly one unsent record with a fresh id is appended, nothing is evicted, the length grows by one, and that id is returned |
| SpeakRoute.SpeakLog.Get | talk-mcp/web-app/src/app/api/speak/route.ts:55-75 | with `all=true`, the whole log and no change. Otherwise the records that were unsent, in log order and showing `sent = true`. Afterwards every record is sent, so nothing is left for the next GET |
| TalkServer.Join | talk-mcp/mcp-server/src/server.ts:141 | no texts join to ""; the first text starts the result and the last ends it; two or more texts are separated by line breaks (`JoinSplitRoundTrip` shows that the separators are exactly the line breaks) |
| TalkServer.JoinSplitRoundTrip | talk-mcp/mcp-server/src/server.ts:141 | when no text contains a line break, splitting the `"\n"`-joined reply gives back exactly the polled texts, in order |
| TalkServer.Tick | talk-mcp/mcp-server/src/server.ts:123-149 | a finished wait is never changed by a tick; a waiting one stays the same exactly when the tick is not decisive (not past the limit, and no messages polled) |
| TalkServer.TimeoutBeforePoll | talk-mcp/mcp-server/src/server.ts:126-134 | strictly past the limit, a tick ends in `TimedOut` whatever the poll would have returned |
| TalkServer.DeadlineTickStillPolls | talk-mcp/mcp-server/src/server.ts:118-144 | a tick at exactly start + 3000000 ms still polls: it resolves with the joined texts, or keeps waiting on an empty poll |
| TalkServer.RunAfterTerminal | talk-mcp/mcp-server/src/server.ts:127-143 | once resolved or timed out, later ticks change nothing, so the result is delivered once |
| TalkServer.RunWhileUndecided | talk-mcp/mcp-server/src/server.ts:137-148 | empty or failed polls before the limit keep the call waiting with its original start time |
| TalkServer.FirstDecisiveTickDecides | talk-mcp/mcp-server/src/server.ts:123-144 | the first decisive tick fixes the outcome: `TimedOut` past the limit, otherwise `Resolved` with that poll's texts joined by line breaks |
| TalkServer.NoReplyOutcome | talk-mcp/mcp-server/src/server.ts:118-131 | with no reply at all, the wait has timed out exactly when some tick came strictly later than start + 3000000 ms; otherwise it is still waiting |
| TalkServer.RegularTicksTimeOut | talk-mcp/mcp-server/src/server.ts:118-149 | with ticks every 2000 ms from the start and no reply, the wait is still waiting after 1500 ticks (the last one exactly at the limit) and has timed out from the 1501st tick on |
| TalkServer.WaitForReply | talk-mcp/mcp-server/src/server.ts:116-149 | the loop's outcome equals the fold of all ticks and also the fold of the ticks it ran. It stops right after the first decisive tick, and runs every tick only while nothing was decisive |
| TalkServer.ReplyOf | talk-mcp/mcp-server/src/server.ts:129-143 | a resolved wait yields its reply and a timed-out one "No response from user within timeout period"; a waiting one yields none |
| TalkServer.SpeechResponseToolHandler | talk-mcp/mcp-server/src/server.ts:106-156 | a failed POST throws its error. Otherwise the handler returns the reply or the timeout sentinel once the wait is over, and stays pending while it is not |
| TalkServer.GetUserMessagesToolHandler | talk-mcp/mcp-server/src/server.ts:157-163 | throws exactly when the fetch failed; otherwise returns the fetched texts joined by line breaks ("" for none), which split back into the fetched texts when none contains a line break |
| TalkServer.ToolNamed | talk-mcp/mcp-server/src/server.ts:69-77 | "speech_response" and "get_user_messages" name the two tools, and no other name does |
| TalkServer.CallTool | talk-mcp/mcp-server/src/server.ts:63-101 | always one text item. It is an error exactly for an unknown name or a thrown handler, and its text then starts with "Failed to send text: ", plus "Unknown tool: <name>" for an unknown name. Otherwise the text is the handler's string |

## Left out

- HTTP and JSON plumbing is not modelled: `request.json()`, `NextResponse`, URL parsing and the 500 branch of each POST. A request body's `text` is an `Option<string>`, and the `all` and `role` query parameters are `Option<string>` values. A `text` that is truthy but not a string, such as a number, is outside the model.
- `generateId` draws ids from `Math.random`, and nothing checks them for uniqueness. The model uses a counter per log, so ids are fresh by construction. `SharedIdLosesDelivery` shows what a collision would do.
- Timestamps from `new Date().toISOString()` are opaque string parameters. Nothing orders them.
- Timers and I/O are not modelled: `setInterval`/`clearInterval`, the axios calls, `process.on('unhandledRejection')`, the MCP SDK `Server`, `StdioServerTransport`, `startServer` and the static tool list of the `ListToolsRequest` handler. Clock readings and poll outcomes are inputs to `Tick`. Clearing the interval is modelled by `WaitForReply` stopping at the first decisive tick.
- Overlapping ticks are not modelled. The interval callback is asynchronous, so a poll slower than 2 s could overlap the next tick. That later tick's fetch could mark user messages as sent after the promise has already resolved. The model runs ticks one after another.
- Concurrency between route handlers is not modelled. Each handler runs as one atomic step. In the source, no handler awaits between `getUnsentMessages` and `markMessagesAsSent`.
- `SpeakRoute.SpeakLog.Get`: the legacy GET filters the unsent records and then sets `sent = true` on those same objects, through aliasing. The model works on values instead. `DeliverAll` walks the log, flips each unsent record and collects the flipped copies, which are what the response serialises.
- `SpeakRoute.SpeakLog.Post` states the growth of the log per call: each accepted POST adds one record. It does not state it as a lemma over n calls.
- The UI (`MessageList.tsx`, `page.tsx`), the browser speech hooks, `textUtils.ts` (DOMPurify, marked and a chain of regular-expression replacements), the test scripts, the mock API server and the plantuml-mcp package are not part of this model.
