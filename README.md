# Chat server message log

A model of the server side of a small GraphQL chat. The server keeps every
message in one module-level array, `messages`. It has two resolvers:

- the `messages` query returns that array;
- the `postMessage(user, content)` mutation takes the array's current length
  as the new id, pushes `{id, user, content}` and returns the id.

The project has two modules:

- `MessageLog` (message_log.dfy) holds the value-level view. `Message` is one
  log entry and `Post` the arguments of one call. `Append` is what one post
  does to the log. `Replay` is the log a freshly started server holds after a
  sequence of posts. The lemmas state what the log promises: ids equal
  positions, ids are contiguous and unique, earlier entries never change,
  nothing is lost or duplicated, and posting twice gives two entries.
- `Server` (server.dfy) holds the mutable store. `MessageStore` is a class
  whose `messages` field is reassigned in place by `PostMessage`. A ghost
  field `Posts` records the accepted calls, and the invariant `Valid()` says
  the log is exactly `Replay(Posts)`. `PostThreeMessages` is a client that
  uses only the contracts: three posts, including empty strings, get ids
  0, 1 and 2, and the query then returns the three entries in order.

The code validates nothing. The schema's `String!` only excludes null, which
a Dafny `string` cannot be, so empty `user` or `content` is stored as given
and no argument makes a post fail. The code has no subscription type, no
pub/sub and no fan-out, so none is modelled.

## Model

| member | source | states |
|---|---|---|
| MessageLog.Append | server/server.js:26-31 | one post grows the log by exactly one entry, leaves every earlier entry as it was, gives the new entry id = old length with the user and content passed in, and keeps ids equal to positions |
| MessageLog.Replay | server/server.js:3-3 | the log after any sequence of posts from the empty start has one entry per post, entry i holds post i's user and content, and entry i has id i |
| MessageLog.ReplaySnoc | server/server.js:25-34 | the defining step of `Replay`, stated as a lemma: one further post changes the log by exactly one `Append` of that post |
| MessageLog.ReplayPrefix | server/server.js:27-27 | push only appends: the log after the first k posts is the first k entries of the log after all posts |
| MessageLog.ReplayInjective | server/server.js:25-34 | two post histories give the same log if and only if they are the same history, so no write is lost, merged or duplicated |
| MessageLog.IdsContiguous | server/server.js:26-31 | under the invariant the ids are exactly 0..n-1, unique and strictly increasing in insertion order |
| MessageLog.PostTwiceGivesTwoEntries | server/server.js:25-34 | posting is not idempotent: the same arguments twice give two entries with ids n and n+1 |
| Server.MessageStore.constructor | server/server.js:3-3 | the store starts with an empty log and no accepted posts |
| Server.MessageStore.Messages | server/server.js:22-22 | the query returns the whole log in insertion order, without changing it, and ids equal positions |
| Server.MessageStore.PostMessage | server/server.js:25-34 | accepts any strings; returns the old length as id; the log grows by one; earlier entries are unchanged; the new entry is (id, user, content) exactly as given, empty strings included; the invariant is kept |
| Server.PostThreeMessages | server/server.js:17-17 | empty user or content is accepted: three posts get ids 0, 1, 2 and the query returns them in order |

## Left out

- `createServer(...)` and `server.start()` (server/server.js:38-45): HTTP and GraphQL transport set-up in a library whose code is not part of this model.
- The SDL string `typeDefs` (server/server.js:5-19): schema wiring only. Its one behavioural effect, non-null arguments, is carried by Dafny's non-optional `string`.
- Conversion of the numeric id to GraphQL's `ID` scalar: done by the library.
- Server.MessageStore.PostMessage: a JavaScript array holds at most 2^32-1 entries, and a push onto a full array throws RangeError when it sets `length`; the model's unbounded `seq` and `nat` never fail, so this error path is not modelled (memory runs out long before it in practice).
- Server.MessageStore.Messages returns the log as a value. In the code the query hands out the live array itself; that aliasing is not modelled.
- client/src/Chat.jsx: React rendering and Apollo client wiring. Its `onSend` checks the content length with an empty branch, so the client neither validates nor sends anything. It is not part of this model.
- Subscriptions, fan-out, coalescing and unsubscribe: the code has none of them.
- Concurrency: the resolvers run one at a time on Node's event loop, so each post is one atomic step.
