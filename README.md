# redis-stream-wrapper, modelled in Dafny

This project models the core of `Redis::Stream::Wrapper`, a Ruby client-side
wrapper over Redis streams read through consumer groups, together with its
message value type.

- **Message** (`Messages`): an immutable record with a stream name, an id
  (default `"*"` when none is given) and a string-to-string payload.
- **Parsing a group-read reply** (`ReadResponse`): `parse_read_response` turns
  a reply of the shape list of (stream name, list of (id, flat field list))
  into a flat, ordered list of messages. Each flat list `k1, v1, k2, v2, …` is
  paired into a payload map, and a later duplicate key overrides an earlier one.
- **The reading loop** (`ReadLoop`, `StreamWrapper.Wrapper.Read`): `read`
  rejects a call while the `reading` flag is set. Otherwise it sets the flag,
  fills in `opts[:block]` only when it is unset, and polls while the flag is
  set. A nil poll result dispatches nothing. A batch is always handed to the
  callback whole and in order. A `stop_read` from the callback is only seen at
  the next test of the flag.
- **Adding a message** (`StreamWrapper.Wrapper.AddMessage`, `CopyMessage`): the
  result is a copy of the message with the id the store assigned.

The Redis client is not an object of the model:

- The reply of `xadd` is a function argument of `AddMessage`, applied to the
  stream, payload and id that the code passes it.
- The replies of `xreadgroup` are a finite script of polls: nil, a reply, or a
  raised error. `Read` also returns the request it issued for each poll.
- The block given to `read` is an oracle `stops(k, m)`. It calls `stop_read`
  after the k-th message `m` of the run exactly when the oracle says so. A
  `read` called without a block gets `None` instead: its first message has
  nowhere to go, and the `yield` raises.
- When the script runs out while the flag is still set, the run ends as
  `ScriptExhausted`. This stands for a loop that goes on polling past the
  modelled horizon.

`ReadLoop.LoopSpec`, `ReadLoop.BlocklessLoopSpec` and `ReadLoop.ReadSpec`
state the loop as a function of the script. Each poll result is first parsed,
then the loop dispatches the parsed batches. `Wrapper.Read` is proved to
produce exactly that run. The lemmas of `ReadLoop` state what every such run
looks like.

Where the code behaves otherwise than its tests or a reader would expect, the
model follows the code:

- An error raised by a poll leaves `reading` set, because `read` has no
  `ensure` clause. A guard flag like this one would be expected to be reset on
  every exit. In the model a `Raised` run leaves the flag set, so the next
  `read` is rejected (`WrapperScenarios.ReadAfterRaisedPoll`).
- The read test (spec/redis/stream/wrapper_spec.rb:66-68) calls `read`
  without a block and expects an array back. In the code the flag is set, nil
  replies are polled past, and the first parsed message makes `yield` raise.
  Nothing is returned and the flag stays set
  (`ReadLoop.BlocklessReadRaises`, `WrapperScenarios.ReadWithoutBlock`).
- The test file calls `listen`, `stop_listening` and an array-returning
  single-shot `read` (spec/redis/stream/wrapper_spec.rb:53-55, 66-68).
  lib/redis/stream/wrapper.rb defines none of them. Its `read` is the looping
  one, and its stop is `stop_read`.
- `compact` suggests that entries without a payload were meant to be dropped.
  The code would fail on them before `compact` could act (see Left out).

## Model

| member | source | states |
|---|---|---|
| `Messages.Build` | lib/redis/stream/wrapper/message.rb:6-10 | the built message has the given stream and payload; its id is the given one, or `"*"` when none is given |
| `Messages.BuildIsValue` | lib/redis/stream/wrapper/message.rb:6 | two messages are equal exactly when their stream, payload and resolved id are equal (value semantics) |
| `ReadResponse.Slices` | lib/redis/stream/wrapper.rb:127 | `each_slice(2)` of an even-length list yields half as many pairs, pair i being (fields[2i], fields[2i+1]) |
| `ReadResponse.HashFromPairs` | lib/redis/stream/wrapper.rb:127 | `Hash[pairs]` has at most one entry per pair, holds every pair's key, and maps the last pair's key to the last pair's value |
| `ReadResponse.HashFromPairsKeys` | lib/redis/stream/wrapper.rb:127 | `Hash[pairs]` has exactly the keys of the pairs |
| `ReadResponse.HashFromPairsLastWins` | lib/redis/stream/wrapper.rb:127 | in `Hash[pairs]` each key maps to the value of its last occurrence (later pairs override) |
| `ReadResponse.PairFields` | lib/redis/stream/wrapper.rb:127 | the payload of a flat field list has at most one entry per key/value pair, and every string at an even position is one of its keys |
| `ReadResponse.PairFieldsLastWins` | lib/redis/stream/wrapper.rb:127 | pairing a flat field list: k is a key iff it stands at an even position, and maps to the value after its last occurrence there |
| `ReadResponse.PairFieldsExample` | spec/redis/stream/wrapper_spec.rb:5 | `["foo","bar","woo","xoo"]` pairs into `{"foo"=>"bar","woo"=>"xoo"}` |
| `ReadResponse.PairFieldsDuplicateExample` | lib/redis/stream/wrapper.rb:127 | a repeated key keeps its last value: `["a","1","a","2"]` pairs into `{"a"=>"2"}` |
| `ReadResponse.ToMessage` | lib/redis/stream/wrapper.rb:125-129 | the message built for an entry belongs to its stream, carries the entry's own id (not the placeholder) and has the paired field list as payload |
| `ReadResponse.ParseEntries` | lib/redis/stream/wrapper.rb:124-130 | one message per entry, message e built from entry e, so the batch keeps entry order |
| `ReadResponse.StreamBatches` | lib/redis/stream/wrapper.rb:123-131 | one batch per stream of the reply, in reply order, batch s being the parsed entries of stream s |
| `ReadResponse.StreamBatchesLength` | lib/redis/stream/wrapper.rb:123-131 | the batches hold as many messages in total as the reply has entries |
| `Seqs.Flatten` | lib/redis/stream/wrapper.rb:131 | `flatten` of a list of batches has the batches' total length |
| `Seqs.FlattenAt` | lib/redis/stream/wrapper.rb:131 | element e of batch s lands at position (total length of the batches before s) + e: batches keep their order, and so do their elements |
| `Seqs.FlattenAppend` | lib/redis/stream/wrapper.rb:131 | flattening a concatenation of batch lists is the concatenation of their flattenings |
| `Seqs.FlattenEmpty` | lib/redis/stream/wrapper.rb:131 | flattening only empty batches gives no elements |
| `ReadResponse.ParseReadResponse` | lib/redis/stream/wrapper.rb:122-132 | the output has one message per entry over all streams (`compact` removes nothing) |
| `ReadResponse.ParseReadResponseAt` | lib/redis/stream/wrapper.rb:122-132 | entry e of stream s is output position (entries of streams before s) + e, as Message(stream name, raw id, paired fields): stream order, then entry order |
| `ReadResponse.ParseReadResponseAppend` | lib/redis/stream/wrapper.rb:123-131 | parsing a concatenation of replies is the concatenation of their parses: streams are neither reordered nor merged |
| `ReadResponse.ParseReadResponseEmpty` | lib/redis/stream/wrapper.rb:122-132 | a reply whose streams carry no entries parses to no messages |
| `ReadLoop.Fetched` | lib/redis/stream/wrapper.rb:52-55 | a nil poll result gives nothing new, a raising poll an error, and a reply the batch `parse_read_response` makes of it |
| `ReadLoop.FetchAll` | lib/redis/stream/wrapper.rb:51-55 | the script's poll results as the loop sees them, one per poll, in order |
| `ReadLoop.LoopSpec` | lib/redis/stream/wrapper.rb:51-58 | the loop with a block never reports a rejection, never ends with fewer messages than it started with, and polls at least as often as before and at most once per scripted result (that the yielded messages extend the earlier ones is `LoopSpecDelivered`) |
| `ReadLoop.BlocklessLoopSpec` | lib/redis/stream/wrapper.rb:51-58 | the loop without a block delivers nothing and ends only by raising or by running out of script, never as stopped |
| `ReadLoop.ReadSpec` | lib/redis/stream/wrapper.rb:46-59 | a `read` is rejected exactly when the flag is already set, and then polls and yields nothing; without a block it yields nothing either |
| `ReadLoop.ReadingAfter` | lib/redis/stream/wrapper.rb:46-59 | defines the flag after a `read`: clear after a stop by the callback, set after a rejection, an exception, or a loop still polling |
| `ReadLoop.LoopSpecStep` | lib/redis/stream/wrapper.rb:51-58 | one iteration: the poll raises and `read` ends, or its batch is yielded and the loop ends if the batch asked to stop, otherwise polls again |
| `ReadLoop.LoopSpecShape` | lib/redis/stream/wrapper.rb:51-58 | the loop issues at most one poll per scripted result and ends only by exhausting the script, right after the first raising poll (no earlier poll raised), or right after a poll that returned a batch (that the batch asked to stop is `LoopSpecStopsWhenAsked`) |
| `ReadLoop.LoopSpecDelivered` | lib/redis/stream/wrapper.rb:51-58 | the messages yielded are exactly the whole parsed batches of the issued polls, in poll order: a stop never cuts a batch short |
| `ReadLoop.LoopSpecStopsWhenAsked` | lib/redis/stream/wrapper.rb:51-58 | the loop ends as stopped exactly when some yielded message made the callback call `stop_read` |
| `ReadLoop.LoopSpecPollsOnlyWhileReading` | lib/redis/stream/wrapper.rb:51-53 | before every poll after the first, no message yielded so far had requested a stop: the stop is observed at the next flag test |
| `ReadLoop.NoDataPollsAgain` | lib/redis/stream/wrapper.rb:52-53 | a nil poll result yields nothing and the loop polls again |
| `ReadLoop.ReadDelivers` | lib/redis/stream/wrapper.rb:46-59 | a `read` on an idle wrapper yields the parsed replies of the polls it issued, concatenated in poll order, and stops iff one of those messages asked for it |
| `ReadLoop.ReadWhileReadingRejected` | lib/redis/stream/wrapper.rb:47 | `read` while reading is rejected without polling or yielding, and the flag stays set |
| `ReadLoop.ReadAfterRead` | lib/redis/stream/wrapper.rb:46-59 | after a `read`, the next `read` is accepted exactly when the first was stopped by the callback |
| `ReadLoop.BlocklessLoopShape` | lib/redis/stream/wrapper.rb:51-58 | without a block the loop passes over nil replies and replies without messages only; it runs out of script exactly when every poll was such, having yielded nothing, and otherwise raises at the first poll that raises or carries a message |
| `ReadLoop.BlocklessReadRaises` | lib/redis/stream/wrapper.rb:46-59 | a `read` without a block delivers nothing, never stops, leaves the flag set, passes over only nil or message-less polls, and raises at the first poll that raises or returns a message, so it raises whenever some poll returns one |
| `StreamWrapper.Options.constructor` | lib/redis/stream/wrapper.rb:46 | the options hash passed to `read` (empty by default) holds exactly the given entries |
| `StreamWrapper.BlockUnset` | lib/redis/stream/wrapper.rb:50 | defines when `block` needs filling in: when it is absent or nil; a hash with an integer under `block` is the only one left alone |
| `StreamWrapper.WithDefaultBlock` | lib/redis/stream/wrapper.rb:50 | `block` is set afterwards: to the timeout only when it was absent or nil, otherwise unchanged; every other option key keeps its value |
| `StreamWrapper.WithDefaultBlockIdempotent` | lib/redis/stream/wrapper.rb:50 | once filled in, `block` is kept by any later `read` with the same hash |
| `StreamWrapper.WithDefaultBlockKeepsExplicit` | lib/redis/stream/wrapper.rb:50 | an explicit `block` leaves the options hash exactly as it was |
| `StreamWrapper.CopyMessage` | lib/redis/stream/wrapper.rb:137-143 | the copy has the new id and the original's stream and payload |
| `StreamWrapper.CopyMessageRoundTrip` | lib/redis/stream/wrapper.rb:137-143 | the copy equals the original iff the id is unchanged; copying the old id back restores the original |
| `StreamWrapper.StreamNames` | lib/redis/stream/wrapper.rb:52 | `streams.keys`: the stream names of the cursor hash, in order and without repeats |
| `StreamWrapper.StreamIds` | lib/redis/stream/wrapper.rb:52 | `streams.values`: the cursors of the cursor hash, in order |
| `StreamWrapper.Wrapper.constructor` | lib/redis/stream/wrapper.rb:13-17 | a new wrapper is not reading and keeps the given timeout |
| `StreamWrapper.Wrapper.Default` | lib/redis/stream/wrapper.rb:13-17 | a wrapper made without a timeout is not reading and has a timeout of 1000 ms |
| `StreamWrapper.Wrapper.AddMessage` | lib/redis/stream/wrapper.rb:34-36 | the result has exactly the id the store returned for the message's stream, payload and id, and the input's stream and payload |
| `StreamWrapper.Wrapper.StopRead` | lib/redis/stream/wrapper.rb:116-118 | the flag is cleared and the timeout is unchanged |
| `StreamWrapper.Wrapper.DispatchBatch` | lib/redis/stream/wrapper.rb:55-57 | the whole batch is yielded in order; the flag is cleared exactly when the callback asked to stop during the batch |
| `StreamWrapper.Wrapper.Listen` | lib/redis/stream/wrapper.rb:51-58 | the loop with a block produces `LoopSpec`'s run and leaves the flag clear exactly when the callback stopped it; every poll issues the given request |
| `StreamWrapper.Wrapper.ListenWithoutBlock` | lib/redis/stream/wrapper.rb:51-58 | the loop without a block produces `BlocklessLoopSpec`'s run; every poll issues the given request |
| `StreamWrapper.Wrapper.Read` | lib/redis/stream/wrapper.rb:46-59 | the run is the one `ReadSpec` gives for the old flag, the script and the block or its absence; afterwards the flag is set unless the callback stopped the loop; `opts` is untouched on rejection and otherwise gets the default `block`; every issued poll sends the group, consumer, stream names, cursors and updated options |
| `WrapperScenarios.AddThenListen` | spec/redis/stream/wrapper_spec.rb:49-61 | a message added and then read by a callback that stops after it is delivered exactly once, with its payload and store id, after a nil poll; the next `read` is accepted |
| `WrapperScenarios.ReadAfterRaisedPoll` | lib/redis/stream/wrapper.rb:46-59 | a raising poll leaves the flag set, so the next `read` is rejected; the options keep the `block` the first call filled in |
| `WrapperScenarios.ReadWithoutBlock` | spec/redis/stream/wrapper_spec.rb:63-68 | the test adds a message and calls `read` without a block: the first poll returns the message, the call raises after that poll with nothing delivered, and the next `read` is rejected |

## Left out

- The Redis calls `xadd`, `xreadgroup`, `xack`, `xdel`, `xgroup` and `del` are foreign client calls. `xadd` is a function argument and `xreadgroup` a scripted sequence of results. Blocking and timeouts are the transport's concern: only the `block` option value is carried.
- `clear_stream!`, `ack_message`, `delete_message`, `create_group`, `delete_group` and `delete_group_consumer` (lib/redis/stream/wrapper.rb:24-111) each forward one call to the client and hold no logic of their own. The BUSYGROUP and missing-key errors in the tests come from the Redis server.
- Entries with a nil field list (deleted or trimmed entries): the code calls `each_slice` on nil and fails at line 127, before `compact` could drop anything. They are outside the model.
- Odd-length field lists: their pairing depends on Ruby's `Hash[]` behaviour. The model requires an even length through the type `ReadResponse.Fields` of an entry's field list.
- The string coercion of non-string stream names and payload values is library behaviour. Streams and payloads are taken as strings.
- A message built with an explicit `id: nil` keeps a nil id. The model's ids are strings, and an omitted id becomes `"*"`.
- `StreamReadError` is not defined in any file of the wrapper. The model reports it as the `AlreadyReading` outcome.
- The `LocalJumpError` that `yield` raises in a `read` called without a block is reported as the `Raised` outcome, the same as an error raised by a poll.
- An exception raised by the callback itself, including a nested `read` from inside it, is not modelled. Like a raising poll, it would leave the flag set.
- A `break`, `return` or `throw` out of the block is not modelled. Such a non-local exit leaves `read` at once, during the batch, and like an exception it leaves the flag set, so the next `read` is rejected.
- `stop_read` called from outside the callback, by another thread while `read` blocks in a poll, is not modelled: the model's only source of stops is the callback oracle. Such a stop is seen at the next flag test only. A poll that then returns data still yields its whole batch, because no flag test lies between the poll and the dispatch. A poll that returns nil ends the loop as stopped with nothing yielded, which `LoopSpec` cannot produce, since it only stops after a batch.
- Option values other than integers or nil (for example `noack: true`) are not modelled.
- lib/redis/stream/message.rb is a stale duplicate of the message type that clashes with lib/redis/stream/wrapper.rb and is not used. lib/redis/stream/wrapper/types.rb is a dry-types version shim. Neither is part of this model.
