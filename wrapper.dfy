/**
 * `Redis::Stream::Wrapper` (lib/redis/stream/wrapper.rb): the reading flag and
 * read timeout, the `read` loop, `stop_read`, and adding a message.
 *
 * The Redis client is not modelled as an object. Its `xadd` reply is a function
 * argument of `AddMessage`, and its `xreadgroup` replies are the poll script of `Read`.
 */
module StreamWrapper {
  import opened Wrappers
  import opened Messages
  import opened ReadLoop

  /** The read timeout a wrapper gets when it is created without one (line 13). */
  const DefaultReadTimeoutMs: int := 1000

  /** The option key that `read` fills in (`:block`). */
  const BlockKey: string := "block"

  /**
   * The caller's options hash. A key missing from `entries` is absent from the
   * hash; a key mapped to None is present with value nil.
   */
  class Options {
    var entries: map<string, Option<int>>

    constructor (entries: map<string, Option<int>>)
      ensures this.entries == entries
    {
      this.entries := entries;
    }
  }

  /**
   * Whether `read` has to fill in `block` (line 50): the key is absent or holds
   * nil. A hash with an integer under `block` is the only one left alone.
   */
  predicate BlockUnset(opts: map<string, Option<int>>): (unset: bool)
    ensures BlockKey !in opts ==> unset
    ensures !unset <==> BlockKey in opts && opts[BlockKey].Some?
  {
    BlockKey !in opts || opts[BlockKey].None?
  }

  /**
   * The options after `read` has filled in the default timeout (line 50):
   * `block` is set, to the timeout only when it was unset; every
   * other key keeps its value.
   */
  function WithDefaultBlock(opts: map<string, Option<int>>, timeoutMs: int): (r: map<string, Option<int>>)
    ensures r.Keys == opts.Keys + {BlockKey}
    ensures r[BlockKey] == if BlockUnset(opts) then Some(timeoutMs) else opts[BlockKey]
    ensures forall k :: k in opts && k != BlockKey ==> r[k] == opts[k]
  {
    if BlockUnset(opts) then opts[BlockKey := Some(timeoutMs)] else opts
  }

  /**
   * Filling in the default is idempotent: once `block` holds a value, a later
   * `read` with the same hash keeps it, whatever that wrapper's timeout.
   */
  lemma WithDefaultBlockIdempotent(opts: map<string, Option<int>>, t1: int, t2: int)
    ensures !BlockUnset(WithDefaultBlock(opts, t1))
    ensures WithDefaultBlock(WithDefaultBlock(opts, t1), t2) == WithDefaultBlock(opts, t1)
  {
  }

  /** An explicit `block` is never overridden, and then the hash is left exactly as it was. */
  lemma WithDefaultBlockKeepsExplicit(opts: map<string, Option<int>>, t: int)
    requires BlockKey in opts && opts[BlockKey].Some?
    ensures WithDefaultBlock(opts, t) == opts
  {
  }

  /**
   * `copy_message` (lines 137-143): a new message with the given id and the
   * stream and payload of `message`.
   */
  function CopyMessage(message: Message, newId: string): (r: Message)
    ensures r.id == newId && r.stream == message.stream && r.payload == message.payload
  {
    message.(id := newId)
  }

  /**
   * Copying is the only way to "change" an id: the copy equals the original
   * exactly when the id did not change, and copying the original id back gives
   * the original again.
   */
  lemma CopyMessageRoundTrip(message: Message, newId: string)
    ensures CopyMessage(message, newId) == message <==> newId == message.id
    ensures CopyMessage(CopyMessage(message, newId), message.id) == message
  {
  }

  /**
   * What one poll of the store sends (line 52): the group, the consumer name,
   * the stream names and their cursors from the stream-to-cursor hash, and the
   * options hash.
   */
  datatype ReadGroupRequest = ReadGroupRequest(
    group: string, consumer: string, streamNames: seq<string>, streamIds: seq<string>,
    opts: map<string, Option<int>>)

  /**
   * The stream-to-cursor hash given to `read`, as its pairs in insertion order.
   * A hash holds each key once, so no stream name appears twice.
   */
  type StreamCursors = s: seq<(string, string)> | forall i, j :: 0 <= i < j < |s| ==> s[i].0 != s[j].0
    witness []

  /** `streams.keys`: the stream names, in insertion order and without repeats. */
  function StreamNames(streams: StreamCursors): (ks: seq<string>)
    ensures |ks| == |streams| && forall i :: 0 <= i < |streams| ==> ks[i] == streams[i].0
    ensures forall i, j :: 0 <= i < j < |ks| ==> ks[i] != ks[j]
  {
    seq(|streams|, i requires 0 <= i < |streams| => streams[i].0)
  }

  /** `streams.values`: the cursors, in the same order as the names. */
  function StreamIds(streams: StreamCursors): (vs: seq<string>)
    ensures |vs| == |streams| && forall i :: 0 <= i < |streams| ==> vs[i] == streams[i].1
  {
    seq(|streams|, i requires 0 <= i < |streams| => streams[i].1)
  }

  class Wrapper {
    /** `@reading`: whether a `read` loop is running. */
    var reading: bool
    /** `@read_timeout_ms`: the default `block` for `read`. */
    var readTimeoutMs: int

    /** `Wrapper.new(redis, read_timeout_ms)` (lines 13-17). */
    constructor (readTimeoutMs: int)
      ensures !reading && this.readTimeoutMs == readTimeoutMs
    {
      reading := false;
      this.readTimeoutMs := readTimeoutMs;
    }

    /** `Wrapper.new(redis)`: the timeout defaults to 1000 ms (line 13). */
    constructor Default()
      ensures !reading && readTimeoutMs == DefaultReadTimeoutMs
    {
      reading := false;
      readTimeoutMs := DefaultReadTimeoutMs;
    }

    /**
     * `add_message` (lines 34-36): the store is given the message's stream,
     * payload and id, and the result is a copy of the message carrying the id
     * the store returned. The wrapper is not changed, and `message`, a value,
     * cannot be.
     */
    method AddMessage(message: Message, xadd: (string, map<string, string>, string) -> string) returns (r: Message)
      ensures r.id == xadd(message.stream, message.payload, message.id)
      ensures r.stream == message.stream && r.payload == message.payload
    {
      var newId := xadd(message.stream, message.payload, message.id);
      r := CopyMessage(message, newId);
    }

    /** `stop_read` (lines 116-118): clears the flag; nothing else changes. */
    method StopRead()
      modifies this
      ensures !reading && readTimeoutMs == old(readTimeoutMs)
    {
      reading := false;
    }

    /**
     * Handing one parsed batch to the callback (lines 55-57): every message of the batch is handed to the callback in order, after
     * `delivered`; a `stop_read` from the callback clears the flag but does not
     * end the batch.
     */
    method DispatchBatch(batch: seq<Message>, stops: (nat, Message) -> bool, delivered: seq<Message>)
      returns (after: seq<Message>)
      requires reading
      modifies this
      ensures after == delivered + batch
      ensures reading == !StopRequested(stops, after, |delivered|)
      ensures readTimeoutMs == old(readTimeoutMs)
    {
      after := delivered;
      var j := 0;
      while j < |batch|
        invariant 0 <= j <= |batch|
        invariant after == delivered + batch[..j]
        invariant reading <==> !StopRequested(stops, after, |delivered|)
        invariant readTimeoutMs == old(readTimeoutMs)
      {
        var message := batch[j];
        // hand the next message to the callback, which may ask for a stop
        StopRequestedSplit(stops, after, [message], |delivered|);
        assert (after + [message])[|after|] == message;
        after := after + [message];
        if stops(|after| - 1, message) {
          StopRead();
        }
        j := j + 1;
      }
      assert batch[..j] == batch;
    }

    /**
     * The `while @reading` loop of `read` with a block (lines 51-58), entered
     * with the flag set: each poll issues `request`; a nil reply polls again, a
     * reply's parsed messages go to the callback in order, and a raising poll
     * ends the loop. The run is `LoopSpec`'s, and the flag is left clear
     * exactly when the callback stopped the loop.
     */
    method Listen(request: ReadGroupRequest, script: seq<Poll>, stops: (nat, Message) -> bool)
      returns (r: Run, issued: seq<ReadGroupRequest>)
      requires reading
      modifies this
      ensures r == LoopSpec(FetchAll(script), stops, [], 0)
      ensures reading == ReadingAfter(r) && readTimeoutMs == old(readTimeoutMs)
      ensures |issued| == r.polls && forall i :: 0 <= i < |issued| ==> issued[i] == request
    {
      ghost var fetches := FetchAll(script);
      ghost var spec := LoopSpec(fetches, stops, [], 0);
      var delivered: seq<Message> := [];
      var i := 0;
      issued := [];
      while reading
        invariant 0 <= i <= |script| && |issued| == i
        invariant forall k :: 0 <= k < i ==> issued[k] == request
        invariant reading ==> LoopSpec(fetches[i..], stops, delivered, i) == spec
        invariant !reading ==> Run(Stopped, delivered, i) == spec
        invariant readTimeoutMs == old(readTimeoutMs)
        decreases |script| - i, reading
      {
        if i == |script| {
          r := Run(ScriptExhausted, delivered, i);
          return;
        }
        assert fetches[i..][0] == Fetched(script[i]) && fetches[i..][1..] == fetches[i + 1..];
        var fetch := Fetched(script[i]);
        issued := issued + [request];
        i := i + 1;
        match fetch
        case Failure =>
          r := Run(Raised, delivered, i);
          return;
        case NothingNew =>
          // a nil reply: poll again
        case Batch(messages) =>
          delivered := DispatchBatch(messages, stops, delivered);
      }
      r := Run(Stopped, delivered, i);
    }

    /**
     * The same loop when `read` was called without a block: nil replies and
     * replies without messages poll again, and the first message to yield
     * raises, since there is no block to take it. The flag is never touched,
     * so it stays set whatever happens. The run is `BlocklessLoopSpec`'s.
     */
    method ListenWithoutBlock(request: ReadGroupRequest, script: seq<Poll>)
      returns (r: Run, issued: seq<ReadGroupRequest>)
      requires reading
      ensures r == BlocklessLoopSpec(FetchAll(script), 0)
      ensures |issued| == r.polls && forall i :: 0 <= i < |issued| ==> issued[i] == request
    {
      ghost var fetches := FetchAll(script);
      ghost var spec := BlocklessLoopSpec(fetches, 0);
      var i := 0;
      issued := [];
      while true
        invariant 0 <= i <= |script| && |issued| == i
        invariant forall k :: 0 <= k < i ==> issued[k] == request
        invariant BlocklessLoopSpec(fetches[i..], i) == spec
        decreases |script| - i
      {
        if i == |script| {
          r := Run(ScriptExhausted, [], i);
          return;
        }
        assert fetches[i..][0] == Fetched(script[i]) && fetches[i..][1..] == fetches[i + 1..];
        var fetch := Fetched(script[i]);
        issued := issued + [request];
        i := i + 1;
        if !Quiet(fetch) {
          // a raising poll, or a message yielded with no block to take it
          r := Run(Raised, [], i);
          return;
        }
      }
    }

    /**
     * `read` (lines 46-59). A wrapper that is already reading rejects the call
     * and changes nothing. Otherwise the flag is set, `block` is filled in when
     * unset, and the loop polls the script, every poll with the same request:
     * with a callback (`block` is Some) as `Listen` does, without one as
     * `ListenWithoutBlock` does. The run is the one `ReadSpec` describes, and
     * afterwards the flag is clear only when the callback stopped the loop:
     * an exception leaves it set.
     */
    method Read(group: string, consumerName: string, streams: StreamCursors, opts: Options,
                script: seq<Poll>, block: Option<(nat, Message) -> bool>)
      returns (r: Run, issued: seq<ReadGroupRequest>)
      modifies this, opts
      ensures r == ReadSpec(old(reading), script, block)
      ensures reading == ReadingAfter(r) && readTimeoutMs == old(readTimeoutMs)
      ensures opts.entries == if old(reading) then old(opts.entries) else WithDefaultBlock(old(opts.entries), readTimeoutMs)
      ensures |issued| == r.polls
      ensures forall i :: 0 <= i < |issued| ==>
        issued[i] == ReadGroupRequest(group, consumerName, StreamNames(streams), StreamIds(streams), opts.entries)
    {
      if reading {
        // rejected with a read error before anything changes
        r, issued := Run(AlreadyReading, [], 0), [];
        return;
      }
      reading := true;
      if BlockUnset(opts.entries) {
        opts.entries := opts.entries[BlockKey := Some(readTimeoutMs)];
      }
      var request := ReadGroupRequest(group, consumerName, StreamNames(streams), StreamIds(streams), opts.entries);
      match block
      case Some(stops) =>
        r, issued := Listen(request, script, stops);
      case None =>
        r, issued := ListenWithoutBlock(request, script);
    }
  }
}
