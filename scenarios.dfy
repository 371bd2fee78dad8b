/**
 * The add-then-listen scenario of spec/redis/stream/wrapper_spec.rb, put
 * together from the model's operations: a message is added, read back by a
 * callback that stops the loop after the first message, and the wrapper then
 * accepts another `read`.
 */
module WrapperScenarios {
  import opened Wrappers
  import opened Messages
  import opened ReadResponse
  import opened ReadLoop
  import opened StreamWrapper

  method AddThenListen(xadd: (string, map<string, string>, string) -> string)
    returns (added: Message, first: Run, second: Run)
    ensures added.id == xadd("stream-test", map["foo" := "bar", "woo" := "xoo"], Unassigned)
    ensures added.stream == "stream-test" && added.payload == map["foo" := "bar", "woo" := "xoo"]
    ensures first.outcome == Stopped && first.polls == 2
    ensures first.delivered == [added]
    ensures second.outcome == ScriptExhausted
  {
    var payload := map["foo" := "bar", "woo" := "xoo"];
    var w := new Wrapper.Default();
    var draft := Build("stream-test", payload, None);
    added := w.AddMessage(draft, xadd);

    // the store first times out, then returns the added entry with its fields flattened
    var fields := ["foo", "bar", "woo", "xoo"];
    PairFieldsExample();
    var reply := [StreamEntries("stream-test", [Entry(added.id, fields)])];
    var script := [NoData, Data(reply)];
    ParseReadResponseAt(reply, 0, 0);
    assert reply[..0] == [];
    assert ParseReadResponse(reply) == [added];

    // the callback calls `stop_read` after every message it receives
    var stopAlways := (k: nat, m: Message) => true;
    assert stopAlways(0, ([] + [added])[0]);
    assert StopRequested(stopAlways, [] + [added], 0);
    var fetches := FetchAll(script);
    assert fetches == [NothingNew, Batch([added])];
    assert fetches[1..] == [Batch([added])] && fetches[1..][1..] == [];
    assert LoopSpec(fetches[1..], stopAlways, [], 1) == Run(Stopped, [added], 2);
    assert LoopSpec(fetches, stopAlways, [], 0) == Run(Stopped, [added], 2);

    var opts := new Options(map[]);
    var issued;
    first, issued := w.Read("test-group", "test-consumer", [("stream-test", ">")], opts, script, Some(stopAlways));
    second, issued := w.Read("test-group", "test-consumer", [("stream-test", ">")], opts, [], Some(stopAlways));
  }

  /**
   * A poll that raises ends `read` with the flag still set (there is no
   * `ensure` clearing it), so the next `read` on the same wrapper is rejected
   * without polling, and its options are left alone.
   */
  method ReadAfterRaisedPoll(timeoutMs: int) returns (first: Run, second: Run, blockAfter: Option<int>)
    ensures first == Run(Raised, [], 1)
    ensures second == Run(AlreadyReading, [], 0)
    ensures blockAfter == Some(timeoutMs)
  {
    var w := new Wrapper(timeoutMs);
    var opts := new Options(map["count" := Some(10)]);
    var never := (k: nat, m: Message) => false;
    var issued;
    first, issued := w.Read("test-group", "test-consumer", [("stream-test", ">")], opts, [Raises], Some(never));
    second, issued := w.Read("test-group", "test-consumer", [("stream-test", ">")], opts, [NoData], Some(never));
    blockAfter := opts.entries[BlockKey];
  }

  /**
   * The read test of spec/redis/stream/wrapper_spec.rb: a message is added,
   * then `read` is called without a block from the `">"` cursor, so the first
   * poll already returns the message. It has no block to go to, so the call
   * raises after that first poll with nothing delivered, and the flag stays
   * set: the next `read` is rejected.
   */
  method ReadWithoutBlock(xadd: (string, map<string, string>, string) -> string)
    returns (added: Message, first: Run, second: Run)
    ensures added.id == xadd("stream-test", map["foo" := "bar", "woo" := "xoo"], Unassigned)
    ensures first == Run(Raised, [], 1)
    ensures second == Run(AlreadyReading, [], 0)
  {
    var payload := map["foo" := "bar", "woo" := "xoo"];
    var w := new Wrapper.Default();
    added := w.AddMessage(Build("stream-test", payload, None), xadd);

    // the first poll returns the added entry
    var reply := [StreamEntries("stream-test", [Entry(added.id, ["foo", "bar", "woo", "xoo"])])];
    var script := [Data(reply)];
    assert reply[..0] == [] && |ParseReadResponse(reply)| == 1;
    var fetches := FetchAll(script);
    assert !Quiet(fetches[0]);
    assert BlocklessLoopSpec(fetches, 0) == Run(Raised, [], 1);

    var opts := new Options(map[]);
    var issued;
    first, issued := w.Read("test-group", "test-consumer", [("stream-test", ">")], opts, script, None);
    second, issued := w.Read("test-group", "test-consumer", [("stream-test", ">")], opts, script, None);
  }
}
