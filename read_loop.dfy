/**
 * The reading loop of `Wrapper#read` (lib/redis/stream/wrapper.rb lines 46-59)
 * as a function over a finite script of poll results. The class method
 * `StreamWrapper.Wrapper.Read` is proved to behave exactly as `ReadSpec` says.
 *
 * The store's blocking `xreadgroup` is the script: element i is what the i-th
 * poll returns. The block given to `read` is an oracle `stops`: after it has
 * received the k-th message m of the whole run (counting from 0), it calls
 * `stop_read` exactly when `stops(k, m)` holds. A `read` called without a
 * block has no oracle, and yielding its first message raises.
 */
module ReadLoop {
  import opened Wrappers
  import opened Messages
  import opened ReadResponse

  /** What one `xreadgroup` call does: return nil, return a reply, or raise. */
  datatype Poll = NoData | Data(reply: Reply) | Raises

  /** How a call of `read` ends. */
  datatype Outcome =
    | AlreadyReading   // raised 'Already reading stream' before doing anything (line 47)
    | Stopped          // the `while @reading` test found the flag cleared (line 51)
    | Raised           // a poll raised; the exception leaves `read`
    | ScriptExhausted  // the modelled polls ran out while the loop was still reading

  /** The observable run of one `read` call: how it ended, the messages yielded in order, the polls issued. */
  datatype Run = Run(outcome: Outcome, delivered: seq<Message>, polls: nat)

  /** What the loop makes of one poll: nothing new (nil), a parsed batch, or an error. */
  datatype Fetch = NothingNew | Batch(messages: seq<Message>) | Failure

  /** One poll result as the loop sees it: a reply is parsed by `parse_read_response` (line 55). */
  function Fetched(p: Poll): (f: Fetch)
    ensures p.NoData? <==> f.NothingNew?
    ensures p.Raises? <==> f.Failure?
    ensures p.Data? ==> f == Batch(ParseReadResponse(p.reply))
  {
    match p
    case NoData => NothingNew
    case Data(reply) => Batch(ParseReadResponse(reply))
    case Raises => Failure
  }

  /** The fetches of a whole script, poll by poll. */
  function FetchAll(script: seq<Poll>): (fs: seq<Fetch>)
    ensures |fs| == |script| && forall i :: 0 <= i < |script| ==> fs[i] == Fetched(script[i])
  {
    seq(|script|, i requires 0 <= i < |script| => Fetched(script[i]))
  }

  /** Some message of `d` at position `from` or later made the callback call `stop_read`. */
  predicate StopRequested(stops: (nat, Message) -> bool, d: seq<Message>, from: nat)
  {
    exists j :: from <= j < |d| && stops(j, d[j])
  }

  /** The messages one fetch hands to the callback. */
  function Yielded(f: Fetch): seq<Message>
  {
    if f.Batch? then f.messages else []
  }

  /** All messages the fetches hand to the callback, in poll order. */
  function Batches(fs: seq<Fetch>): seq<Message>
    decreases |fs|
  {
    if fs == [] then [] else Yielded(fs[0]) + Batches(fs[1..])
  }

  /**
   * The `while @reading` loop entered with the flag set, `delivered` already
   * yielded and `polls` polls already issued. A batch is always yielded whole;
   * a stop requested during it is seen at the next test of the flag. The loop
   * never reports a rejection, never takes back a message it has yielded, and
   * polls at most once per scripted result.
   */
  function LoopSpec(fs: seq<Fetch>, stops: (nat, Message) -> bool, delivered: seq<Message>, polls: nat): (r: Run)
    ensures r.outcome != AlreadyReading
    ensures |delivered| <= |r.delivered|
    ensures polls <= r.polls <= polls + |fs|
    decreases |fs|
  {
    if fs == [] then Run(ScriptExhausted, delivered, polls)
    else
      match fs[0]
      case Failure => Run(Raised, delivered, polls + 1)
      case NothingNew => LoopSpec(fs[1..], stops, delivered, polls + 1)
      case Batch(messages) =>
        var d := delivered + messages;
        if StopRequested(stops, d, |delivered|) then Run(Stopped, d, polls + 1)
        else LoopSpec(fs[1..], stops, d, polls + 1)
  }

  /** A fetch that the block-less loop passes over: a nil result or a batch that parses to no message. */
  predicate Quiet(f: Fetch)
  {
    f != Failure && Yielded(f) == []
  }

  /**
   * The loop of a `read` called without a block, entered with `polls` polls
   * issued. A nil result or an empty batch makes it poll again; the first
   * message it would yield raises instead (there is no block to receive it),
   * so nothing is ever delivered and the loop never ends as stopped.
   */
  function BlocklessLoopSpec(fs: seq<Fetch>, polls: nat): (r: Run)
    ensures r.delivered == [] && (r.outcome == Raised || r.outcome == ScriptExhausted)
    decreases |fs|
  {
    if fs == [] then Run(ScriptExhausted, [], polls)
    else if Quiet(fs[0]) then BlocklessLoopSpec(fs[1..], polls + 1)
    else Run(Raised, [], polls + 1)
  }

  /**
   * A whole call of `read` on a wrapper whose flag is `reading`, polling
   * `script`, with the callback `block` (None when `read` is called without
   * one). It is rejected exactly when the flag is already set, and then it
   * polls nothing and yields nothing.
   */
  function ReadSpec(reading: bool, script: seq<Poll>, block: Option<(nat, Message) -> bool>): (r: Run)
    ensures r.outcome == AlreadyReading <==> reading
    ensures reading ==> r.delivered == [] && r.polls == 0
    ensures block.None? ==> r.delivered == []
  {
    if reading then Run(AlreadyReading, [], 0)
    else
      match block
      case Some(stops) => LoopSpec(FetchAll(script), stops, [], 0)
      case None => BlocklessLoopSpec(FetchAll(script), 0)
  }

  /**
   * The value of the flag after a call of `read` that ended as `run`: only a
   * `stop_read` from the callback clears it; a rejected call, an exception and
   * a loop still polling all leave it set.
   */
  function ReadingAfter(run: Run): (reading: bool)
    ensures run.outcome == Stopped ==> !reading
    ensures run.outcome in {AlreadyReading, Raised, ScriptExhausted} ==> reading
  {
    run.outcome != Stopped
  }

  /** A stop request found in `d + e` from `from` on lies in `d` or in `e`. */
  lemma StopRequestedSplit(stops: (nat, Message) -> bool, d: seq<Message>, e: seq<Message>, from: nat)
    requires from <= |d|
    ensures StopRequested(stops, d + e, from) <==> StopRequested(stops, d, from) || StopRequested(stops, d + e, |d|)
  {
    if StopRequested(stops, d + e, from) {
      var j :| from <= j < |d + e| && stops(j, (d + e)[j]);
      if j < |d| {
        assert (d + e)[j] == d[j];
      }
    }
    if StopRequested(stops, d, from) {
      var j :| from <= j < |d| && stops(j, d[j]);
      assert (d + e)[j] == d[j];
    }
  }

  /**
   * One iteration of the loop: the poll fails, or its batch asks for a stop and
   * the loop ends after it, or the loop goes on with that batch yielded.
   */
  lemma LoopSpecStep(fs: seq<Fetch>, stops: (nat, Message) -> bool, d: seq<Message>, p0: nat)
    requires fs != []
    ensures var r := LoopSpec(fs, stops, d, p0);
      || (fs[0] == Failure && r == Run(Raised, d, p0 + 1))
      || (fs[0].Batch? && StopRequested(stops, d + Yielded(fs[0]), |d|)
          && r == Run(Stopped, d + Yielded(fs[0]), p0 + 1))
      || (fs[0] != Failure && !StopRequested(stops, d + Yielded(fs[0]), |d|)
          && r == LoopSpec(fs[1..], stops, d + Yielded(fs[0]), p0 + 1))
  {
    if fs[0].NothingNew? {
      assert d + Yielded(fs[0]) == d;
    }
  }

  /**
   * The shape of every run of the loop: it polls at most once per scripted
   * result and never reports a rejection; it runs out of script only after
   * polling all of it; it ends on an error only right after the first poll
   * that failed, and on a stop only right after a poll that returned a batch.
   */
  lemma {:induction false} LoopSpecShape(fs: seq<Fetch>, stops: (nat, Message) -> bool, d: seq<Message>, p0: nat)
    ensures var r := LoopSpec(fs, stops, d, p0);
      && p0 <= r.polls <= p0 + |fs|
      && r.outcome != AlreadyReading
      && (r.outcome == ScriptExhausted ==> r.polls == p0 + |fs|)
      && (r.outcome == Raised ==> p0 < r.polls && fs[r.polls - p0 - 1] == Failure)
      && (r.outcome == Stopped ==> p0 < r.polls && fs[r.polls - p0 - 1].Batch?)
      && (forall k :: 0 <= k < r.polls - p0 - 1 ==> fs[k] != Failure)
    decreases |fs|
  {
    if fs != [] {
      LoopSpecStep(fs, stops, d, p0);
      if fs[0] != Failure && !StopRequested(stops, d + Yielded(fs[0]), |d|) {
        LoopSpecShape(fs[1..], stops, d + Yielded(fs[0]), p0 + 1);
      }
    }
  }

  /** The batches of a non-empty prefix: those of its first fetch, then those of the rest. */
  lemma BatchesPrefixCons(fs: seq<Fetch>, p: nat)
    requires 1 <= p <= |fs|
    ensures Batches(fs[..p]) == Yielded(fs[0]) + Batches(fs[1..][..p - 1])
  {
    assert fs[..p][1..] == fs[1..][..p - 1];
    assert fs[..p][0] == fs[0];
  }

  /** The loop yields exactly the whole batches of the polls it issued, in poll order. */
  lemma {:induction false} LoopSpecDelivered(fs: seq<Fetch>, stops: (nat, Message) -> bool, d: seq<Message>, p0: nat)
    ensures var r := LoopSpec(fs, stops, d, p0);
      && p0 <= r.polls <= p0 + |fs|
      && r.delivered == d + Batches(fs[..r.polls - p0])
    decreases |fs|
  {
    var r := LoopSpec(fs, stops, d, p0);
    if fs == [] {
      assert fs[..0] == [];
    } else {
      LoopSpecStep(fs, stops, d, p0);
      var k := r.polls - p0;
      BatchesPrefixCons(fs, k);
      var d' := d + Yielded(fs[0]);
      if fs[0] != Failure && !StopRequested(stops, d', |d|) {
        LoopSpecDelivered(fs[1..], stops, d', p0 + 1);
        assert (d + Yielded(fs[0])) + Batches(fs[1..][..k - 1]) == d + (Yielded(fs[0]) + Batches(fs[1..][..k - 1]));
      } else {
        assert k == 1 && r.delivered == d';
        assert Batches(fs[1..][..0]) == [] by {
          assert fs[1..][..0] == [];
        }
        assert d' + [] == d';
      }
    }
  }

  /** The loop ends as `Stopped` exactly when some message it yielded made the callback call `stop_read`. */
  lemma {:induction false} LoopSpecStopsWhenAsked(fs: seq<Fetch>, stops: (nat, Message) -> bool, d: seq<Message>, p0: nat)
    ensures var r := LoopSpec(fs, stops, d, p0);
      r.outcome == Stopped <==> StopRequested(stops, r.delivered, |d|)
    decreases |fs|
  {
    if fs != [] {
      LoopSpecStep(fs, stops, d, p0);
      var d' := d + Yielded(fs[0]);
      if fs[0] != Failure && !StopRequested(stops, d', |d|) {
        LoopSpecStopsWhenAsked(fs[1..], stops, d', p0 + 1);
        LoopSpecDelivered(fs[1..], stops, d', p0 + 1);
        var r' := LoopSpec(fs[1..], stops, d', p0 + 1);
        StopRequestedSplit(stops, d', r'.delivered[|d'|..], |d|);
        assert d' + r'.delivered[|d'|..] == r'.delivered;
      } else if fs[0] == Failure {
        assert !StopRequested(stops, d, |d|);
      }
    }
  }

  /** A run that issues a second poll went on past the first: its batch asked for no stop. */
  lemma LoopSpecContinues(fs: seq<Fetch>, stops: (nat, Message) -> bool, d: seq<Message>, p0: nat)
    requires p0 + 1 < LoopSpec(fs, stops, d, p0).polls
    ensures fs != []
    ensures !StopRequested(stops, d + Yielded(fs[0]), |d|)
    ensures LoopSpec(fs, stops, d, p0) == LoopSpec(fs[1..], stops, d + Yielded(fs[0]), p0 + 1)
  {
    LoopSpecStep(fs, stops, d, p0);
  }

  /**
   * The loop only polls again while no stop has been requested: before each of
   * the polls it issued after the first, none of the messages yielded so far
   * had made the callback call `stop_read`.
   */
  lemma {:induction false} LoopSpecPollsOnlyWhileReading(fs: seq<Fetch>, stops: (nat, Message) -> bool, d: seq<Message>, p0: nat, p: nat)
    requires p < LoopSpec(fs, stops, d, p0).polls - p0
    ensures p < |fs|
    ensures !StopRequested(stops, d + Batches(fs[..p]), |d|)
    decreases |fs|
  {
    LoopSpecShape(fs, stops, d, p0);
    if p == 0 {
      assert fs[..0] == [];
      assert d + [] == d;
    } else {
      // p >= 1, so the first poll neither failed nor stopped the loop
      LoopSpecContinues(fs, stops, d, p0);
      BatchesPrefixCons(fs, p);
      var d' := d + Yielded(fs[0]);
      LoopSpecPollsOnlyWhileReading(fs[1..], stops, d', p0 + 1, p - 1);
      StopRequestedSplit(stops, d', Batches(fs[1..][..p - 1]), |d|);
      assert (d + Yielded(fs[0])) + Batches(fs[1..][..p - 1]) == d + (Yielded(fs[0]) + Batches(fs[1..][..p - 1]));
    }
  }

  /** A nil poll result yields nothing: the loop just polls again. */
  lemma NoDataPollsAgain(script: seq<Poll>, stops: (nat, Message) -> bool, d: seq<Message>, p0: nat)
    ensures Yielded(Fetched(NoData)) == []
    ensures LoopSpec(FetchAll([NoData] + script), stops, d, p0) == LoopSpec(FetchAll(script), stops, d, p0 + 1)
  {
    assert FetchAll([NoData] + script)[1..] == FetchAll(script);
  }

  /** `read` on a wrapper that is already reading is rejected: no poll, nothing yielded, the flag stays set. */
  lemma ReadWhileReadingRejected(script: seq<Poll>, block: Option<(nat, Message) -> bool>)
    ensures ReadSpec(true, script, block) == Run(AlreadyReading, [], 0)
    ensures ReadingAfter(ReadSpec(true, script, block))
  {
  }

  /**
   * A whole `read` on an idle wrapper, in terms of the script: the messages
   * yielded are the parsed replies of the polls it issued, concatenated in poll
   * order, and it ended as stopped exactly when one of them asked for the stop.
   */
  lemma ReadDelivers(script: seq<Poll>, stops: (nat, Message) -> bool)
    ensures var r := ReadSpec(false, script, Some(stops));
      && r.polls <= |script|
      && r.delivered == Batches(FetchAll(script[..r.polls]))
      && (r.outcome == Stopped <==> StopRequested(stops, r.delivered, 0))
  {
    var r := ReadSpec(false, script, Some(stops));
    LoopSpecDelivered(FetchAll(script), stops, [], 0);
    LoopSpecStopsWhenAsked(FetchAll(script), stops, [], 0);
    assert FetchAll(script)[..r.polls] == FetchAll(script[..r.polls]);
    assert [] + Batches(FetchAll(script[..r.polls])) == Batches(FetchAll(script[..r.polls]));
  }

  /**
   * A `read` that ended because the callback called `stop_read` leaves the flag
   * cleared, so the next `read` is accepted; a `read` that ended any other way
   * leaves it set, so the next `read`, with or without a block, is rejected.
   */
  lemma ReadAfterRead(s1: seq<Poll>, st1: (nat, Message) -> bool, s2: seq<Poll>, b2: Option<(nat, Message) -> bool>)
    ensures var r1 := ReadSpec(false, s1, Some(st1));
      (r1.outcome == Stopped <==> StopRequested(st1, r1.delivered, 0))
      && (ReadSpec(ReadingAfter(r1), s2, b2).outcome != AlreadyReading <==> r1.outcome == Stopped)
  {
    LoopSpecStopsWhenAsked(FetchAll(s1), st1, [], 0);
  }

  /**
   * The shape of the block-less loop: it passes over quiet fetches only, runs
   * out of script exactly when every fetch is quiet (and then has yielded
   * nothing at all), and otherwise raises at the first fetch that fails or
   * carries a message.
   */
  lemma {:induction false} BlocklessLoopShape(fs: seq<Fetch>, p0: nat)
    ensures var r := BlocklessLoopSpec(fs, p0);
      && p0 <= r.polls <= p0 + |fs|
      && (r.outcome == ScriptExhausted <==> forall k :: 0 <= k < |fs| ==> Quiet(fs[k]))
      && (r.outcome == ScriptExhausted ==> r.polls == p0 + |fs| && Batches(fs) == [])
      && (r.outcome == Raised ==> p0 < r.polls && !Quiet(fs[r.polls - p0 - 1]))
      && (forall k :: 0 <= k < r.polls - p0 - 1 ==> Quiet(fs[k]))
    decreases |fs|
  {
    if fs != [] && Quiet(fs[0]) {
      BlocklessLoopShape(fs[1..], p0 + 1);
      assert forall k :: 1 <= k < |fs| ==> fs[k] == fs[1..][k - 1];
    }
  }

  /**
   * A `read` called without a block delivers nothing, can never be stopped and
   * so leaves the flag set. It keeps polling only while the polls return nil
   * or no message, and raises at the first poll that raises or returns a
   * message; so it raises whenever some poll of the script returns a message.
   */
  lemma BlocklessReadRaises(script: seq<Poll>)
    ensures var r := ReadSpec(false, script, None);
      && r.delivered == [] && r.outcome != Stopped && ReadingAfter(r)
      && r.polls <= |script|
      && (Batches(FetchAll(script)) != [] ==> r.outcome == Raised)
      && (r.outcome == ScriptExhausted <==> forall k :: 0 <= k < |script| ==> Quiet(Fetched(script[k])))
      && (r.outcome == Raised ==> 0 < r.polls && !Quiet(Fetched(script[r.polls - 1])))
      && (forall k :: 0 <= k < r.polls - 1 ==> Quiet(Fetched(script[k])))
  {
    BlocklessLoopShape(FetchAll(script), 0);
  }
}
