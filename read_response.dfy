/**
 * Parsing a consumer-group read reply into messages: `parse_read_response`
 * in lib/redis/stream/wrapper.rb, together with the pairing by `each_slice(2)`
 * and `Hash[]` that turns a flat field list into a payload map.
 */
module ReadResponse {
  import opened Wrappers
  import opened Messages
  import opened Seqs

  /** A flat field list k1, v1, k2, v2, … of even length. */
  type Fields = f: seq<string> | |f| % 2 == 0

  /** One stream entry as the store returns it: its id and its flat field list. */
  datatype Entry = Entry(id: string, fields: Fields)

  /** The entries returned for one stream, in the store's order. */
  datatype StreamEntries = StreamEntries(stream: string, entries: seq<Entry>)

  /** A whole group-read reply: one element per stream, in the order the store lists them. */
  type Reply = seq<StreamEntries>

  // ---------------------------------------------------------------------------
  // Pairing a flat field list into a map
  // ---------------------------------------------------------------------------

  /** Slicing by two: consecutive elements grouped into key/value pairs. */
  function Slices(fields: seq<string>): (pairs: seq<(string, string)>)
    requires |fields| % 2 == 0
    ensures 2 * |pairs| == |fields|
    ensures forall i :: 0 <= i < |pairs| ==> pairs[i] == (fields[2 * i], fields[2 * i + 1])
    decreases |fields|
  {
    if fields == [] then [] else [(fields[0], fields[1])] + Slices(fields[2..])
  }

  /**
   * `Hash[pairs]`: the pairs inserted one after the other, so a later key
   * overrides an earlier one. The hash has no more entries than there are
   * pairs, every pair's key is in it, and the last pair's value is kept; the
   * two lemmas below say which keys it has and what each maps to.
   */
  function HashFromPairs(pairs: seq<(string, string)>): (r: map<string, string>)
    ensures |r| <= |pairs|
    ensures forall i :: 0 <= i < |pairs| ==> pairs[i].0 in r
    ensures pairs != [] ==> r[pairs[|pairs| - 1].0] == pairs[|pairs| - 1].1
    decreases |pairs|
  {
    if pairs == [] then map[]
    else
      var last := pairs[|pairs| - 1];
      HashFromPairs(pairs[..|pairs| - 1])[last.0 := last.1]
  }

  /** Index `i` is the last pair in `pairs` whose key is `k`. */
  ghost predicate IsLastKey(pairs: seq<(string, string)>, k: string, i: int)
  {
    0 <= i < |pairs| && pairs[i].0 == k && forall j :: i < j < |pairs| ==> pairs[j].0 != k
  }

  /** The keys of `Hash[pairs]` are exactly the keys of the pairs. */
  lemma {:induction false} HashFromPairsKeys(pairs: seq<(string, string)>, k: string)
    ensures k in HashFromPairs(pairs) <==> exists i :: 0 <= i < |pairs| && pairs[i].0 == k
    decreases |pairs|
  {
    if pairs != [] {
      var n := |pairs| - 1;
      var init := pairs[..n];
      HashFromPairsKeys(init, k);
      if pairs[n].0 == k {
        assert k in HashFromPairs(pairs);
      } else {
        assert k in HashFromPairs(pairs) <==> k in HashFromPairs(init);
        if exists i :: 0 <= i < |pairs| && pairs[i].0 == k {
          var i :| 0 <= i < |pairs| && pairs[i].0 == k;
          assert init[i].0 == k;
        }
        if exists i :: 0 <= i < |init| && init[i].0 == k {
          var i :| 0 <= i < |init| && init[i].0 == k;
          assert pairs[i].0 == k;
        }
      }
    }
  }

  /** In `Hash[pairs]` each key maps to the value of its last occurrence: later pairs override earlier ones. */
  lemma {:induction false} HashFromPairsLastWins(pairs: seq<(string, string)>, k: string, i: int)
    requires IsLastKey(pairs, k, i)
    ensures k in HashFromPairs(pairs) && HashFromPairs(pairs)[k] == pairs[i].1
    decreases |pairs|
  {
    var n := |pairs| - 1;
    var init := pairs[..n];
    if i < n {
      assert IsLastKey(init, k, i) by {
        assert init[i] == pairs[i];
        forall j | i < j < |init| ensures init[j].0 != k {
          assert init[j] == pairs[j];
        }
      }
      HashFromPairsLastWins(init, k, i);
    }
  }

  /**
   * The payload built from a flat field list (wrapper.rb line 127): at most one
   * entry per key/value pair, and every string at an even position is a key.
   * `PairFieldsLastWins` says exactly which keys it has and what each maps to.
   */
  function PairFields(fields: Fields): (r: map<string, string>)
    ensures 2 * |r| <= |fields|
    ensures forall i :: 0 <= i < |fields| / 2 ==> fields[2 * i] in r
  {
    HashFromPairs(Slices(fields))
  }

  /** The pair index `i` is the last one whose key (at position 2i) is `k`. */
  ghost predicate IsLastFieldKey(fields: seq<string>, k: string, i: int)
  {
    0 <= i && 2 * i + 1 < |fields| && fields[2 * i] == k
    && forall j :: i < j && 2 * j + 1 < |fields| ==> fields[2 * j] != k
  }

  /**
   * Pairing an even-length field list: a string is a key of the payload exactly
   * when it stands at an even position, and it maps to the value that follows
   * its last occurrence there.
   */
  lemma PairFieldsLastWins(fields: Fields, k: string)
    ensures k in PairFields(fields) <==> exists i :: 0 <= i && 2 * i + 1 < |fields| && fields[2 * i] == k
    ensures forall i :: IsLastFieldKey(fields, k, i) ==> k in PairFields(fields) && PairFields(fields)[k] == fields[2 * i + 1]
  {
    var pairs := Slices(fields);
    HashFromPairsKeys(pairs, k);
    if exists i :: 0 <= i && 2 * i + 1 < |fields| && fields[2 * i] == k {
      var i :| 0 <= i && 2 * i + 1 < |fields| && fields[2 * i] == k;
      assert pairs[i].0 == k;
    }
    forall i | IsLastFieldKey(fields, k, i)
      ensures k in PairFields(fields) && PairFields(fields)[k] == fields[2 * i + 1]
    {
      assert IsLastKey(pairs, k, i) by {
        forall j | i < j < |pairs| ensures pairs[j].0 != k {
          assert pairs[j].0 == fields[2 * j];
        }
      }
      HashFromPairsLastWins(pairs, k, i);
    }
  }

  /** The example of the test suite: `["foo","bar","woo","xoo"]` pairs into `{"foo"=>"bar","woo"=>"xoo"}`. */
  lemma PairFieldsExample()
    ensures PairFields(["foo", "bar", "woo", "xoo"]) == map["foo" := "bar", "woo" := "xoo"]
  {
    var fields := ["foo", "bar", "woo", "xoo"];
    var pairs := [("foo", "bar"), ("woo", "xoo")];
    assert Slices(fields) == pairs;
    assert pairs[..1] == [("foo", "bar")] && [("foo", "bar")][..0] == [];
    assert HashFromPairs(pairs[..1]) == map["foo" := "bar"];
  }

  /** A repeated key keeps its last value: `["a","1","a","2"]` pairs into `{"a"=>"2"}`. */
  lemma PairFieldsDuplicateExample()
    ensures PairFields(["a", "1", "a", "2"]) == map["a" := "2"]
  {
    var fields := ["a", "1", "a", "2"];
    var pairs := [("a", "1"), ("a", "2")];
    assert Slices(fields) == pairs;
    assert pairs[..1] == [("a", "1")] && [("a", "1")][..0] == [];
    assert HashFromPairs(pairs[..1]) == map["a" := "1"];
  }

  // ---------------------------------------------------------------------------
  // The parser
  // ---------------------------------------------------------------------------

  /**
   * The message built for one entry of a stream (lines 125-129): it belongs to
   * that stream, carries the entry's own id rather than the placeholder, and
   * its payload is the paired field list.
   */
  function ToMessage(stream: string, entry: Entry): (m: Message)
    ensures m.stream == stream && m.id == entry.id
    ensures m.payload == PairFields(entry.fields)
  {
    Build(stream, PairFields(entry.fields), Some(entry.id))
  }

  /**
   * The inner map over one stream's entries (lines 124-130): one message per
   * entry, message `e` built from entry `e`, so the batch keeps the entry order.
   */
  function ParseEntries(stream: string, entries: seq<Entry>): (ms: seq<Message>)
    ensures |ms| == |entries|
    ensures forall e :: 0 <= e < |entries| ==> ms[e] == ToMessage(stream, entries[e])
  {
    seq(|entries|, e requires 0 <= e < |entries| => ToMessage(stream, entries[e]))
  }

  /** The number of entries in the reply, over all streams. */
  function TotalEntries(reply: Reply): nat
    decreases |reply|
  {
    if reply == [] then 0 else TotalEntries(reply[..|reply| - 1]) + |reply[|reply| - 1].entries|
  }

  /** The outer map over the streams of the reply (lines 123-131): one batch of messages per stream, in reply order. */
  function StreamBatches(reply: Reply): (bs: seq<seq<Message>>)
    ensures |bs| == |reply|
    ensures forall s :: 0 <= s < |reply| ==> bs[s] == ParseEntries(reply[s].stream, reply[s].entries)
  {
    seq(|reply|, s requires 0 <= s < |reply| => ParseEntries(reply[s].stream, reply[s].entries))
  }

  /** The batches of a reply hold as many messages as the reply has entries. */
  lemma {:induction false} StreamBatchesLength(reply: Reply)
    ensures TotalLength(StreamBatches(reply)) == TotalEntries(reply)
    decreases |reply|
  {
    if reply != [] {
      var n := |reply| - 1;
      assert StreamBatches(reply)[..n] == StreamBatches(reply[..n]);
      StreamBatchesLength(reply[..n]);
    }
  }

  /**
   * `parse_read_response` (lines 122-132): the per-stream batches flattened in
   * stream order, one message per entry over all streams. `compact` has
   * nothing to remove, since every element is a message.
   */
  function ParseReadResponse(reply: Reply): (ms: seq<Message>)
    ensures |ms| == TotalEntries(reply)
  {
    StreamBatchesLength(reply);
    Flatten(StreamBatches(reply))
  }

  /**
   * Entry `e` of stream `s` is output position `TotalEntries(reply[..s]) + e`,
   * as a message carrying that stream's name, the raw id and the paired fields:
   * the output runs in stream order, then entry order.
   */
  lemma ParseReadResponseAt(reply: Reply, s: int, e: int)
    requires 0 <= s < |reply| && 0 <= e < |reply[s].entries|
    ensures TotalEntries(reply[..s]) + e < |ParseReadResponse(reply)|
    ensures ParseReadResponse(reply)[TotalEntries(reply[..s]) + e]
         == Message(reply[s].stream, reply[s].entries[e].id, PairFields(reply[s].entries[e].fields))
  {
    var bs := StreamBatches(reply);
    FlattenAt(bs, s, e);
    assert bs[..s] == StreamBatches(reply[..s]);
    StreamBatchesLength(reply[..s]);
  }

  /** Parsing distributes over a split of the reply: streams are never reordered or merged. */
  lemma ParseReadResponseAppend(a: Reply, b: Reply)
    ensures ParseReadResponse(a + b) == ParseReadResponse(a) + ParseReadResponse(b)
  {
    assert StreamBatches(a + b) == StreamBatches(a) + StreamBatches(b);
    FlattenAppend(StreamBatches(a), StreamBatches(b));
  }

  /** An empty reply (no streams) parses to no messages; a reply with no entries likewise. */
  lemma ParseReadResponseEmpty(reply: Reply)
    requires forall s :: 0 <= s < |reply| ==> reply[s].entries == []
    ensures ParseReadResponse(reply) == []
  {
    FlattenEmpty(StreamBatches(reply));
  }
}
