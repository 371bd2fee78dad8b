/**
 * The message value type of lib/redis/stream/wrapper/message.rb: an immutable
 * record (a Dry::Struct::Value) with a stream name, an id and a payload that
 * maps strings to strings.
 */
module Messages {
  import opened Wrappers

  /** The id a message carries before the store has assigned one. */
  const Unassigned: string := "*"

  /**
   * One stream message. Being a datatype, a Message is a value: it cannot be
   * changed in place, and two messages with the same fields are the same message.
   */
  datatype Message = Message(stream: string, id: string, payload: map<string, string>)

  /**
   * The keyword constructor of the message type (message.rb lines 6-10). `id` is None when the caller
   * leaves the attribute out, in which case the default `'*'` is used.
   */
  function Build(stream: string, payload: map<string, string>, id: Option<string>): (m: Message)
    ensures m.stream == stream && m.payload == payload
    ensures id.Some? ==> m.id == id.value
    ensures id.None? ==> m.id == Unassigned
  {
    Message(stream, id.GetOr(Unassigned), payload)
  }

  /** Two messages built from the same attributes are equal, and equal messages have equal attributes. */
  lemma BuildIsValue(s1: string, p1: map<string, string>, i1: Option<string>,
                     s2: string, p2: map<string, string>, i2: Option<string>)
    ensures Build(s1, p1, i1) == Build(s2, p2, i2)
        <==> s1 == s2 && p1 == p2 && i1.GetOr(Unassigned) == i2.GetOr(Unassigned)
  {
  }
}
