/** internal/dlq/dlq.go: the failure envelope, the DLQ writer and Send. */
module Dlq {
  import opened Wire
  import opened Json

  /** The topic every DLQ writer appends to. */
  const DlqTopic: Bytes := Ascii("orders-dlq")

  /** The failure envelope: where the message came from, why it failed, its exact bytes, and when. */
  datatype FailedMessage = FailedMessage(sourceTopic: Bytes, error: Bytes, payload: GoBytes, timestamp: int64)

  /** The JSON object json.Marshal makes of a FailedMessage: one member per field, named by its
      struct tag; a []byte payload is written as base64 text, and a nil one as null. */
  function Envelope(fm: FailedMessage, c: Codec): (j: Json)
    ensures j.JObject? && j.fields.Keys == {"source_topic", "error", "payload", "ts"}
    ensures j.fields["ts"] == JNumber(fm.timestamp as int)
    ensures fm.payload.Nil? <==> j.fields["payload"] == JNull
    ensures RoundTrips(c) && fm.payload.NonNil? ==>
      j.fields["payload"].JString? && c.b64decode(j.fields["payload"].text) == Some(fm.payload.bytes)
  {
    JObject(map[
      "source_topic" := JString(c.text(fm.sourceTopic)),
      "error" := JString(c.text(fm.error)),
      "payload" := PayloadJson(fm.payload, c),
      "ts" := JNumber(fm.timestamp as int)])
  }

  function PayloadJson(p: GoBytes, c: Codec): Json {
    match p
    case Nil => JNull
    case NonNil(b) => JString(c.b64encode(b))
  }

  /** The record Send hands to the writer: keyed by the source topic, valued by the encoded
      envelope (json.Marshal cannot fail on these field types, so its error is never set). */
  function Record(fm: FailedMessage, c: Codec): (m: Message)
    ensures m.key == fm.sourceTopic
    ensures RoundTrips(c) ==> c.parse(m.value) == Some(Envelope(fm, c))
  {
    Message(fm.sourceTopic, c.render(Envelope(fm, c)))
  }

  /** A kafka-go writer as its callers see it: a fixed topic, the number of WriteMessages
      calls it received, and the records the broker acknowledged. */
  class Writer {
    const topic: Bytes
    var attempts: nat
    var accepted: seq<Message>

    /** NewWriter: a writer on the DLQ topic that has written nothing yet. */
    constructor NewWriter()
      ensures topic == DlqTopic && attempts == 0 && accepted == []
    {
      topic := DlqTopic;
      attempts := 0;
      accepted := [];
    }

    /** One WriteMessages call; `ok` is the broker's answer, which the model takes as an input. */
    method WriteMessages(m: Message, ok: bool) returns (err: bool)
      modifies this
      ensures err == !ok
      ensures attempts == old(attempts) + 1
      ensures accepted == if ok then old(accepted) + [m] else old(accepted)
    {
      attempts := attempts + 1;
      if ok {
        accepted := accepted + [m];
      }
      err := !ok;
    }
  }

  /** Send: exactly one write of the envelope record; the write's error is dropped and
      nothing is returned, so the caller carries on whatever happened. */
  method Send(w: Writer, fm: FailedMessage, c: Codec, ok: bool)
    modifies w
    ensures w.attempts == old(w.attempts) + 1
    ensures w.accepted == old(w.accepted) + (if ok then [Record(fm, c)] else [])
  {
    var m := Record(fm, c);
    var err := w.WriteMessages(m, ok);
  }
}
