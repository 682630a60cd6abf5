/** The processor and the DLQ viewer together: what a null record on `orders` does to the
    viewer once the processor has sent it to `orders-dlq`. */
module Pipeline {
  import opened Wire
  import opened Json
  import opened Dlq
  import opened Log
  import Processor
  import Viewer

  /** A null record the processor reads at position k goes to the DLQ with a null payload;
      when the viewer reads the record Send wrote for it, its run ends right there, before
      committing it, so it stops on that record again after every restart. */
  lemma {:induction false} NullRecordHaltsViewer(
    k: nat, offset: int, penv: Processor.Env,
    records: seq<ReadOutcome>, j: nat, answers: seq<string>, a: nat, venv: Viewer.Env, dlqOffset: int)
    requires penv.decode(Nil).None? && RoundTrips(venv.codec)
    requires j < |records| && a <= |answers|
    requires records[j] == Msg(dlqOffset, NonNil(Record(Processor.DecodeFailure(k, Nil, penv), venv.codec).value))
    ensures Filter(Processor.Handle(k, offset, Nil, penv), IsDlqSend) == [DlqSend(Processor.DecodeFailure(k, Nil, penv))]
    ensures Viewer.Run(records, j, answers, a, venv) == [Read(dlqOffset), Stop]
  {
    Processor.NullRecordGoesToDlq(k, offset, penv);
    Viewer.NullPayloadRecordHaltsViewer(records, j, answers, a, venv, Processor.DecodeFailure(k, Nil, penv), dlqOffset);
  }
}
