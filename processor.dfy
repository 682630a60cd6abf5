/** cmd/processor/main.go: read an order, add its tax, write it to `orders-taxed`, divert
    failures to the DLQ, commit. */
module Processor {
  import opened Wire
  import opened Dlq
  import opened Log
  import opened Orders

  const SourceTopic: Bytes := Ascii("orders")
  const DerivedTopic: Bytes := Ascii("orders-taxed")
  const TaxKey: Bytes := Ascii("tax")
  const UnmarshalFailed: Bytes := Ascii("json_unmarshal")
  const ProduceFailed: Bytes := Ascii("produce_failed")

  /** Everything the loop gets from outside: the codecs, the tax computation
      (float64 `Amount * 0.2`), the derived writer's answers and the clock. The answers
      and the clock are indexed by the read position of the message they concern. */
  datatype Env = Env(
    decode: GoBytes -> Option<Order>,       // json.Unmarshal into an Order
    encode: OrderWithTax -> Bytes,        // json.Marshal of the enriched record
    tax: real -> real,
    writeOk: nat -> bool,                 // whether WriteMessages succeeds
    clock: nat -> int64)                  // time.Now().UnixMilli() when a failure is recorded

  /** The enrichment: ID and Amount are copied, Tax is computed from Amount alone. */
  function Enrich(o: Order, tax: real -> real): (e: OrderWithTax)
    ensures Order(e.id, e.amount) == o
    ensures e.tax == tax(o.amount)
  {
    OrderWithTax(o.id, o.amount, tax(o.amount))
  }

  function DecodeFailure(k: nat, value: GoBytes, env: Env): FailedMessage {
    FailedMessage(SourceTopic, UnmarshalFailed, value, env.clock(k))
  }

  function ProduceFailure(k: nat, value: GoBytes, env: Env): FailedMessage {
    FailedMessage(SourceTopic, ProduceFailed, value, env.clock(k))
  }

  /** The write attempted for a message whose value decodes. */
  function DerivedWrite(k: nat, order: Order, env: Env): Action {
    Write(DerivedTopic, TaxKey, env.encode(Enrich(order, env.tax)), env.writeOk(k))
  }

  /** What the loop does with the message read at position k once it has it. */
  function Body(k: nat, offset: int, value: GoBytes, env: Env): seq<Action> {
    match env.decode(value)
    case None => [DlqSend(DecodeFailure(k, value, env)), Commit(offset)]
    case Some(order) =>
      if env.writeOk(k) then [DerivedWrite(k, order, env), Commit(offset)]
      else [DerivedWrite(k, order, env), DlqSend(ProduceFailure(k, value, env)), Commit(offset)]
  }

  /** One iteration for a message: fetch, then the body. */
  function Handle(k: nat, offset: int, value: GoBytes, env: Env): seq<Action> {
    FetchMessage(offset) + Body(k, offset, value, env)
  }

  /** The three shapes an iteration takes: DLQ send for an undecodable value, write for a
      decoded one, and write then DLQ send when the write fails; the commit is last in each. */
  lemma {:induction false} HandleCases(k: nat, offset: int, value: GoBytes, env: Env)
    ensures var t, r, c := Handle(k, offset, value, env), Read(offset), Commit(offset);
      && (env.decode(value).None? ==> t == [r, DlqSend(DecodeFailure(k, value, env)), c])
      && (env.decode(value).Some? && env.writeOk(k) ==> t == [r, DerivedWrite(k, env.decode(value).value, env), c])
      && (env.decode(value).Some? && !env.writeOk(k) ==>
            t == [r, DerivedWrite(k, env.decode(value).value, env), DlqSend(ProduceFailure(k, value, env)), c])
  {
  }

  /** An iteration starts with the read, ends with the commit and never stops the loop. */
  lemma {:induction false} HandleEnds(k: nat, offset: int, value: GoBytes, env: Env)
    ensures var t := Handle(k, offset, value, env);
      t[0] == Read(offset) && t[|t| - 1] == Commit(offset) && Stop !in t
  {
    HandleCases(k, offset, value, env);
  }

  /** Exactly one read and one commit, in that order. */
  lemma {:induction false} HandleBookkeeping(k: nat, offset: int, value: GoBytes, env: Env)
    ensures Filter(Handle(k, offset, value, env), IsBookkeeping) == [Read(offset), Commit(offset)]
  {
    HandleCases(k, offset, value, env);
    var t, r, c := Handle(k, offset, value, env), Read(offset), Commit(offset);
    if |t| == 3 {
      Filter3(r, t[1], c, IsBookkeeping);
    } else {
      Filter4(r, t[1], t[2], c, IsBookkeeping);
    }
  }

  /** An undecodable value never reaches the writer; a decoded one is written once, as the
      encoding of its enrichment, with that write's outcome. */
  lemma {:induction false} HandleWrites(k: nat, offset: int, value: GoBytes, env: Env)
    ensures Filter(Handle(k, offset, value, env), IsWrite) ==
      match env.decode(value)
      case None => []
      case Some(order) => [Write(DerivedTopic, TaxKey, env.encode(Enrich(order, env.tax)), env.writeOk(k))]
  {
    HandleCases(k, offset, value, env);
    var t, r, c := Handle(k, offset, value, env), Read(offset), Commit(offset);
    if |t| == 3 {
      Filter3(r, t[1], c, IsWrite);
    } else {
      Filter4(r, t[1], t[2], c, IsWrite);
    }
  }

  /** An undecodable value goes to the DLQ once as "json_unmarshal", a failed write once as
      "produce_failed", each with the raw bytes read (not the enriched value); a written
      message does not. */
  lemma {:induction false} HandleDlqSends(k: nat, offset: int, value: GoBytes, env: Env)
    ensures Filter(Handle(k, offset, value, env), IsDlqSend) ==
      if env.decode(value).None? then [DlqSend(FailedMessage(SourceTopic, UnmarshalFailed, value, env.clock(k)))]
      else if env.writeOk(k) then []
      else [DlqSend(FailedMessage(SourceTopic, ProduceFailed, value, env.clock(k)))]
  {
    HandleCases(k, offset, value, env);
    var t, r, c := Handle(k, offset, value, env), Read(offset), Commit(offset);
    if |t| == 3 {
      Filter3(r, t[1], c, IsDlqSend);
    } else {
      Filter4(r, t[1], t[2], c, IsDlqSend);
    }
  }

  /** A null record: json.Unmarshal of a nil slice always fails, so when the decoder
      rejects nil, the record is not written and goes to the DLQ once, as "json_unmarshal",
      with a nil payload. */
  lemma {:induction false} NullRecordGoesToDlq(k: nat, offset: int, env: Env)
    requires env.decode(Nil).None?
    ensures var t := Handle(k, offset, Nil, env);
      && Filter(t, IsDlqSend) == [DlqSend(FailedMessage(SourceTopic, UnmarshalFailed, Nil, env.clock(k)))]
      && Filter(t, IsWrite) == []
  {
    HandleDlqSends(k, offset, Nil, env);
    HandleWrites(k, offset, Nil, env);
  }

  /** The actions of the loop from read position k on. */
  function Run(outcomes: seq<ReadOutcome>, k: nat, env: Env): seq<Action>
    requires k <= |outcomes|
    decreases |outcomes| - k
  {
    if k == |outcomes| then []
    else match outcomes[k]
      case ReadErr => [Stop]
      case Msg(offset, value) => Handle(k, offset, value, env) + Run(outcomes, k + 1, env)
  }

  /** Run unfolds into the iteration for the message at k and the rest of the run. */
  lemma {:induction false} RunStep(outcomes: seq<ReadOutcome>, k: nat, env: Env)
    requires k < |outcomes| && outcomes[k].Msg?
    ensures Run(outcomes, k, env) == Handle(k, outcomes[k].offset, outcomes[k].value, env) + Run(outcomes, k + 1, env)
  {
  }

  /** A read error ends the loop: the trace is the actions for the messages before it,
      then Stop, and nothing that comes after the error in the input matters. */
  lemma {:induction false} ReadErrorEndsRun(outcomes: seq<ReadOutcome>, k: nat, e: nat, env: Env)
    requires k <= e < |outcomes| && outcomes[e].ReadErr?
    requires forall j | k <= j < e :: outcomes[j].Msg?
    ensures Run(outcomes, k, env) == Run(outcomes[..e], k, env) + [Stop]
    ensures Stop !in Run(outcomes[..e], k, env)
    decreases e - k
  {
    if k < e {
      ReadErrorEndsRun(outcomes, k + 1, e, env);
      var m := outcomes[k];
      assert outcomes[..e][k] == m;
      RunStep(outcomes, k, env);
      RunStep(outcomes[..e], k, env);
      HandleEnds(k, m.offset, m.value, env);
      var h := Handle(k, m.offset, m.value, env);
      AppendAssoc(h, Run(outcomes[..e], k + 1, env), [Stop]);
      StopAfter(h, Run(outcomes[..e], k + 1, env));
    }
  }

  /** The loop stops only on a read error: a failed write, a failed DLQ send or a failed
      commit never ends it. */
  lemma {:induction false} StopOnlyOnReadError(outcomes: seq<ReadOutcome>, k: nat, env: Env)
    requires k <= |outcomes|
    ensures Stop in Run(outcomes, k, env) <==> ReadFailsFrom(outcomes, k)
    decreases |outcomes| - k
  {
    if k < |outcomes| {
      ReadFailsFromStep(outcomes, k);
      if outcomes[k].ReadErr? {
        assert Run(outcomes, k, env) == [Stop];
      } else {
        StopOnlyOnReadError(outcomes, k + 1, env);
        var m := outcomes[k];
        RunStep(outcomes, k, env);
        HandleEnds(k, m.offset, m.value, env);
        StopAfter(Handle(k, m.offset, m.value, env), Run(outcomes, k + 1, env));
      }
    }
  }

  /** Every message read before the first read error is committed exactly once, after it is
      read and before the next message is read, in read order. */
  lemma {:induction false} CommitsFollowReads(outcomes: seq<ReadOutcome>, k: nat, env: Env)
    requires k <= |outcomes|
    ensures Filter(Run(outcomes, k, env), IsBookkeeping) == Pairs(Offsets(Delivered(outcomes, k)))
    decreases |outcomes| - k
  {
    if k == |outcomes| {
    } else if outcomes[k].ReadErr? {
      FilterCons(Stop, [], IsBookkeeping);
    } else {
      var m := outcomes[k];
      RunStep(outcomes, k, env);
      HandleBookkeeping(k, m.offset, m.value, env);
      FilterAppend(Handle(k, m.offset, m.value, env), Run(outcomes, k + 1, env), IsBookkeeping);
      CommitsFollowReads(outcomes, k + 1, env);
      var ms := Delivered(outcomes, k + 1);
      assert Delivered(outcomes, k) == [m] + ms;
      assert ([m] + ms)[1..] == ms;
      assert Offsets([m] + ms) == [m.offset] + Offsets(ms);
      assert ([m.offset] + Offsets(ms))[1..] == Offsets(ms);
    }
  }

  /** The writes a run should make from position k on: one per decodable message before the
      first read error, in read order, each the enrichment of its order with its outcome. */
  function Writes(outcomes: seq<ReadOutcome>, k: nat, env: Env): seq<Action>
    requires k <= |outcomes|
    decreases |outcomes| - k
  {
    if k == |outcomes| || outcomes[k].ReadErr? then []
    else
      (match env.decode(outcomes[k].value)
       case None => []
       case Some(order) => [Write(DerivedTopic, TaxKey, env.encode(Enrich(order, env.tax)), env.writeOk(k))])
      + Writes(outcomes, k + 1, env)
  }

  /** The DLQ sends a run should make from position k on: before the first read error, one
      "json_unmarshal" send per undecodable message and one "produce_failed" send per failed
      write, in read order, each with the raw bytes read and the clock. */
  function DlqSends(outcomes: seq<ReadOutcome>, k: nat, env: Env): seq<Action>
    requires k <= |outcomes|
    decreases |outcomes| - k
  {
    if k == |outcomes| || outcomes[k].ReadErr? then []
    else
      var value := outcomes[k].value;
      (if env.decode(value).None? then [DlqSend(FailedMessage(SourceTopic, UnmarshalFailed, value, env.clock(k)))]
       else if env.writeOk(k) then []
       else [DlqSend(FailedMessage(SourceTopic, ProduceFailed, value, env.clock(k)))])
      + DlqSends(outcomes, k + 1, env)
  }

  /** The writes of a run are exactly those of Writes: none for an undecodable message or
      after a read error, one per decoded message, in read order. */
  lemma {:induction false} WritesExactly(outcomes: seq<ReadOutcome>, k: nat, env: Env)
    requires k <= |outcomes|
    ensures Filter(Run(outcomes, k, env), IsWrite) == Writes(outcomes, k, env)
    decreases |outcomes| - k
  {
    if k == |outcomes| {
    } else if outcomes[k].ReadErr? {
      FilterCons(Stop, [], IsWrite);
    } else {
      var m := outcomes[k];
      RunStep(outcomes, k, env);
      HandleWrites(k, m.offset, m.value, env);
      FilterAppend(Handle(k, m.offset, m.value, env), Run(outcomes, k + 1, env), IsWrite);
      WritesExactly(outcomes, k + 1, env);
    }
  }

  /** The DLQ sends of a run are exactly those of DlqSends. */
  lemma {:induction false} DlqSendsExactly(outcomes: seq<ReadOutcome>, k: nat, env: Env)
    requires k <= |outcomes|
    ensures Filter(Run(outcomes, k, env), IsDlqSend) == DlqSends(outcomes, k, env)
    decreases |outcomes| - k
  {
    if k == |outcomes| {
    } else if outcomes[k].ReadErr? {
      FilterCons(Stop, [], IsDlqSend);
    } else {
      var m := outcomes[k];
      RunStep(outcomes, k, env);
      HandleDlqSends(k, m.offset, m.value, env);
      FilterAppend(Handle(k, m.offset, m.value, env), Run(outcomes, k + 1, env), IsDlqSend);
      DlqSendsExactly(outcomes, k + 1, env);
    }
  }

  /** Malformed input never reaches the writer: every write carries the enriched encoding of
      an order decoded from a message that was read, and that message's write outcome. */
  lemma {:induction false} WritesCarryDecodedOrders(outcomes: seq<ReadOutcome>, k: nat, env: Env, a: Action)
    requires k <= |outcomes|
    requires a in Run(outcomes, k, env) && a.Write?
    ensures exists j | k <= j < |outcomes| ::
      && outcomes[j].Msg? && env.decode(outcomes[j].value).Some?
      && a == Write(DerivedTopic, TaxKey, env.encode(Enrich(env.decode(outcomes[j].value).value, env.tax)), env.writeOk(j))
    decreases |outcomes| - k
  {
    var m := outcomes[k];
    var h := Handle(k, m.offset, m.value, env);
    RunStep(outcomes, k, env);
    if a in h {
      HandleWrites(k, m.offset, m.value, env);
      FilterMember(h, IsWrite, a);
      assert outcomes[k].Msg? && env.decode(m.value).Some?;
    } else {
      WritesCarryDecodedOrders(outcomes, k + 1, env, a);
    }
  }

  /** Every DLQ send carries the raw bytes of a message that was read, from "orders", with
      "json_unmarshal" when the value did not decode and "produce_failed" when it decoded
      but its write failed. */
  lemma {:induction false} DlqSendsCarryRawBytes(outcomes: seq<ReadOutcome>, k: nat, env: Env, a: Action)
    requires k <= |outcomes|
    requires a in Run(outcomes, k, env) && a.DlqSend?
    ensures exists j | k <= j < |outcomes| ::
      && outcomes[j].Msg?
      && a.fm.sourceTopic == SourceTopic && a.fm.payload == outcomes[j].value && a.fm.timestamp == env.clock(j)
      && (a.fm.error == UnmarshalFailed <==> env.decode(outcomes[j].value).None?)
      && (a.fm.error == ProduceFailed <==> env.decode(outcomes[j].value).Some? && !env.writeOk(j))
    decreases |outcomes| - k
  {
    var m := outcomes[k];
    var h := Handle(k, m.offset, m.value, env);
    RunStep(outcomes, k, env);
    if a in h {
      HandleDlqSends(k, m.offset, m.value, env);
      FilterMember(h, IsDlqSend, a);
      assert UnmarshalFailed != ProduceFailed by {
        assert UnmarshalFailed[0] != ProduceFailed[0];
      }
    } else {
      DlqSendsCarryRawBytes(outcomes, k + 1, env, a);
    }
  }

  /** The loop as written reads with ReadMessage, which commits before returning: the
      message is committed before its write or DLQ send, and then committed again; when that first
      commit fails, ReadMessage returns an error and the loop breaks (line 61) with the
      message neither written nor sent to the DLQ. */
  function HandleAsWritten(k: nat, offset: int, value: GoBytes, commitOk: bool, env: Env): seq<Action> {
    if commitOk then ReadMessage(offset, true) + Body(k, offset, value, env)
    else ReadMessage(offset, false)
  }

  lemma {:induction false} CommitBeforeSideEffectAsWritten(k: nat, offset: int, value: GoBytes, commitOk: bool, env: Env)
    ensures var t := HandleAsWritten(k, offset, value, commitOk, env);
      && t[1] == Commit(offset)
      && (commitOk ==>
            && (t[2].Write? || t[2].DlqSend?)
            && Filter(t, IsCommit) == [Commit(offset), Commit(offset)])
      && (!commitOk ==>
            && t[|t| - 1] == Stop
            && Filter(t, IsWrite) == [] && Filter(t, IsDlqSend) == [])
  {
    if !commitOk {
      Filter3(Read(offset), Commit(offset), Stop, IsWrite);
      Filter3(Read(offset), Commit(offset), Stop, IsDlqSend);
      return;
    }
    var r, c := Read(offset), Commit(offset);
    var b := Body(k, offset, value, env);
    FilterAppend([r, c], b, IsCommit);
    Filter2(r, c, IsCommit);
    match env.decode(value)
    case None =>
      Filter2(b[0], c, IsCommit);
    case Some(order) =>
      if env.writeOk(k) {
        Filter2(b[0], c, IsCommit);
      } else {
        Filter3(b[0], b[1], c, IsCommit);
      }
  }

  /** The processor's main loop over the outcomes of successive reads. */
  method Process(outcomes: seq<ReadOutcome>, env: Env) returns (trace: seq<Action>)
    ensures trace == Run(outcomes, 0, env)
  {
    trace := [];
    ghost var whole := Run(outcomes, 0, env);
    var k := 0;
    while k < |outcomes|
      invariant k <= |outcomes|
      invariant trace + Run(outcomes, k, env) == whole
    {
      match outcomes[k]
      case ReadErr =>
        assert Run(outcomes, k, env) == [Stop];
        trace := trace + [Stop];
        break;
      case Msg(offset, value) =>
        var step := [Read(offset)];
        var decoded := env.decode(value);
        if decoded.None? {
          step := step + [DlqSend(FailedMessage(SourceTopic, UnmarshalFailed, value, env.clock(k)))];
        } else {
          var enriched := Enrich(decoded.value, env.tax);
          var encoded := env.encode(enriched);
          var ok := env.writeOk(k);
          step := step + [Write(DerivedTopic, TaxKey, encoded, ok)];
          if !ok {
            step := step + [DlqSend(FailedMessage(SourceTopic, ProduceFailed, value, env.clock(k)))];
          }
        }
        step := step + [Commit(offset)];
        assert step == Handle(k, offset, value, env);
        Advance(trace, outcomes, k, env, whole);
        trace := trace + step;
        k := k + 1;
    }
  }

  /** One iteration keeps the loop invariant: what it appends is that message's Handle. */
  lemma {:induction false} Advance(before: seq<Action>, outcomes: seq<ReadOutcome>, k: nat, env: Env, whole: seq<Action>)
    requires k < |outcomes| && outcomes[k].Msg?
    requires before + Run(outcomes, k, env) == whole
    ensures before + Handle(k, outcomes[k].offset, outcomes[k].value, env) + Run(outcomes, k + 1, env) == whole
  {
    var h := Handle(k, outcomes[k].offset, outcomes[k].value, env);
    RunStep(outcomes, k, env);
    AppendAssoc(before, h, Run(outcomes, k + 1, env));
  }
}
