/** cmd/consumer/main.go: read orders from a topic chosen by the environment and commit
    those that parse. */
module Consumer {
  import opened Wire
  import opened Log
  import opened Orders

  const DefaultTopic: Bytes := Ascii("orders")

  /** The topic: the TOPIC environment value when it is set and non-empty, "orders" otherwise
      (os.Getenv yields "" for an unset variable). */
  function TopicFor(topicEnv: Bytes): (topic: Bytes)
    ensures topic != []
    ensures topicEnv != [] ==> topic == topicEnv
    ensures topicEnv == [] ==> topic == DefaultTopic
  {
    if topicEnv == [] then DefaultTopic else topicEnv
  }

  /** One iteration: fetch; a value that does not parse as an Order is skipped, one that
      parses is committed. */
  function Handle(offset: int, value: GoBytes, decode: GoBytes -> Option<Order>): seq<Action> {
    FetchMessage(offset) + Body(offset, value, decode)
  }

  function Body(offset: int, value: GoBytes, decode: GoBytes -> Option<Order>): seq<Action> {
    if decode(value).Some? then [Commit(offset)] else []
  }

  function Run(outcomes: seq<ReadOutcome>, k: nat, decode: GoBytes -> Option<Order>): seq<Action>
    requires k <= |outcomes|
    decreases |outcomes| - k
  {
    if k == |outcomes| then []
    else match outcomes[k]
      case ReadErr => [Stop]
      case Msg(offset, value) => Handle(offset, value, decode) + Run(outcomes, k + 1, decode)
  }

  /** The offsets of the messages among `ms` whose value parses, in order. */
  function ParsedOffsets(ms: seq<ReadOutcome>, decode: GoBytes -> Option<Order>): seq<int>
    requires forall m | m in ms :: m.Msg?
  {
    if ms == [] then []
    else (if decode(ms[0].value).Some? then [ms[0].offset] else []) + ParsedOffsets(ms[1..], decode)
  }

  function CommitActions(os: seq<int>): (t: seq<Action>)
    ensures |t| == |os| && forall i | 0 <= i < |os| :: t[i] == Commit(os[i])
  {
    if os == [] then [] else [Commit(os[0])] + CommitActions(os[1..])
  }

  /** Run unfolds into the iteration for the message at k and the rest of the run. */
  lemma {:induction false} RunStep(outcomes: seq<ReadOutcome>, k: nat, decode: GoBytes -> Option<Order>)
    requires k < |outcomes| && outcomes[k].Msg?
    ensures Run(outcomes, k, decode) ==
      Handle(outcomes[k].offset, outcomes[k].value, decode) + Run(outcomes, k + 1, decode)
  {
  }

  /** A message is read once, and committed once exactly when its value parses. */
  lemma {:induction false} HandleFilters(offset: int, value: GoBytes, decode: GoBytes -> Option<Order>)
    ensures Filter(Handle(offset, value, decode), IsRead) == [Read(offset)]
    ensures Filter(Handle(offset, value, decode), IsCommit) ==
      if decode(value).Some? then [Commit(offset)] else []
  {
    HandleNoStop(offset, value, decode);
    if decode(value).Some? {
      assert Handle(offset, value, decode) == [Read(offset), Commit(offset)];
      Filter2(Read(offset), Commit(offset), IsCommit);
      Filter2(Read(offset), Commit(offset), IsRead);
    } else {
      assert Handle(offset, value, decode) == [Read(offset)];
      FilterCons(Read(offset), [], IsCommit);
      FilterCons(Read(offset), [], IsRead);
    }
  }

  lemma {:induction false} HandleNoStop(offset: int, value: GoBytes, decode: GoBytes -> Option<Order>)
    ensures Stop !in Handle(offset, value, decode)
  {
    assert Handle(offset, value, decode) == [Read(offset)] + Body(offset, value, decode);
  }

  lemma {:induction false} DeliveredStep(outcomes: seq<ReadOutcome>, k: nat, decode: GoBytes -> Option<Order>)
    requires k < |outcomes| && outcomes[k].Msg?
    ensures var m, ms := outcomes[k], Delivered(outcomes, k + 1);
      && Delivered(outcomes, k) == [m] + ms
      && ReadActions(Offsets([m] + ms)) == [Read(m.offset)] + ReadActions(Offsets(ms))
      && CommitActions(ParsedOffsets([m] + ms, decode)) ==
           (if decode(m.value).Some? then [Commit(m.offset)] else []) + CommitActions(ParsedOffsets(ms, decode))
  {
    var m, ms := outcomes[k], Delivered(outcomes, k + 1);
    assert ([m] + ms)[0] == m && ([m] + ms)[1..] == ms;
    assert Offsets([m] + ms) == [m.offset] + Offsets(ms);
    assert ([m.offset] + Offsets(ms))[1..] == Offsets(ms);
    var p := ParsedOffsets(ms, decode);
    if decode(m.value).Some? {
      assert ParsedOffsets([m] + ms, decode) == [m.offset] + p;
      assert ([m.offset] + p)[1..] == p;
    } else {
      assert ParsedOffsets([m] + ms, decode) == p;
    }
  }

  /** Each message read before the first read error is committed once exactly when its
      value parses, in read order. */
  lemma {:induction false} CommitsExactlyParsed(outcomes: seq<ReadOutcome>, k: nat, decode: GoBytes -> Option<Order>)
    requires k <= |outcomes|
    ensures Filter(Run(outcomes, k, decode), IsCommit) == CommitActions(ParsedOffsets(Delivered(outcomes, k), decode))
    decreases |outcomes| - k
  {
    if k < |outcomes| && outcomes[k].ReadErr? {
      FilterCons(Stop, [], IsCommit);
    } else if k < |outcomes| {
      var m := outcomes[k];
      RunStep(outcomes, k, decode);
      HandleFilters(m.offset, m.value, decode);
      FilterAppend(Handle(m.offset, m.value, decode), Run(outcomes, k + 1, decode), IsCommit);
      CommitsExactlyParsed(outcomes, k + 1, decode);
      DeliveredStep(outcomes, k, decode);
    }
  }

  /** Each message read before the first read error is read once, in order. */
  lemma {:induction false} EachDeliveredReadOnce(outcomes: seq<ReadOutcome>, k: nat, decode: GoBytes -> Option<Order>)
    requires k <= |outcomes|
    ensures Filter(Run(outcomes, k, decode), IsRead) == ReadActions(Offsets(Delivered(outcomes, k)))
    decreases |outcomes| - k
  {
    if k < |outcomes| && outcomes[k].ReadErr? {
      FilterCons(Stop, [], IsRead);
    } else if k < |outcomes| {
      var m := outcomes[k];
      RunStep(outcomes, k, decode);
      HandleFilters(m.offset, m.value, decode);
      FilterAppend(Handle(m.offset, m.value, decode), Run(outcomes, k + 1, decode), IsRead);
      EachDeliveredReadOnce(outcomes, k + 1, decode);
      DeliveredStep(outcomes, k, decode);
    }
  }

  /** A read error breaks the loop; the loop stops on nothing else, so a failed commit
      does not end it. */
  lemma {:induction false} StopOnlyOnReadError(outcomes: seq<ReadOutcome>, k: nat, decode: GoBytes -> Option<Order>)
    requires k <= |outcomes|
    ensures Stop in Run(outcomes, k, decode) <==> ReadFailsFrom(outcomes, k)
    decreases |outcomes| - k
  {
    if k < |outcomes| {
      ReadFailsFromStep(outcomes, k);
      if outcomes[k].ReadErr? {
        assert Run(outcomes, k, decode) == [Stop];
      } else {
        StopOnlyOnReadError(outcomes, k + 1, decode);
        var m := outcomes[k];
        RunStep(outcomes, k, decode);
        HandleNoStop(m.offset, m.value, decode);
        StopAfter(Handle(m.offset, m.value, decode), Run(outcomes, k + 1, decode));
      }
    }
  }

  /** Nothing follows the stop: after a read error nothing more is read or committed. */
  lemma {:induction false} StopIsLast(outcomes: seq<ReadOutcome>, k: nat, decode: GoBytes -> Option<Order>)
    requires k <= |outcomes|
    ensures var t := Run(outcomes, k, decode); Stop in t ==> t[|t| - 1] == Stop
    decreases |outcomes| - k
  {
    if k < |outcomes| {
      if outcomes[k].ReadErr? {
        assert Run(outcomes, k, decode) == [Stop];
      } else {
        StopIsLast(outcomes, k + 1, decode);
        var m := outcomes[k];
        RunStep(outcomes, k, decode);
        HandleNoStop(m.offset, m.value, decode);
        StopAfter(Handle(m.offset, m.value, decode), Run(outcomes, k + 1, decode));
      }
    }
  }

  /** The consumer's main loop. */
  method Consume(outcomes: seq<ReadOutcome>, decode: GoBytes -> Option<Order>) returns (trace: seq<Action>)
    ensures trace == Run(outcomes, 0, decode)
  {
    trace := [];
    ghost var whole := Run(outcomes, 0, decode);
    var k := 0;
    while k < |outcomes|
      invariant k <= |outcomes|
      invariant trace + Run(outcomes, k, decode) == whole
    {
      match outcomes[k]
      case ReadErr =>
        assert Run(outcomes, k, decode) == [Stop];
        trace := trace + [Stop];
        break;
      case Msg(offset, value) =>
        var step := [Read(offset)];
        var order := decode(value);
        if order.Some? {
          step := step + [Commit(offset)];
        }
        assert step == Handle(offset, value, decode);
        Advance(trace, outcomes, k, decode, whole);
        trace := trace + step;
        k := k + 1;
    }
  }

  /** One iteration keeps the loop invariant: what it appends is that message's Handle. */
  lemma {:induction false} Advance(before: seq<Action>, outcomes: seq<ReadOutcome>, k: nat,
                                   decode: GoBytes -> Option<Order>, whole: seq<Action>)
    requires k < |outcomes| && outcomes[k].Msg?
    requires before + Run(outcomes, k, decode) == whole
    ensures before + Handle(outcomes[k].offset, outcomes[k].value, decode) + Run(outcomes, k + 1, decode) == whole
  {
    var h := Handle(outcomes[k].offset, outcomes[k].value, decode);
    RunStep(outcomes, k, decode);
    AppendAssoc(before, h, Run(outcomes, k + 1, decode));
  }

  /** The loop as written reads with ReadMessage, which commits before returning: a message
      that does not parse is committed all the same, and one that parses twice; when that
      commit fails, ReadMessage returns an error and the loop breaks (line 56). */
  function HandleAsWritten(offset: int, value: GoBytes, commitOk: bool, decode: GoBytes -> Option<Order>): seq<Action> {
    if commitOk then ReadMessage(offset, true) + Body(offset, value, decode)
    else ReadMessage(offset, false)
  }

  lemma {:induction false} UnparsedCommittedAsWritten(offset: int, value: GoBytes, commitOk: bool, decode: GoBytes -> Option<Order>)
    requires decode(value).None?
    ensures var t := HandleAsWritten(offset, value, commitOk, decode);
      && Filter(t, IsCommit) == [Commit(offset)]
      && (Stop in t <==> !commitOk)
  {
    if commitOk {
      assert HandleAsWritten(offset, value, commitOk, decode) == [Read(offset), Commit(offset)];
      Filter2(Read(offset), Commit(offset), IsCommit);
    } else {
      Filter3(Read(offset), Commit(offset), Stop, IsCommit);
    }
  }
}
