/** cmd/reporter/main.go: read enriched orders, add each one's tax in cents to an unsigned
    64-bit counter, commit. */
module Reporter {
  import opened Wire
  import opened Log
  import opened Orders

  const Modulus: nat := 0x1_0000_0000_0000_0000

  /** Go's uint64. */
  newtype uint64 = x: int | 0 <= x < 0x1_0000_0000_0000_0000

  /** Addition on uint64, which wraps around. */
  function AddWrapping(a: uint64, b: uint64): (r: uint64)
    ensures a as int + b as int < Modulus ==> r as int == a as int + b as int
    ensures a as int + b as int >= Modulus ==> r as int == a as int + b as int - Modulus
  {
    if a as int + b as int < Modulus then a + b else (a as int + b as int - Modulus) as uint64
  }

  /** What the loop gets from outside: the codec and the conversion of a tax to cents
      (float64 `uint64(math.Round(Tax * 100))`). */
  datatype Env = Env(
    decode: GoBytes -> Option<OrderWithTax>,    // json.Unmarshal into an OrderWithTax
    cents: real -> uint64)

  /** The cents a message adds, if its value decodes. */
  function CentsOf(value: GoBytes, env: Env): Option<uint64> {
    match env.decode(value)
    case None => None
    case Some(o) => Some(env.cents(o.tax))
  }

  /** One iteration for a message: fetch; an undecodable value is skipped, a decoded one
      adds its cents and is then committed. */
  function Handle(offset: int, value: GoBytes, env: Env): seq<Action> {
    FetchMessage(offset) + Body(offset, value, env)
  }

  function Body(offset: int, value: GoBytes, env: Env): seq<Action> {
    match CentsOf(value, env)
    case None => []
    case Some(c) => [Add(c as nat), Commit(offset)]
  }

  function Run(outcomes: seq<ReadOutcome>, k: nat, env: Env): seq<Action>
    requires k <= |outcomes|
    decreases |outcomes| - k
  {
    if k == |outcomes| then []
    else match outcomes[k]
      case ReadErr => [Stop]
      case Msg(offset, value) => Handle(offset, value, env) + Run(outcomes, k + 1, env)
  }

  /** The cents of the decodable messages read before the first read error, in read order. */
  function Added(outcomes: seq<ReadOutcome>, k: nat, env: Env): seq<nat>
    requires k <= |outcomes|
    decreases |outcomes| - k
  {
    if k == |outcomes| || outcomes[k].ReadErr? then []
    else match CentsOf(outcomes[k].value, env)
      case None => Added(outcomes, k + 1, env)
      case Some(c) => [c as nat] + Added(outcomes, k + 1, env)
  }

  function Sum(s: seq<nat>): nat {
    if s == [] then 0 else s[0] + Sum(s[1..])
  }

  /** Run unfolds into the iteration for the message at k and the rest of the run. */
  lemma {:induction false} RunStep(outcomes: seq<ReadOutcome>, k: nat, env: Env)
    requires k < |outcomes| && outcomes[k].Msg?
    ensures Run(outcomes, k, env) == Handle(outcomes[k].offset, outcomes[k].value, env) + Run(outcomes, k + 1, env)
  {
  }

  /** The two shapes an iteration takes: a lone read for an undecodable value; read, add,
      commit for a decoded one. */
  lemma {:induction false} HandleCases(offset: int, value: GoBytes, env: Env)
    ensures CentsOf(value, env).None? ==> Handle(offset, value, env) == [Read(offset)]
    ensures CentsOf(value, env).Some? ==>
      Handle(offset, value, env) == [Read(offset), Add(CentsOf(value, env).value as nat), Commit(offset)]
  {
  }

  /** An iteration starts with the read and never stops the loop; a decoded message is
      committed last, after its cents are added. */
  lemma {:induction false} HandleEnds(offset: int, value: GoBytes, env: Env)
    ensures var t := Handle(offset, value, env);
      && t[0] == Read(offset) && Stop !in t
      && (CentsOf(value, env).Some? ==> t[1].Add? && t[|t| - 1] == Commit(offset))
  {
    HandleCases(offset, value, env);
  }

  /** A message is read once; an undecodable one adds nothing and is not committed; a
      decoded one adds its cents once and is committed once. */
  lemma {:induction false} HandleFilters(offset: int, value: GoBytes, env: Env)
    ensures Filter(Handle(offset, value, env), IsRead) == [Read(offset)]
    ensures Filter(Handle(offset, value, env), IsAdd) ==
      match CentsOf(value, env) case None => [] case Some(c) => [Add(c as nat)]
    ensures Filter(Handle(offset, value, env), IsCommit) ==
      if CentsOf(value, env).Some? then [Commit(offset)] else []
  {
    HandleCases(offset, value, env);
    var r := Read(offset);
    match CentsOf(value, env)
    case None =>
      FilterCons(r, [], IsRead);
      FilterCons(r, [], IsAdd);
      FilterCons(r, [], IsCommit);
    case Some(c) =>
      var a, m := Add(c as nat), Commit(offset);
      Filter3(r, a, m, IsRead);
      Filter3(r, a, m, IsAdd);
      Filter3(r, a, m, IsCommit);
  }

  /** Added unfolds by one message. */
  lemma {:induction false} AddedStep(outcomes: seq<ReadOutcome>, k: nat, env: Env)
    requires k < |outcomes| && outcomes[k].Msg?
    ensures Added(outcomes, k, env) ==
      (match CentsOf(outcomes[k].value, env) case None => [] case Some(c) => [c as nat]) + Added(outcomes, k + 1, env)
  {
  }

  /** The additions in the trace are exactly the cents of the decodable messages read
      before the first read error, in read order. */
  lemma {:induction false} AdditionsAreDecodedCents(outcomes: seq<ReadOutcome>, k: nat, env: Env)
    requires k <= |outcomes|
    ensures Filter(Run(outcomes, k, env), IsAdd) == AddActions(Added(outcomes, k, env))
    decreases |outcomes| - k
  {
    if k == |outcomes| {
    } else if outcomes[k].ReadErr? {
      FilterCons(Stop, [], IsAdd);
    } else {
      var m := outcomes[k];
      RunStep(outcomes, k, env);
      HandleFilters(m.offset, m.value, env);
      FilterAppend(Handle(m.offset, m.value, env), Run(outcomes, k + 1, env), IsAdd);
      AdditionsAreDecodedCents(outcomes, k + 1, env);
      AddedStep(outcomes, k, env);
      var s := Added(outcomes, k + 1, env);
      match CentsOf(m.value, env)
      case None =>
      case Some(c) =>
        assert ([c as nat] + s)[0] == c as nat && ([c as nat] + s)[1..] == s;
    }
  }

  function AddActions(s: seq<nat>): (t: seq<Action>)
    ensures |t| == |s|
    ensures forall i | 0 <= i < |s| :: t[i] == Add(s[i])
  {
    if s == [] then [] else [Add(s[0])] + AddActions(s[1..])
  }

  /** Only decodable messages are committed, each once, in read order. */
  lemma {:induction false} CommitsOnlyDecoded(outcomes: seq<ReadOutcome>, k: nat, env: Env)
    requires k <= |outcomes|
    ensures Filter(Run(outcomes, k, env), IsCommit) == Commits(Delivered(outcomes, k), env)
    decreases |outcomes| - k
  {
    if k == |outcomes| {
    } else if outcomes[k].ReadErr? {
      FilterCons(Stop, [], IsCommit);
    } else {
      var m := outcomes[k];
      RunStep(outcomes, k, env);
      HandleFilters(m.offset, m.value, env);
      FilterAppend(Handle(m.offset, m.value, env), Run(outcomes, k + 1, env), IsCommit);
      CommitsOnlyDecoded(outcomes, k + 1, env);
      var ms := Delivered(outcomes, k + 1);
      assert Delivered(outcomes, k) == [m] + ms;
      assert ([m] + ms)[0] == m && ([m] + ms)[1..] == ms;
    }
  }

  /** Every message read before the first read error is read once, in read order. */
  lemma {:induction false} EachDeliveredReadOnce(outcomes: seq<ReadOutcome>, k: nat, env: Env)
    requires k <= |outcomes|
    ensures Filter(Run(outcomes, k, env), IsRead) == ReadActions(Offsets(Delivered(outcomes, k)))
    decreases |outcomes| - k
  {
    if k == |outcomes| {
    } else if outcomes[k].ReadErr? {
      FilterCons(Stop, [], IsRead);
    } else {
      var m := outcomes[k];
      RunStep(outcomes, k, env);
      HandleFilters(m.offset, m.value, env);
      FilterAppend(Handle(m.offset, m.value, env), Run(outcomes, k + 1, env), IsRead);
      EachDeliveredReadOnce(outcomes, k + 1, env);
      var ms := Delivered(outcomes, k + 1);
      assert Delivered(outcomes, k) == [m] + ms;
      assert ([m] + ms)[0] == m && ([m] + ms)[1..] == ms;
      assert Offsets([m] + ms) == [m.offset] + Offsets(ms);
      assert ([m.offset] + Offsets(ms))[1..] == Offsets(ms);
    }
  }

  /** The loop returns only on a read error: an undecodable message or a failed commit
      does not end it. */
  lemma {:induction false} StopOnlyOnReadError(outcomes: seq<ReadOutcome>, k: nat, env: Env)
    requires k <= |outcomes|
    ensures Stop in Run(outcomes, k, env) <==> ReadFailsFrom(outcomes, k)
    decreases |outcomes| - k
  {
    if k < |outcomes| {
      ReadFailsFromStep(outcomes, k);
      if outcomes[k].ReadErr? {
        assert Run(outcomes, k, env) == [Stop];
      } else {
        StopOnlyOnReadError(outcomes, k + 1, env);
        var m := outcomes[k];
        RunStep(outcomes, k, env);
        HandleEnds(m.offset, m.value, env);
        StopAfter(Handle(m.offset, m.value, env), Run(outcomes, k + 1, env));
      }
    }
  }

  /** Commits expected for a sequence of messages: one for each that decodes. */
  function Commits(ms: seq<ReadOutcome>, env: Env): seq<Action>
    requires forall m | m in ms :: m.Msg?
  {
    if ms == [] then []
    else (if CentsOf(ms[0].value, env).Some? then [Commit(ms[0].offset)] else []) + Commits(ms[1..], env)
  }

  /** A read error returns from the loop: nothing after it is added or committed. */
  lemma {:induction false} ReadErrorEndsRun(outcomes: seq<ReadOutcome>, k: nat, e: nat, env: Env)
    requires k <= e < |outcomes| && outcomes[e].ReadErr?
    requires forall j | k <= j < e :: outcomes[j].Msg?
    ensures Run(outcomes, k, env) == Run(outcomes[..e], k, env) + [Stop]
    ensures Added(outcomes, k, env) == Added(outcomes[..e], k, env)
    ensures Stop !in Run(outcomes[..e], k, env)
    decreases e - k
  {
    if k < e {
      ReadErrorEndsRun(outcomes, k + 1, e, env);
      var m := outcomes[k];
      assert outcomes[..e][k] == m;
      RunStep(outcomes, k, env);
      RunStep(outcomes[..e], k, env);
      AddedStep(outcomes, k, env);
      AddedStep(outcomes[..e], k, env);
      HandleEnds(m.offset, m.value, env);
      var h := Handle(m.offset, m.value, env);
      AppendAssoc(h, Run(outcomes[..e], k + 1, env), [Stop]);
      StopAfter(h, Run(outcomes[..e], k + 1, env));
    }
  }

  /** The counter after the first n read outcomes, when none of them is a read error. */
  function CounterAfter(outcomes: seq<ReadOutcome>, n: nat, env: Env): nat
    requires n <= |outcomes|
  {
    Sum(Added(outcomes[..n], 0, env)) % Modulus
  }

  /** Without overflow the counter never decreases from one iteration to a later one. */
  lemma {:induction false} CounterNonDecreasing(outcomes: seq<ReadOutcome>, i: nat, n: nat, env: Env)
    requires i <= n <= |outcomes|
    requires Sum(Added(outcomes[..n], 0, env)) < Modulus
    ensures CounterAfter(outcomes, i, env) <= CounterAfter(outcomes, n, env)
  {
    var pre, all := outcomes[..i], outcomes[..n];
    assert pre == all[..i];
    AddedOfPrefix(all, 0, i, env);
    var rest := Added(all, 0, env)[|Added(pre, 0, env)|..];
    assert Added(all, 0, env) == Added(pre, 0, env) + rest;
    SumAppend(Added(pre, 0, env), rest);
  }

  /** What is added within a prefix of the input is a prefix of what is added within all of it. */
  lemma {:induction false} AddedOfPrefix(outcomes: seq<ReadOutcome>, k: nat, n: nat, env: Env)
    requires k <= n <= |outcomes|
    ensures Added(outcomes[..n], k, env) <= Added(outcomes, k, env)
    decreases n - k
  {
    if k < n {
      assert outcomes[..n][k] == outcomes[k];
      AddedOfPrefix(outcomes, k + 1, n, env);
    }
  }

  lemma {:induction false} SumAppend(s: seq<nat>, t: seq<nat>)
    ensures Sum(s + t) == Sum(s) + Sum(t)
  {
    if s == [] {
      assert s + t == t;
    } else {
      assert (s + t)[0] == s[0];
      assert (s + t)[1..] == s[1..] + t;
      SumAppend(s[1..], t);
    }
  }

  /** The loop as written reads with ReadMessage, which commits before returning: an
      undecodable message is committed after all, and a decoded one is committed before
      its cents are added; when that commit fails, ReadMessage returns an error and the
      loop returns (line 59) without adding anything. */
  function HandleAsWritten(offset: int, value: GoBytes, commitOk: bool, env: Env): seq<Action> {
    if commitOk then ReadMessage(offset, true) + Body(offset, value, env)
    else ReadMessage(offset, false)
  }

  lemma {:induction false} CommitBeforeAddAsWritten(offset: int, value: GoBytes, commitOk: bool, env: Env)
    ensures var t := HandleAsWritten(offset, value, commitOk, env);
      && t[1] == Commit(offset)
      && (commitOk && CentsOf(value, env).None? ==> Filter(t, IsCommit) == [Commit(offset)])
      && (commitOk && CentsOf(value, env).Some? ==> t[2].Add?)
      && (!commitOk ==> t[|t| - 1] == Stop && Filter(t, IsAdd) == [])
  {
    var r, c := Read(offset), Commit(offset);
    if !commitOk {
      Filter3(r, c, Stop, IsAdd);
    } else if CentsOf(value, env).None? {
      assert HandleAsWritten(offset, value, commitOk, env) == [r, c];
      Filter2(r, c, IsCommit);
    }
  }

  /** The reporter's main loop; totalCents is its counter. */
  method Report(outcomes: seq<ReadOutcome>, env: Env) returns (totalCents: uint64, trace: seq<Action>)
    ensures trace == Run(outcomes, 0, env)
    ensures totalCents as int == Sum(Added(outcomes, 0, env)) % Modulus
  {
    totalCents := 0;
    trace := [];
    ghost var whole := Run(outcomes, 0, env);
    ghost var total := Sum(Added(outcomes, 0, env));
    ghost var sum: nat := 0;
    var k := 0;
    while k < |outcomes|
      invariant k <= |outcomes|
      invariant trace + Run(outcomes, k, env) == whole
      invariant sum + Sum(Added(outcomes, k, env)) == total
      invariant totalCents as int == sum % Modulus
    {
      match outcomes[k]
      case ReadErr =>
        assert Run(outcomes, k, env) == [Stop];
        assert Added(outcomes, k, env) == [];
        trace := trace + [Stop];
        return;
      case Msg(offset, value) =>
        SumStep(outcomes, k, env);
        AddKeepsModulus(sum, totalCents, value, env);
        var step;
        step, totalCents := HandleMessage(offset, value, totalCents, env);
        sum := sum + Gain(value, env);
        Advance(trace, outcomes, k, env, whole);
        trace := trace + step;
        k := k + 1;
    }
  }

  /** The body of the loop for one message: its actions, and the counter after it. */
  method HandleMessage(offset: int, value: GoBytes, totalCents: uint64, env: Env) returns (step: seq<Action>, after: uint64)
    ensures step == Handle(offset, value, env)
    ensures after == if CentsOf(value, env).Some? then AddWrapping(totalCents, CentsOf(value, env).value) else totalCents
  {
    step := [Read(offset)];
    after := totalCents;
    var decoded := env.decode(value);
    if decoded.Some? {
      var cents := env.cents(decoded.value.tax);
      after := AddWrapping(totalCents, cents);
      step := step + [Add(cents as nat), Commit(offset)];
    }
  }

  /** The cents one message adds to the counter: none when its value does not decode. */
  function Gain(value: GoBytes, env: Env): nat {
    match CentsOf(value, env)
    case None => 0
    case Some(c) => c as nat
  }

  /** One decoded message adds its cents to the sum of what the loop adds; an undecodable
      one adds nothing. */
  lemma {:induction false} SumStep(outcomes: seq<ReadOutcome>, k: nat, env: Env)
    requires k < |outcomes| && outcomes[k].Msg?
    ensures Sum(Added(outcomes, k, env)) == Gain(outcomes[k].value, env) + Sum(Added(outcomes, k + 1, env))
  {
    AddedStep(outcomes, k, env);
    if CentsOf(outcomes[k].value, env).Some? {
      var c := CentsOf(outcomes[k].value, env).value;
      assert ([c as nat] + Added(outcomes, k + 1, env))[1..] == Added(outcomes, k + 1, env);
    }
  }

  /** The wrapping counter stays the sum of what was added, modulo 2^64. */
  lemma {:induction false} AddKeepsModulus(sum: nat, total: uint64, value: GoBytes, env: Env)
    requires total as int == sum % Modulus
    ensures (if CentsOf(value, env).Some? then AddWrapping(total, CentsOf(value, env).value) else total) as int
      == (sum + Gain(value, env)) % Modulus
  {
  }

  /** One iteration keeps the loop invariant: what it appends is that message's Handle. */
  lemma {:induction false} Advance(before: seq<Action>, outcomes: seq<ReadOutcome>, k: nat, env: Env, whole: seq<Action>)
    requires k < |outcomes| && outcomes[k].Msg?
    requires before + Run(outcomes, k, env) == whole
    ensures before + Handle(outcomes[k].offset, outcomes[k].value, env) + Run(outcomes, k + 1, env) == whole
  {
    var h := Handle(outcomes[k].offset, outcomes[k].value, env);
    RunStep(outcomes, k, env);
    AppendAssoc(before, h, Run(outcomes, k + 1, env));
  }

}
