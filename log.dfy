/** The vocabulary shared by the consumer loops: what a read returns, the actions a loop
    issues (its trace), and the projections of a trace that the loop properties talk about. */
module Log {
  import opened Wire
  import opened Dlq

  /** The outcome of one read from the log: a message, whose value is nil for a null record,
      or an error that ends the loop (a cancelled context, a closed reader, a lost
      connection, an interrupt). */
  datatype ReadOutcome = Msg(offset: int, value: GoBytes) | ReadErr

  /** One step a loop takes, in the order it takes them. */
  datatype Action =
    | Read(offset: int)                                        // a message was fetched
    | Write(topic: Bytes, key: Bytes, value: Bytes, ok: bool)  // a WriteMessages call and its result
    | DlqSend(fm: FailedMessage)                               // a dlq.Send call
    | Add(cents: nat)                                          // the reporter adds to its counter
    | Prompt(answer: string)                                   // the viewer asked and got an answer
    | Publish(topic: Bytes, pubKey: Option<Bytes>, value: Bytes)  // the viewer handed a record to its producer
    | Commit(offset: int)                                      // a commit call, whatever its result
    | Stop                                                     // the loop ended

  predicate IsRead(a: Action) { a.Read? }
  predicate IsCommit(a: Action) { a.Commit? }
  /** Read and commit actions: the offset bookkeeping of a trace. */
  predicate IsBookkeeping(a: Action) { a.Read? || a.Commit? }
  predicate IsWrite(a: Action) { a.Write? }
  predicate IsDlqSend(a: Action) { a.DlqSend? }
  predicate IsAdd(a: Action) { a.Add? }
  predicate IsPrompt(a: Action) { a.Prompt? }
  predicate IsPublish(a: Action) { a.Publish? }

  /** The actions of `t` that satisfy `p`, in trace order. */
  function Filter(t: seq<Action>, p: Action -> bool): (r: seq<Action>)
    ensures |r| <= |t|
  {
    if t == [] then [] else (if p(t[0]) then [t[0]] else []) + Filter(t[1..], p)
  }

  /** Appending to a trace is associative; loop proofs use it to move one iteration's
      actions from the rest of the run onto the trace so far. */
  lemma {:induction false} AppendAssoc(a: seq<Action>, b: seq<Action>, c: seq<Action>)
    ensures a + (b + c) == (a + b) + c
  {
    forall i | 0 <= i < |a| + |b| + |c|
      ensures (a + (b + c))[i] == ((a + b) + c)[i]
    {
      if i < |a| {
      } else if i < |a| + |b| {
      } else {
      }
    }
  }

  lemma {:induction false} FilterAppend(s: seq<Action>, t: seq<Action>, p: Action -> bool)
    ensures Filter(s + t, p) == Filter(s, p) + Filter(t, p)
  {
    if s == [] {
      assert s + t == t;
    } else {
      var u := s + t;
      assert u[0] == s[0];
      assert u[1..] == s[1..] + t;
      FilterAppend(s[1..], t, p);
      assert Filter(u, p) == Keep(s[0], p) + Filter(s[1..] + t, p);
      assert Filter(s, p) == Keep(s[0], p) + Filter(s[1..], p);
    }
  }

  lemma {:induction false} FilterCons(a: Action, t: seq<Action>, p: Action -> bool)
    ensures Filter([a] + t, p) == (if p(a) then [a] else []) + Filter(t, p)
  {
    assert ([a] + t)[1..] == t;
  }

  lemma {:induction false} FilterMember(t: seq<Action>, p: Action -> bool, a: Action)
    requires a in t && p(a)
    ensures a in Filter(t, p)
  {
    if t[0] != a {
      FilterMember(t[1..], p, a);
    }
  }

  function Keep(a: Action, p: Action -> bool): seq<Action> {
    if p(a) then [a] else []
  }

  lemma {:induction false} Filter2(a: Action, b: Action, p: Action -> bool)
    ensures Filter([a, b], p) == Keep(a, p) + Keep(b, p)
  {
    assert [a, b][1..] == [b];
    assert [b][1..] == [];
  }

  lemma {:induction false} Filter3(a: Action, b: Action, c: Action, p: Action -> bool)
    ensures Filter([a, b, c], p) == Keep(a, p) + Keep(b, p) + Keep(c, p)
  {
    assert [a, b, c][1..] == [b, c];
    Filter2(b, c, p);
  }

  lemma {:induction false} Filter4(a: Action, b: Action, c: Action, d: Action, p: Action -> bool)
    ensures Filter([a, b, c, d], p) == Keep(a, p) + Keep(b, p) + Keep(c, p) + Keep(d, p)
  {
    assert [a, b, c, d][1..] == [b, c, d];
    Filter3(b, c, d, p);
  }

  /** The messages a loop gets before its first read error, in read order. */
  function Delivered(outcomes: seq<ReadOutcome>, k: nat): (ms: seq<ReadOutcome>)
    requires k <= |outcomes|
    ensures |ms| <= |outcomes| - k
    ensures forall m | m in ms :: m.Msg? && m in outcomes[k..]
    decreases |outcomes| - k
  {
    if k == |outcomes| || outcomes[k].ReadErr? then []
    else [outcomes[k]] + Delivered(outcomes, k + 1)
  }

  /** Some read at or after position k fails. */
  predicate ReadFailsFrom(outcomes: seq<ReadOutcome>, k: nat)
    requires k <= |outcomes|
  {
    exists e | k <= e < |outcomes| :: outcomes[e].ReadErr?
  }

  lemma {:induction false} ReadFailsFromStep(outcomes: seq<ReadOutcome>, k: nat)
    requires k < |outcomes|
    ensures outcomes[k].ReadErr? ==> ReadFailsFrom(outcomes, k)
    ensures outcomes[k].Msg? ==> (ReadFailsFrom(outcomes, k) <==> ReadFailsFrom(outcomes, k + 1))
  {
    if outcomes[k].Msg? && ReadFailsFrom(outcomes, k) {
      var e :| k <= e < |outcomes| && outcomes[e].ReadErr?;
      assert e != k;
    }
  }

  /** Actions without Stop in front of a run do not change whether or where it stops. */
  lemma {:induction false} StopAfter(h: seq<Action>, rest: seq<Action>)
    requires Stop !in h
    ensures Stop in h + rest <==> Stop in rest
    ensures Stop in rest && rest[|rest| - 1] == Stop ==> (h + rest)[|h + rest| - 1] == Stop
  {
  }

  /** The offsets of a sequence of messages. */
  function Offsets(ms: seq<ReadOutcome>): (os: seq<int>)
    requires forall m | m in ms :: m.Msg?
    ensures |os| == |ms|
    ensures forall i | 0 <= i < |ms| :: os[i] == ms[i].offset
  {
    if ms == [] then [] else [ms[0].offset] + Offsets(ms[1..])
  }

  /** The bookkeeping of a loop that commits every message it reads, right after handling it:
      read, commit, read, commit, ... */
  function Pairs(os: seq<int>): (t: seq<Action>)
    ensures |t| == 2 * |os|
    ensures forall i | 0 <= i < |os| :: t[2 * i] == Read(os[i]) && t[2 * i + 1] == Commit(os[i])
  {
    if os == [] then [] else [Read(os[0]), Commit(os[0])] + Pairs(os[1..])
  }

  /** One fetch per offset, in order: the reads of a loop that fetches each message once. */
  function ReadActions(os: seq<int>): (t: seq<Action>)
    ensures |t| == |os| && forall i | 0 <= i < |os| :: t[i] == Read(os[i])
  {
    if os == [] then [] else FetchMessage(os[0]) + ReadActions(os[1..])
  }

  /** kafka-go's Reader.ReadMessage for a reader with a GroupID and CommitInterval 0, as the
      Go loops call it: it fetches the message and commits its offset before returning. When
      that commit fails it returns the error instead of the message, and every Go loop then
      ends as on a read error. */
  function ReadMessage(offset: int, commitOk: bool): (t: seq<Action>)
    ensures |t| >= 2 && t[..2] == [Read(offset), Commit(offset)]
    ensures Stop in t <==> !commitOk
  {
    if commitOk then [Read(offset), Commit(offset)] else [Read(offset), Commit(offset), Stop]
  }

  /** Reader.FetchMessage: it fetches the message and leaves the commit to the caller. */
  function FetchMessage(offset: int): seq<Action> {
    [Read(offset)]
  }
}
