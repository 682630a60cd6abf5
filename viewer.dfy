/** dlq_viewer.py: show each DLQ envelope, ask the operator, republish the original payload
    to `orders` on "r", commit. */
module Viewer {
  import opened Wire
  import opened Json
  import opened Dlq
  import opened Log

  /** ORIGINAL_TOPIC, where a retried payload is republished. */
  const OriginalTopic: Bytes := Ascii("orders")

  /** Python's str.isspace, which is what str.strip() removes. */
  predicate IsSpace(c: char) {
    || ('\t' <= c <= '\r') || ('\U{1C}' <= c <= '\U{1F}') || c == ' '
    || c == '\U{85}' || c == '\U{A0}' || c == '\U{1680}' || ('\U{2000}' <= c <= '\U{200A}')
    || c == '\U{2028}' || c == '\U{2029}' || c == '\U{202F}' || c == '\U{205F}' || c == '\U{3000}'
  }

  /** str.lstrip(): drop the leading whitespace. */
  function TrimStart(s: string): string {
    if s != [] && IsSpace(s[0]) then TrimStart(s[1..]) else s
  }

  /** str.rstrip(): drop the trailing whitespace. */
  function TrimEnd(s: string): string {
    if s != [] && IsSpace(s[|s| - 1]) then TrimEnd(s[..|s| - 1]) else s
  }

  function Strip(s: string): string {
    TrimEnd(TrimStart(s))
  }

  /** lstrip leaves a suffix of its input that does not start with whitespace, and what it
      dropped is all whitespace. */
  lemma {:induction false} TrimStartSpec(s: string)
    ensures var r := TrimStart(s);
      && |r| <= |s| && r == s[|s| - |r|..]
      && (forall i | 0 <= i < |s| - |r| :: IsSpace(s[i]))
      && (r != [] ==> !IsSpace(r[0]))
  {
    if s != [] && IsSpace(s[0]) {
      var t := s[1..];
      TrimStartSpec(t);
      var r := TrimStart(t);
      assert TrimStart(s) == r;
      assert t[|t| - |r|..] == s[|s| - |r|..];
      forall i | 0 <= i < |s| - |r|
        ensures IsSpace(s[i])
      {
        if i > 0 {
          assert s[i] == t[i - 1];
        }
      }
    }
  }

  /** rstrip leaves a prefix of its input that does not end with whitespace, and what it
      dropped is all whitespace. */
  lemma {:induction false} TrimEndSpec(s: string)
    ensures var r := TrimEnd(s);
      && |r| <= |s| && r == s[..|r|]
      && (forall i | |r| <= i < |s| :: IsSpace(s[i]))
      && (r != [] ==> !IsSpace(r[|r| - 1]))
  {
    if s != [] && IsSpace(s[|s| - 1]) {
      var t := s[..|s| - 1];
      TrimEndSpec(t);
      var r := TrimEnd(t);
      assert TrimEnd(s) == r;
      assert t[..|r|] == s[..|r|];
      forall i | |r| <= i < |s|
        ensures IsSpace(s[i])
      {
        if i < |s| - 1 {
          assert s[i] == t[i];
        }
      }
    }
  }

  /** str.lower() on one character, for the Latin capitals; no other character lowers to "r". */
  function LowerChar(c: char): char {
    if 'A' <= c <= 'Z' then (c as int + 32) as char else c
  }

  function Lower(s: string): string {
    if s == [] then [] else [LowerChar(s[0])] + Lower(s[1..])
  }

  /** lower() works character by character. */
  lemma {:induction false} LowerSpec(s: string)
    ensures |Lower(s)| == |s| && forall i | 0 <= i < |s| :: Lower(s)[i] == LowerChar(s[i])
  {
    if s != [] {
      LowerSpec(s[1..]);
    }
  }

  /** The operator asked for a retry: `ans.strip().lower() == "r"`. */
  predicate IsRetry(answer: string) {
    Lower(Strip(answer)) == "r"
  }

  /** An answer asks for a retry exactly when it is one "r" or "R" with only whitespace
      around it. */
  lemma {:induction false} RetryIff(answer: string)
    ensures IsRetry(answer) <==>
      exists i | 0 <= i < |answer| ::
        && (answer[i] == 'r' || answer[i] == 'R')
        && forall j | 0 <= j < |answer| && j != i :: IsSpace(answer[j])
  {
    if IsRetry(answer) {
      RetryOnlyIfLone(answer);
    }
    if exists i | 0 <= i < |answer| ::
         && (answer[i] == 'r' || answer[i] == 'R')
         && forall j | 0 <= j < |answer| && j != i :: IsSpace(answer[j])
    {
      var i :| 0 <= i < |answer|
         && (answer[i] == 'r' || answer[i] == 'R')
         && forall j | 0 <= j < |answer| && j != i :: IsSpace(answer[j]);
      RetryIfLone(answer, i);
    }
  }

  lemma {:induction false} RetryOnlyIfLone(answer: string)
    requires IsRetry(answer)
    ensures exists i | 0 <= i < |answer| ::
        && (answer[i] == 'r' || answer[i] == 'R')
        && forall j | 0 <= j < |answer| && j != i :: IsSpace(answer[j])
  {
    var t := TrimStart(answer);
    var n := |answer| - |t|;
    var u := TrimEnd(t);
    TrimStartSpec(answer);
    TrimEndSpec(t);
    LowerSpec(u);
    assert Strip(answer) == u;
    assert |u| == 1 && LowerChar(u[0]) == 'r';
    assert answer[n] == u[0];
    forall j | 0 <= j < |answer| && j != n
      ensures IsSpace(answer[j])
    {
      if j > n {
        assert answer[j] == t[j - n];
      }
    }
  }

  lemma {:induction false} RetryIfLone(answer: string, i: nat)
    requires i < |answer| && (answer[i] == 'r' || answer[i] == 'R')
    requires forall j | 0 <= j < |answer| && j != i :: IsSpace(answer[j])
    ensures IsRetry(answer)
  {
    var t := TrimStart(answer);
    var n := |answer| - |t|;
    var u := TrimEnd(t);
    TrimStartSpec(answer);
    TrimEndSpec(t);
    LowerSpec(u);
    assert Strip(answer) == u;
    assert !IsSpace(answer[i]);
    assert n <= i;
    assert t[0] == answer[n];
    assert n == i;
    assert u != [];
    assert u[|u| - 1] == answer[i + |u| - 1];
    assert |u| == 1;
    assert u == [answer[i]];
    assert Lower(u) == [LowerChar(answer[i])];
  }

  /** Two non-blank characters in an answer make it something other than a retry. */
  lemma {:induction false} NotRetryIfTwoSolid(answer: string, i0: nat, i1: nat)
    requires i0 < |answer| && i1 < |answer| && i0 != i1
    requires !IsSpace(answer[i0]) && !IsSpace(answer[i1])
    ensures !IsRetry(answer)
  {
    RetryIff(answer);
    forall i | 0 <= i < |answer|
      ensures !((answer[i] == 'r' || answer[i] == 'R') && forall j | 0 <= j < |answer| && j != i :: IsSpace(answer[j]))
    {
      var j := if i == i0 then i1 else i0;
      assert j != i && !IsSpace(answer[j]);
    }
  }

  lemma {:induction false} RetryExamples()
    ensures IsRetry(" R ") && IsRetry("\tr\n")
    ensures !IsRetry("") && !IsRetry("rr") && !IsRetry("retry")
  {
    RetryIfLone(" R ", 1);
    RetryIfLone("\tr\n", 1);
    RetryIff("");
    NotRetryIfTwoSolid("rr", 0, 1);
    NotRetryIfTwoSolid("retry", 0, 1);
  }

  /** A record key as the viewer hands it to producer.send. */
  datatype Key = StrKey(s: string) | BytesKey(b: Bytes)

  /** The producer's key_serializer, `lambda k: k.encode() if k else None`: an empty key
      becomes no key, a str is UTF-8 encoded, and a non-empty bytes key raises
      AttributeError, since bytes has no encode method. */
  function SerializeKey(k: Key): Result<Option<Bytes>> {
    match k
    case StrKey(s) => if s == [] then Ok(None) else Ok(Some(Utf8(s)))
    case BytesKey(b) => if b == [] then Ok(None) else Err
  }

  /** The key the viewer passes as written: `key=b"retry"`. */
  const RetryKeyAsWritten: Key := BytesKey(Ascii("retry"))

  /** The key the serializer accepts, and the one the rest of the model uses: "retry". */
  const RetryKey: Key := StrKey("retry")

  /** How `json.loads(msg.value.decode())` turns out: an envelope, an exception the handler
      catches (the record is then committed unshown), or, for a null record's value None,
      an exception the handler itself repeats: decode is missing on None, and the handler's
      `msg.value[:200]` then raises TypeError, which nothing catches. */
  datatype ParseOutcome = Parsed(envelope: Json) | Rejected | Crashed

  function ParseValue(v: GoBytes, c: Codec): ParseOutcome {
    match v
    case Nil => Crashed
    case NonNil(b) => if c.parse(b).Some? then Parsed(c.parse(b).value) else Rejected
  }

  /** base64.b64decode on a JSON value: only text can be decoded; any other value raises. */
  function DecodePayload(v: Json, c: Codec): Option<Bytes> {
    if v.JString? then c.b64decode(v.text) else None
  }

  /** pretty_print raises for an envelope that is not a dict (it has no .get), and for one
      whose payload is present but does not decode (only KeyError is caught there). */
  predicate PrettyPrintRaises(envelope: Json, c: Codec) {
    || !envelope.JObject?
    || ("payload" in envelope.fields && DecodePayload(envelope.fields["payload"], c).None?)
  }

  /** The retry block: decode envelope["payload"], send it to the original topic with the
      given key; a missing payload, a bad payload, a key the serializer rejects, or a send
      that raises before queuing the record (`queued` false) raises inside the try, is
      caught, and nothing is sent. */
  function Republish(fields: map<string, Json>, key: Key, queued: bool, c: Codec): seq<Action> {
    if "payload" !in fields then []
    else match DecodePayload(fields["payload"], c)
      case None => []
      case Some(raw) =>
        match SerializeKey(key)
        case Err => []
        case Ok(k) => if queued then [Publish(OriginalTopic, k, raw)] else []
  }

  /** The payload bytes the retry block would send for an envelope, if it has one that
      decodes. */
  function RetryPayload(fields: map<string, Json>, c: Codec): Option<Bytes> {
    if "payload" in fields then DecodePayload(fields["payload"], c) else None
  }

  /** As written, the retry never sends anything: the bytes key makes the serializer raise. */
  lemma {:induction false} RetryNeverSentAsWritten(fields: map<string, Json>, queued: bool, c: Codec)
    ensures Republish(fields, RetryKeyAsWritten, queued, c) == []
  {
    assert Ascii("retry") != [];
  }

  /** Everything the loop gets from outside, indexed by the read position of the record
      concerned: the codecs; whether producer.send queues the retried record (it can raise
      first, for instance KafkaTimeoutError when metadata or buffer space does not arrive
      within max_block_ms, which the retry block catches); and whether each commit succeeds
      (consumer.commit() raises on failure, which nothing catches). */
  datatype Env = Env(codec: Codec, sendOk: nat -> bool, commitOk: nat -> bool)

  /** A record whose envelope was shown and answered: the answer, the retry when asked
      for, the commit. */
  function Answered(offset: int, fields: map<string, Json>, answer: string, queued: bool, c: Codec): seq<Action> {
    [Read(offset), Prompt(answer)]
      + (if IsRetry(answer) then Republish(fields, RetryKey, queued, c) else [])
      + [Commit(offset)]
  }

  /** An answered record is read once and committed once, last, after the retry decision
      whatever its outcome; it is republished exactly when the answer is a retry, the
      payload decodes and send queues it, and then once, to "orders", keyed "retry". */
  lemma {:induction false} AnsweredShape(offset: int, fields: map<string, Json>, answer: string, queued: bool, c: Codec)
    ensures var t := Answered(offset, fields, answer, queued, c);
      && t[|t| - 1] == Commit(offset) && Stop !in t
      && Filter(t, IsBookkeeping) == [Read(offset), Commit(offset)]
      && Filter(t, IsPrompt) == [Prompt(answer)]
      && Filter(t, IsPublish) ==
           if IsRetry(answer) && queued && RetryPayload(fields, c).Some?
           then [Publish(OriginalTopic, Some(Ascii("retry")), RetryPayload(fields, c).value)]
           else []
  {
    var r, q, m := Read(offset), Prompt(answer), Commit(offset);
    var mid := if IsRetry(answer) then Republish(fields, RetryKey, queued, c) else [];
    assert Answered(offset, fields, answer, queued, c) == [r, q] + mid + [m];
    RepublishShape(fields, queued, c);
    if mid == [] {
      AnsweredWithout(r, q, m);
    } else {
      AnsweredWith(r, q, mid[0], m);
      assert [r, q] + mid + [m] == [r, q, mid[0], m];
    }
  }

  /** The retry block sends at most one record, and that one to the original topic, keyed
      "retry", carrying the decoded payload; it sends nothing exactly when the payload is
      missing or does not decode, or send raises. */
  lemma {:induction false} RepublishShape(fields: map<string, Json>, queued: bool, c: Codec)
    ensures var s := Republish(fields, RetryKey, queued, c);
      && (s == [] <==> "payload" !in fields || DecodePayload(fields["payload"], c).None? || !queued)
      && (s != [] ==> s == [Publish(OriginalTopic, Some(Ascii("retry")), DecodePayload(fields["payload"], c).value)])
  {
    Utf8OfAscii("retry");
  }

  lemma {:induction false} AnsweredWithout(r: Action, q: Action, m: Action)
    requires r.Read? && q.Prompt? && m.Commit?
    ensures var t := [r, q] + [] + [m];
      && Stop !in t
      && Filter(t, IsBookkeeping) == [r, m] && Filter(t, IsPrompt) == [q] && Filter(t, IsPublish) == []
  {
    assert [r, q] + [] + [m] == [r, q, m];
    Filter3(r, q, m, IsBookkeeping);
    Filter3(r, q, m, IsPrompt);
    Filter3(r, q, m, IsPublish);
  }

  lemma {:induction false} AnsweredWith(r: Action, q: Action, s: Action, m: Action)
    requires r.Read? && q.Prompt? && s.Publish? && m.Commit?
    ensures var t := [r, q, s, m];
      && Stop !in t
      && Filter(t, IsBookkeeping) == [r, m] && Filter(t, IsPrompt) == [q] && Filter(t, IsPublish) == [s]
  {
    Filter4(r, q, s, m, IsBookkeeping);
    Filter4(r, q, s, m, IsPrompt);
    Filter4(r, q, s, m, IsPublish);
  }

  /** What the loop does with one record: the actions it takes, and the answer position it
      goes on from, or None when the run ends on this record. */
  datatype Step = Step(actions: seq<Action>, next: Option<nat>)

  /** The end of an iteration that reached consumer.commit(): a failed commit raises, and
      nothing catches it. */
  function AfterCommit(h: seq<Action>, ok: bool, a: nat): Step {
    if ok then Step(h, Some(a)) else Step(h + [Stop], None)
  }

  /** The loop got through the record r to its commit: its value did not parse, or its
      envelope was shown and answered. */
  predicate ReachesCommit(r: ReadOutcome, answers: seq<string>, a: nat, env: Env) {
    r.Msg? && (ParseValue(r.value, env.codec).Rejected? || Shown(r, answers, a, env))
  }

  /** The loop showed the envelope in r and read the answer at position a. */
  predicate Shown(r: ReadOutcome, answers: seq<string>, a: nat, env: Env) {
    && r.Msg? && ParseValue(r.value, env.codec).Parsed?
    && !PrettyPrintRaises(ParseValue(r.value, env.codec).envelope, env.codec) && a < |answers|
  }

  /** The record read at position k, with the answers from position a on. A read error ends
      the run; a value that does not parse is committed unshown, and a null one ends the run
      before the commit; an envelope pretty_print
      cannot show, or a missing answer (input() raises EOFError), ends the run before the
      commit; a failed commit ends it after. */
  function StepAt(r: ReadOutcome, k: nat, answers: seq<string>, a: nat, env: Env): (s: Step)
    requires a <= |answers|
    ensures s.next.Some? ==> a <= s.next.value <= |answers|
  {
    match r
    case ReadErr => Step([Stop], None)
    case Msg(offset, value) =>
      match ParseValue(value, env.codec)
      case Crashed => Step([Read(offset), Stop], None)
      case Rejected => AfterCommit([Read(offset), Commit(offset)], env.commitOk(k), a)
      case Parsed(envelope) =>
        if PrettyPrintRaises(envelope, env.codec) || a == |answers| then Step([Read(offset), Stop], None)
        else AfterCommit(Answered(offset, envelope.fields, answers[a], env.sendOk(k), env.codec), env.commitOk(k), a + 1)
  }

  /** The actions of the viewer from the record read at position k on, with the answers
      from position a on. */
  function Run(records: seq<ReadOutcome>, k: nat, answers: seq<string>, a: nat, env: Env): seq<Action>
    requires k <= |records| && a <= |answers|
    decreases |records| - k
  {
    if k == |records| then []
    else
      var s := StepAt(records[k], k, answers, a, env);
      s.actions + if s.next.Some? then Run(records, k + 1, answers, s.next.value, env) else []
  }

  /** The actions of an iteration that reached the commit: a failed commit appends Stop, and
      Stop is then the last action and occurs once. */
  lemma {:induction false} AfterCommitFacts(h: seq<Action>, ok: bool, a: nat)
    requires h != [] && Stop !in h
    ensures var s := AfterCommit(h, ok, a);
      && s.actions != []
      && (Stop in s.actions <==> s.next.None?)
      && (Stop in s.actions ==> s.actions[|s.actions| - 1] == Stop && Stop !in s.actions[..|s.actions| - 1])
      && Filter(s.actions, IsBookkeeping) == Filter(h, IsBookkeeping)
      && Filter(s.actions, IsPrompt) == Filter(h, IsPrompt)
      && Filter(s.actions, IsPublish) == Filter(h, IsPublish)
  {
    if !ok {
      assert (h + [Stop])[..|h|] == h;
      FilterAppend(h, [Stop], IsBookkeeping);
      FilterAppend(h, [Stop], IsPrompt);
      FilterAppend(h, [Stop], IsPublish);
      FilterCons(Stop, [], IsBookkeeping);
      FilterCons(Stop, [], IsPrompt);
      FilterCons(Stop, [], IsPublish);
    }
  }

  /** The step of a record whose envelope was shown. */
  lemma {:induction false} ShownStep(r: ReadOutcome, k: nat, answers: seq<string>, a: nat, env: Env)
    requires a <= |answers| && Shown(r, answers, a, env)
    ensures var s := StepAt(r, k, answers, a, env);
      var h := Answered(r.offset, ParseValue(r.value, env.codec).envelope.fields, answers[a], env.sendOk(k), env.codec);
      && s == AfterCommit(h, env.commitOk(k), a + 1)
      && h != [] && Stop !in h
      && Filter(h, IsBookkeeping) == [Read(r.offset), Commit(r.offset)]
      && Filter(h, IsPrompt) == [Prompt(answers[a])]
      && Filter(h, IsPublish) == RetryPublish(r, k, answers, a, env)
      && |Filter(h, IsPublish)| <= 1
      && (Filter(h, IsPublish) != [] ==> IsRetry(answers[a]))
      && forall x | x in Filter(h, IsPublish) :: RepublishOf(r, env.codec, x)
  {
    var e := ParseValue(r.value, env.codec).envelope;
    AnsweredShape(r.offset, e.fields, answers[a], env.sendOk(k), env.codec);
  }

  /** The step of a record whose value did not parse. */
  lemma {:induction false} UnparsedStep(r: ReadOutcome, k: nat, answers: seq<string>, a: nat, env: Env)
    requires a <= |answers| && r.Msg? && ParseValue(r.value, env.codec).Rejected?
    ensures var s := StepAt(r, k, answers, a, env);
      var h := [Read(r.offset), Commit(r.offset)];
      && s == AfterCommit(h, env.commitOk(k), a)
      && h != [] && Stop !in h
      && Filter(h, IsBookkeeping) == h
      && Filter(h, IsPrompt) == []
      && Filter(h, IsPublish) == []
  {
    Filter2(Read(r.offset), Commit(r.offset), IsBookkeeping);
    Filter2(Read(r.offset), Commit(r.offset), IsPrompt);
    Filter2(Read(r.offset), Commit(r.offset), IsPublish);
  }

  /** The step of a null record, or of one whose envelope could not be shown or answered. */
  lemma {:induction false} CrashStep(r: ReadOutcome, k: nat, answers: seq<string>, a: nat, env: Env)
    requires a <= |answers| && r.Msg? && !ParseValue(r.value, env.codec).Rejected? && !Shown(r, answers, a, env)
    ensures var s := StepAt(r, k, answers, a, env);
      && s == Step([Read(r.offset), Stop], None)
      && Filter(s.actions, IsBookkeeping) == [Read(r.offset)]
      && Filter(s.actions, IsPrompt) == []
      && Filter(s.actions, IsPublish) == []
  {
    Filter2(Read(r.offset), Stop, IsBookkeeping);
    Filter2(Read(r.offset), Stop, IsPrompt);
    Filter2(Read(r.offset), Stop, IsPublish);
  }

  /** The step of a read error. */
  lemma {:induction false} ReadErrStep(r: ReadOutcome, k: nat, answers: seq<string>, a: nat, env: Env)
    requires a <= |answers| && r.ReadErr?
    ensures var s := StepAt(r, k, answers, a, env);
      && s == Step([Stop], None)
      && Filter(s.actions, IsBookkeeping) == []
      && Filter(s.actions, IsPrompt) == []
      && Filter(s.actions, IsPublish) == []
  {
    FilterCons(Stop, [], IsBookkeeping);
    FilterCons(Stop, [], IsPrompt);
    FilterCons(Stop, [], IsPublish);
  }

  /** A record ends the run exactly when its actions contain Stop, and then Stop is their
      last action and occurs once. */
  lemma {:induction false} StepStops(r: ReadOutcome, k: nat, answers: seq<string>, a: nat, env: Env)
    requires a <= |answers|
    ensures var s := StepAt(r, k, answers, a, env);
      && s.actions != []
      && (Stop in s.actions <==> s.next.None?)
      && (Stop in s.actions ==> s.actions[|s.actions| - 1] == Stop && Stop !in s.actions[..|s.actions| - 1])
  {
    if r.ReadErr? {
      ReadErrStep(r, k, answers, a, env);
    } else if Shown(r, answers, a, env) {
      ShownStep(r, k, answers, a, env);
      AfterCommitFacts(Answered(r.offset, ParseValue(r.value, env.codec).envelope.fields, answers[a], env.sendOk(k), env.codec), env.commitOk(k), a + 1);
    } else if ParseValue(r.value, env.codec).Rejected? {
      UnparsedStep(r, k, answers, a, env);
      AfterCommitFacts([Read(r.offset), Commit(r.offset)], env.commitOk(k), a);
    } else {
      CrashStep(r, k, answers, a, env);
      assert [Read(r.offset), Stop][..1] == [Read(r.offset)];
    }
  }

  /** A record is read once and committed once, after the read, when the loop gets to its
      commit; a run goes on past a record only after committing it. */
  lemma {:induction false} StepBookkeeping(r: ReadOutcome, k: nat, answers: seq<string>, a: nat, env: Env)
    requires a <= |answers|
    ensures var s := StepAt(r, k, answers, a, env);
      && (r.ReadErr? ==> Filter(s.actions, IsBookkeeping) == [])
      && (ReachesCommit(r, answers, a, env) ==> Filter(s.actions, IsBookkeeping) == [Read(r.offset), Commit(r.offset)])
      && (r.Msg? && !ReachesCommit(r, answers, a, env) ==> Filter(s.actions, IsBookkeeping) == [Read(r.offset)])
      && (s.next.Some? ==> ReachesCommit(r, answers, a, env))
  {
    if r.ReadErr? {
      ReadErrStep(r, k, answers, a, env);
    } else if Shown(r, answers, a, env) {
      ShownStep(r, k, answers, a, env);
      AfterCommitFacts(Answered(r.offset, ParseValue(r.value, env.codec).envelope.fields, answers[a], env.sendOk(k), env.codec), env.commitOk(k), a + 1);
    } else if ParseValue(r.value, env.codec).Rejected? {
      UnparsedStep(r, k, answers, a, env);
      AfterCommitFacts([Read(r.offset), Commit(r.offset)], env.commitOk(k), a);
    } else {
      CrashStep(r, k, answers, a, env);
    }
  }

  /** A record uses one answer when its envelope is shown, and none otherwise. */
  lemma {:induction false} StepPrompts(r: ReadOutcome, k: nat, answers: seq<string>, a: nat, env: Env)
    requires a <= |answers|
    ensures var s := StepAt(r, k, answers, a, env);
      && Filter(s.actions, IsPrompt) == (if Shown(r, answers, a, env) then [Prompt(answers[a])] else [])
      && (s.next.Some? ==> s.next.value == if Shown(r, answers, a, env) then a + 1 else a)
  {
    if r.ReadErr? {
      ReadErrStep(r, k, answers, a, env);
    } else if Shown(r, answers, a, env) {
      ShownStep(r, k, answers, a, env);
      AfterCommitFacts(Answered(r.offset, ParseValue(r.value, env.codec).envelope.fields, answers[a], env.sendOk(k), env.codec), env.commitOk(k), a + 1);
    } else if ParseValue(r.value, env.codec).Rejected? {
      UnparsedStep(r, k, answers, a, env);
      AfterCommitFacts([Read(r.offset), Commit(r.offset)], env.commitOk(k), a);
    } else {
      CrashStep(r, k, answers, a, env);
    }
  }

  /** x is what the retry block sends for the record r: its envelope parsed, carried a
      payload that decodes, and x sends those bytes to "orders" keyed "retry". */
  predicate RepublishOf(r: ReadOutcome, c: Codec, x: Action) {
    && r.Msg? && ParseValue(r.value, c).Parsed?
    && var e := ParseValue(r.value, c).envelope;
       && e.JObject? && "payload" in e.fields
       && DecodePayload(e.fields["payload"], c).Some?
       && x == Publish(OriginalTopic, Some(Ascii("retry")), DecodePayload(e.fields["payload"], c).value)
  }

  /** What the loop publishes for the record r read at position k: its decoded payload,
      when its envelope is shown, the answer is a retry, the payload decodes and send
      queues it; nothing otherwise. */
  function RetryPublish(r: ReadOutcome, k: nat, answers: seq<string>, a: nat, env: Env): seq<Action> {
    if Shown(r, answers, a, env) && IsRetry(answers[a]) && env.sendOk(k) then
      var p := RetryPayload(ParseValue(r.value, env.codec).envelope.fields, env.codec);
      if p.Some? then [Publish(OriginalTopic, Some(Ascii("retry")), p.value)] else []
    else []
  }

  /** A record is republished at most once, only after a retry answer, and then as its
      decoded payload; exactly what RetryPublish says. */
  lemma {:induction false} StepPublishes(r: ReadOutcome, k: nat, answers: seq<string>, a: nat, env: Env)
    requires a <= |answers|
    ensures var s := StepAt(r, k, answers, a, env);
      && Filter(s.actions, IsPublish) == RetryPublish(r, k, answers, a, env)
      && |Filter(s.actions, IsPublish)| <= 1
      && (Filter(s.actions, IsPublish) != [] ==> Shown(r, answers, a, env) && IsRetry(answers[a]))
      && forall x | x in Filter(s.actions, IsPublish) :: RepublishOf(r, env.codec, x)
  {
    if r.ReadErr? {
      ReadErrStep(r, k, answers, a, env);
    } else if Shown(r, answers, a, env) {
      ShownStep(r, k, answers, a, env);
      AfterCommitFacts(Answered(r.offset, ParseValue(r.value, env.codec).envelope.fields, answers[a], env.sendOk(k), env.codec), env.commitOk(k), a + 1);
    } else if ParseValue(r.value, env.codec).Rejected? {
      UnparsedStep(r, k, answers, a, env);
      AfterCommitFacts([Read(r.offset), Commit(r.offset)], env.commitOk(k), a);
    } else {
      CrashStep(r, k, answers, a, env);
    }
  }

  predicate AllMsgs(ms: seq<ReadOutcome>) {
    forall m | m in ms :: m.Msg?
  }

  /** The bookkeeping of a run from the records k to n, possibly followed by the read of a
      record n it could not show. */
  predicate BookkeepingUpTo(records: seq<ReadOutcome>, k: nat, n: nat, b: seq<Action>)
    requires k <= n <= |records|
  {
    && AllMsgs(records[k..n])
    && (|| b == Pairs(Offsets(records[k..n]))
        || (n < |records| && records[n].Msg? && b == Pairs(Offsets(records[k..n])) + [Read(records[n].offset)]))
  }

  lemma {:induction false} BookkeepingExtend(records: seq<ReadOutcome>, k: nat, n: nat, b: seq<Action>)
    requires k < n <= |records| && records[k].Msg? && BookkeepingUpTo(records, k + 1, n, b)
    ensures BookkeepingUpTo(records, k, n, [Read(records[k].offset), Commit(records[k].offset)] + b)
  {
    var ms := records[k..n];
    assert ms == [records[k]] + records[k + 1..n];
    assert Offsets(ms)[1..] == Offsets(ms[1..]);
    var rc := [Read(records[k].offset), Commit(records[k].offset)];
    assert Pairs(Offsets(ms)) == rc + Pairs(Offsets(records[k + 1..n]));
    if n < |records| && records[n].Msg? && b == Pairs(Offsets(records[k + 1..n])) + [Read(records[n].offset)] {
      assert rc + b == Pairs(Offsets(ms)) + [Read(records[n].offset)];
    }
  }

  /** Run unfolds into the step of the record at k and the rest of the run. */
  lemma {:induction false} RunStep(records: seq<ReadOutcome>, k: nat, answers: seq<string>, a: nat, env: Env)
    requires k < |records| && a <= |answers|
    ensures var s := StepAt(records[k], k, answers, a, env);
      Run(records, k, answers, a, env) ==
        s.actions + if s.next.Some? then Run(records, k + 1, answers, s.next.value, env) else []
  {
  }

  /** Reads and commits pair up record by record, in the order of the records: the records
      from position k up to some n are each read and then committed before the next is read,
      and a run that breaks off on a record it could not show leaves that one read and not
      committed. */
  lemma {:induction false} CommitsFollowReads(records: seq<ReadOutcome>, k: nat, answers: seq<string>, a: nat, env: Env)
    requires k <= |records| && a <= |answers|
    ensures exists n | k <= n <= |records| ::
      BookkeepingUpTo(records, k, n, Filter(Run(records, k, answers, a, env), IsBookkeeping))
    decreases |records| - k
  {
    assert records[k..k] == [];
    if k == |records| {
      assert Filter(Run(records, k, answers, a, env), IsBookkeeping) == [];
      assert BookkeepingUpTo(records, k, k, []);
    } else {
      var s := StepAt(records[k], k, answers, a, env);
      var rest := if s.next.Some? then Run(records, k + 1, answers, s.next.value, env) else [];
      RunStep(records, k, answers, a, env);
      StepBookkeeping(records[k], k, answers, a, env);
      FilterAppend(s.actions, rest, IsBookkeeping);
      var b := Filter(Run(records, k, answers, a, env), IsBookkeeping);
      if s.next.Some? {
        CommitsFollowReads(records, k + 1, answers, s.next.value, env);
        var n :| k + 1 <= n <= |records| && BookkeepingUpTo(records, k + 1, n, Filter(rest, IsBookkeeping));
        BookkeepingExtend(records, k, n, Filter(rest, IsBookkeeping));
        assert b == [Read(records[k].offset), Commit(records[k].offset)] + Filter(rest, IsBookkeeping);
        assert BookkeepingUpTo(records, k, n, b);
      } else {
        LastBookkeeping(records, k, Filter(s.actions, IsBookkeeping), ReachesCommit(records[k], answers, a, env));
      }
    }
  }

  /** The bookkeeping of a run's last record: read and committed when it reached its
      commit, only read when it broke off before, nothing on a read error. */
  lemma {:induction false} LastBookkeeping(records: seq<ReadOutcome>, k: nat, b: seq<Action>, committed: bool)
    requires k < |records|
    requires committed ==> records[k].Msg? && b == [Read(records[k].offset), Commit(records[k].offset)]
    requires !committed && records[k].Msg? ==> b == [Read(records[k].offset)]
    requires records[k].ReadErr? ==> b == []
    ensures exists n | k <= n <= |records| :: BookkeepingUpTo(records, k, n, b)
  {
    assert records[k..k] == [];
    if committed {
      assert records[k + 1..k + 1] == [];
      assert BookkeepingUpTo(records, k + 1, k + 1, []);
      BookkeepingExtend(records, k, k + 1, []);
      assert BookkeepingUpTo(records, k, k + 1, b);
    } else {
      assert BookkeepingUpTo(records, k, k, b);
    }
  }

  /** The prompts a run shows, in order. */
  function Prompts(answers: seq<string>): seq<Action> {
    if answers == [] then [] else [Prompt(answers[0])] + Prompts(answers[1..])
  }

  lemma {:induction false} PromptsCons(answers: seq<string>, a: nat, n: nat)
    requires a < n <= |answers|
    ensures Prompts(answers[a..n]) == [Prompt(answers[a])] + Prompts(answers[a + 1..n])
  {
    assert answers[a..n][1..] == answers[a + 1..n];
  }

  /** The operator's answers are used one per shown envelope, in the order they were given,
      each once: the run's prompts are the answers from position a up to some n. */
  lemma {:induction false} AnswersInOrder(records: seq<ReadOutcome>, k: nat, answers: seq<string>, a: nat, env: Env)
    requires k <= |records| && a <= |answers|
    ensures exists n | a <= n <= |answers| ::
      Filter(Run(records, k, answers, a, env), IsPrompt) == Prompts(answers[a..n])
    decreases |records| - k
  {
    assert answers[a..a] == [];
    if k < |records| {
      var s := StepAt(records[k], k, answers, a, env);
      var rest := if s.next.Some? then Run(records, k + 1, answers, s.next.value, env) else [];
      var shown := Shown(records[k], answers, a, env);
      RunStep(records, k, answers, a, env);
      StepPrompts(records[k], k, answers, a, env);
      FilterAppend(s.actions, rest, IsPrompt);
      if s.next.Some? {
        AnswersInOrder(records, k + 1, answers, s.next.value, env);
        var n :| s.next.value <= n <= |answers| && Filter(rest, IsPrompt) == Prompts(answers[s.next.value..n]);
        if shown {
          PromptsCons(answers, a, n);
        }
        assert Filter(Run(records, k, answers, a, env), IsPrompt) == Prompts(answers[a..n]);
      } else if shown {
        PromptsCons(answers, a, a + 1);
        assert answers[a + 1..a + 1] == [];
        assert Filter(Run(records, k, answers, a, env), IsPrompt) == Prompts(answers[a..a + 1]);
      } else {
        assert Filter(Run(records, k, answers, a, env), IsPrompt) == Prompts(answers[a..a]);
      }
    }
  }

  /** Everything the viewer publishes is the decoded payload of a DLQ record it read, sent to
      "orders" keyed "retry", and only after a retry answer. */
  lemma {:induction false} PublishesAreRetriedPayloads(records: seq<ReadOutcome>, k: nat, answers: seq<string>, a: nat, env: Env)
    requires k <= |records| && a <= |answers|
    ensures forall x | x in Filter(Run(records, k, answers, a, env), IsPublish) ::
      exists j | k <= j < |records| :: RepublishOf(records[j], env.codec, x)
    ensures Filter(Run(records, k, answers, a, env), IsPublish) != [] ==>
      exists i | a <= i < |answers| :: IsRetry(answers[i])
    decreases |records| - k
  {
    if k < |records| {
      var s := StepAt(records[k], k, answers, a, env);
      var rest := if s.next.Some? then Run(records, k + 1, answers, s.next.value, env) else [];
      RunStep(records, k, answers, a, env);
      StepPublishes(records[k], k, answers, a, env);
      FilterAppend(s.actions, rest, IsPublish);
      if s.next.Some? {
        PublishesAreRetriedPayloads(records, k + 1, answers, s.next.value, env);
      }
      forall x | x in Filter(Run(records, k, answers, a, env), IsPublish)
        ensures exists j | k <= j < |records| :: RepublishOf(records[j], env.codec, x)
      {
        if x in Filter(s.actions, IsPublish) {
          assert RepublishOf(records[k], env.codec, x);
        }
      }
    }
  }

  /** The records a run publishes from position k on, with the answers from position a on:
      each record's RetryPublish, for as long as the run goes on, which it does past a
      record whose commit is reached and succeeds. */
  function Publishes(records: seq<ReadOutcome>, k: nat, answers: seq<string>, a: nat, env: Env): seq<Action>
    requires k <= |records| && a <= |answers|
    decreases |records| - k
  {
    if k == |records| then []
    else
      var r := records[k];
      RetryPublish(r, k, answers, a, env)
        + if ReachesCommit(r, answers, a, env) && env.commitOk(k)
          then Publishes(records, k + 1, answers, if Shown(r, answers, a, env) then a + 1 else a, env)
          else []
  }

  /** The publishes of a run are exactly Publishes: one per record shown with a retry answer
      whose payload decodes and whose send queues it, in read order, and none after the run
      ends. */
  lemma {:induction false} PublishesExactly(records: seq<ReadOutcome>, k: nat, answers: seq<string>, a: nat, env: Env)
    requires k <= |records| && a <= |answers|
    ensures Filter(Run(records, k, answers, a, env), IsPublish) == Publishes(records, k, answers, a, env)
    decreases |records| - k
  {
    if k < |records| {
      var r := records[k];
      var s := StepAt(r, k, answers, a, env);
      var rest := if s.next.Some? then Run(records, k + 1, answers, s.next.value, env) else [];
      RunStep(records, k, answers, a, env);
      StepPublishes(r, k, answers, a, env);
      StepPrompts(r, k, answers, a, env);
      StepContinues(r, k, answers, a, env);
      FilterAppend(s.actions, rest, IsPublish);
      if s.next.Some? {
        PublishesExactly(records, k + 1, answers, s.next.value, env);
      }
    }
  }

  /** The run goes on past a record exactly when the record's commit is reached and
      succeeds. */
  lemma {:induction false} StepContinues(r: ReadOutcome, k: nat, answers: seq<string>, a: nat, env: Env)
    requires a <= |answers|
    ensures StepAt(r, k, answers, a, env).next.Some? <==> ReachesCommit(r, answers, a, env) && env.commitOk(k)
  {
  }

  /** A run stops at most once, and only as its last action. */
  lemma {:induction false} StopIsLast(records: seq<ReadOutcome>, k: nat, answers: seq<string>, a: nat, env: Env)
    requires k <= |records| && a <= |answers|
    ensures var t := Run(records, k, answers, a, env);
      Stop in t ==> t[|t| - 1] == Stop && Stop !in t[..|t| - 1]
    decreases |records| - k
  {
    if k < |records| {
      var s := StepAt(records[k], k, answers, a, env);
      RunStep(records, k, answers, a, env);
      StepStops(records[k], k, answers, a, env);
      if s.next.Some? {
        var rest := Run(records, k + 1, answers, s.next.value, env);
        StopIsLast(records, k + 1, answers, s.next.value, env);
        var t := Run(records, k, answers, a, env);
        assert t == s.actions + rest;
        if Stop in t {
          assert Stop in rest;
          assert t[..|t| - 1] == s.actions + rest[..|rest| - 1];
        }
      }
    }
  }

  /** A record the processor sent to the DLQ parses back to its envelope. When the failed
      value was a slice, the record, answered with a retry, is shown (pretty_print does not
      raise on it) and republished to "orders", keyed "retry", with exactly the bytes the
      processor failed on; when it was nil, pretty_print raises on it. */
  lemma {:induction false} RetriedDlqRecordRepublishesPayload(fm: FailedMessage, c: Codec, offset: int, answer: string, queued: bool)
    requires RoundTrips(c) && IsRetry(answer)
    ensures var e := c.parse(Record(fm, c).value);
      && e == Some(Envelope(fm, c))
      && (fm.payload.NonNil? ==>
            && !PrettyPrintRaises(e.value, c)
            && Filter(Answered(offset, e.value.fields, answer, queued, c), IsPublish) ==
                 if queued then [Publish(OriginalTopic, Some(Ascii("retry")), fm.payload.bytes)] else [])
      && (fm.payload.Nil? ==> PrettyPrintRaises(e.value, c))
  {
    var e := Envelope(fm, c);
    if fm.payload.NonNil? {
      AnsweredShape(offset, e.fields, answer, queued, c);
    }
  }

  /** A dead-letter record made from a null record (its payload is written as null) stops the
      viewer at pretty_print: b64decode(None) raises TypeError, which is not caught, so the
      record is read, never committed, and the run ends there. */
  lemma {:induction false} NullPayloadRecordHaltsViewer(
    records: seq<ReadOutcome>, k: nat, answers: seq<string>, a: nat, env: Env, fm: FailedMessage, offset: int)
    requires RoundTrips(env.codec) && fm.payload.Nil?
    requires k < |records| && a <= |answers|
    requires records[k] == Msg(offset, NonNil(Record(fm, env.codec).value))
    ensures Run(records, k, answers, a, env) == [Read(offset), Stop]
  {
    var e := Envelope(fm, env.codec);
    assert ParseValue(records[k].value, env.codec) == Parsed(e);
    assert PrettyPrintRaises(e, env.codec);
  }


  /** The body of the viewer's loop for one record: what it does, and the answer position
      the loop goes on from, or None when it leaves the loop on this record. */
  method HandleRecord(r: ReadOutcome, k: nat, answers: seq<string>, a: nat, env: Env)
    returns (actions: seq<Action>, next: Option<nat>)
    requires a <= |answers|
    ensures Step(actions, next) == StepAt(r, k, answers, a, env)
  {
    match r
    case ReadErr =>
      ReadErrStep(r, k, answers, a, env);
      return [Stop], None;
    case Msg(offset, value) =>
      var parsed := ParseValue(value, env.codec);
      if parsed.Crashed? {
        CrashStep(r, k, answers, a, env);
        return [Read(offset), Stop], None;
      }
      if parsed.Rejected? {
        UnparsedStep(r, k, answers, a, env);
        actions := [Read(offset), Commit(offset)];
        if !env.commitOk(k) {
          return actions + [Stop], None;
        }
        return actions, Some(a);
      }
      var envelope := parsed.envelope;
      if PrettyPrintRaises(envelope, env.codec) || a == |answers| {
        CrashStep(r, k, answers, a, env);
        return [Read(offset), Stop], None;
      }
      ShownStep(r, k, answers, a, env);
      var answer := answers[a];
      actions := [Read(offset), Prompt(answer)];
      if IsRetry(answer) {
        actions := actions + Republish(envelope.fields, RetryKey, env.sendOk(k), env.codec);
      }
      actions := actions + [Commit(offset)];
      assert actions == Answered(offset, envelope.fields, answer, env.sendOk(k), env.codec);
      if !env.commitOk(k) {
        return actions + [Stop], None;
      }
      return actions, Some(a + 1);
  }

  /** The viewer's main loop over the records of `orders-dlq` and the operator's answers: it
      leaves the loop on a read error, on an envelope it cannot show, when the answers run
      out, and on a failed commit. */
  method View(records: seq<ReadOutcome>, answers: seq<string>, env: Env) returns (trace: seq<Action>)
    ensures trace == Run(records, 0, answers, 0, env)
  {
    trace := [];
    var k: nat, a: nat := 0, 0;
    while k < |records|
      invariant k <= |records| && a <= |answers|
      invariant trace + Run(records, k, answers, a, env) == Run(records, 0, answers, 0, env)
    {
      Advance(trace, records, k, answers, a, env, Run(records, 0, answers, 0, env));
      var actions, next := HandleRecord(records[k], k, answers, a, env);
      trace := trace + actions;
      if next.None? {
        break;
      }
      k, a := k + 1, next.value;
    }
  }

  /** One iteration keeps the loop invariant: what it appended is that record's step. */
  lemma {:induction false} Advance(before: seq<Action>, records: seq<ReadOutcome>, k: nat, answers: seq<string>, a: nat, env: Env, whole: seq<Action>)
    requires k < |records| && a <= |answers|
    requires before + Run(records, k, answers, a, env) == whole
    ensures var s := StepAt(records[k], k, answers, a, env);
      && (s.next.Some? ==> before + s.actions + Run(records, k + 1, answers, s.next.value, env) == whole)
      && (s.next.None? ==> before + s.actions == whole)
  {
    var s := StepAt(records[k], k, answers, a, env);
    var rest := if s.next.Some? then Run(records, k + 1, answers, s.next.value, env) else [];
    assert Run(records, k, answers, a, env) == s.actions + rest;
    AppendAssoc(before, s.actions, rest);
  }
}
