/** TOTP authentication with replay protection (pkg/mfa/totp.go,
    service/user/manager.go): any number of attempts whose reads, checks and
    compare-and-set writes interleave in any order. */
module Totp {
  import opened Results

  // ---- One check ----

  const PERIOD := 30

  /** hotp.Validate: is the passcode the one for this counter and key? */
  type Validator = (string, int, string) -> bool

  function TimeToCounter(unixTime: int): int {
    unixTime / PERIOD
  }

  function ToUint64(c: int): int {
    c % 0x1_0000_0000_0000_0000
  }

  /** The first of the counters that the code is valid for. */
  function FirstValid(validate: Validator, code: string, key: string, counters: seq<int>): Option<int> {
    if counters == [] then None
    else if validate(code, ToUint64(counters[0]), key) then Some(counters[0])
    else FirstValid(validate, code, key, counters[1..])
  }

  function AllowedCounters(now: int): seq<int> {
    var current := TimeToCounter(now);
    [current - 1, current, current + 1]
  }

  /** c is the least of the counters of now's 30-second period and its two neighbours for
      which the code is valid under the key. */
  predicate LeastValid(validate: Validator, code: string, key: string, now: int, c: int) {
    var period := now / 30;
    && period - 1 <= c <= period + 1
    && validate(code, c % 0x1_0000_0000_0000_0000, key)
    && (c > period - 1 ==> !validate(code, (period - 1) % 0x1_0000_0000_0000_0000, key))
    && (c > period ==> !validate(code, period % 0x1_0000_0000_0000_0000, key))
  }

  /** The search finds exactly that counter. */
  lemma SearchExactly(validate: Validator, code: string, key: string, now: int, c: int)
    ensures FirstValid(validate, code, key, AllowedCounters(now)) == Some(c) <==>
      LeastValid(validate, code, key, now, c)
  {
    var p := now / 30;
    assert AllowedCounters(now) == [p - 1, p, p + 1];
    FirstOf(validate, code, key, p - 1, [p, p + 1]);
    FirstOf(validate, code, key, p, [p + 1]);
    FirstOf(validate, code, key, p + 1, []);
    assert [p - 1] + [p, p + 1] == [p - 1, p, p + 1] && [p] + [p + 1] == [p, p + 1] && [p + 1] + [] == [p + 1];
  }

  lemma FirstOf(validate: Validator, code: string, key: string, c: int, rest: seq<int>)
    ensures FirstValid(validate, code, key, [c] + rest) ==
      if validate(code, c % 0x1_0000_0000_0000_0000, key) then Some(c) else FirstValid(validate, code, key, rest)
  {
    assert ([c] + rest)[1..] == rest;
  }

  datatype Verdict = NotValid | Replay | Valid(counter: int)

  /** TOTPAuthenticator.Authenticate. */
  function Authenticate(validate: Validator, row: TotpRow, code: string, now: int): Verdict {
    match FirstValid(validate, code, row.key, AllowedCounters(now))
    case None => NotValid
    case Some(c) => if c <= row.lastUsed then Replay else Valid(c)
  }

  // ---- The database and the attempts ----

  datatype TotpRow = TotpRow(key: string, lastUsed: int)

  datatype Result = Success | Rejected | SecretNotFound | QueryFailed

  /** Where an MFAAuthenticate call stands. epoch counts the key resets before its read,
      key is the key it read, and at is when it checked its code. */
  datatype Attempt =
    | Started(user: int, code: string)
    | HasRead(user: int, code: string, row: TotpRow, epoch: nat)
    | Checked(user: int, code: string, key: string, at: int, counter: int, epoch: nat)
    | Done(result: Result)

  /** A compare-and-set that changed the row, and whether its caller learned of it.
      readEpoch is the epoch of the attempt's read, epoch that of the write. */
  datatype Write = Write(
    attempt: int,
    user: int,
    code: string,
    key: string,
    at: int,
    readEpoch: nat,
    epoch: nat,
    counter: int,
    reported: bool)

  datatype State = State(
    rows: map<int, TotpRow>,
    epochs: map<int, nat>,
    attempts: map<int, Attempt>,
    writes: seq<Write>)

  datatype Event =
    | Begin(attempt: int, user: int, code: string)
    | Read(attempt: int)
    | Check(attempt: int, now: int)
    | TryToUpdate(attempt: int, answered: bool)
    | Fail(attempt: int)
    | CreateSecret(user: int, key: string)
    | ResetSecret(user: int, key: string)

  function Epoch(s: State, u: int): nat {
    if u in s.epochs then s.epochs[u] else 0
  }

  function With(s: State, a: int, attempt: Attempt): State {
    s.(attempts := s.attempts[a := attempt])
  }

  /** UPDATE ... SET last_used_counter=c WHERE user_id=u AND last_used_counter < c matches the row. */
  predicate UpdateMatches(s: State, u: int, c: int) {
    u in s.rows && s.rows[u].lastUsed < c
  }

  /** One step of the system; an event that is not enabled changes nothing. */
  function Step(validate: Validator, s: State, e: Event): State {
    match e
    case Begin(a, u, code) =>
      if a in s.attempts then s else With(s, a, Started(u, code))
    case Read(a) =>
      if a in s.attempts && s.attempts[a].Started? then
        var Started(u, code) := s.attempts[a];
        if u in s.rows then With(s, a, HasRead(u, code, s.rows[u], Epoch(s, u))) else With(s, a, Done(SecretNotFound))
      else s
    case Check(a, now) =>
      if a in s.attempts && s.attempts[a].HasRead? then
        var HasRead(u, code, row, epoch) := s.attempts[a];
        match Authenticate(validate, row, code, now) {
          case Valid(c) => With(s, a, Checked(u, code, row.key, now, c, epoch))
          case _ => With(s, a, Done(Rejected))
        }
      else s
    case TryToUpdate(a, answered) =>
      if a in s.attempts && s.attempts[a].Checked? then
        var Checked(u, code, key, at, c, epoch) := s.attempts[a];
        if UpdateMatches(s, u, c) then
          With(s, a, Done(if answered then Success else QueryFailed))
            .(rows := s.rows[u := s.rows[u].(lastUsed := c)],
              writes := s.writes + [Write(a, u, code, key, at, epoch, Epoch(s, u), c, answered)])
        else With(s, a, Done(if answered then Rejected else QueryFailed))
      else s
    case Fail(a) =>
      if a in s.attempts && !s.attempts[a].Done? then With(s, a, Done(QueryFailed)) else s
    case CreateSecret(u, key) =>
      if u in s.rows then s else s.(rows := s.rows[u := TotpRow(key, 0)], epochs := s.epochs[u := Epoch(s, u) + 1])
    case ResetSecret(u, key) =>
      if u !in s.rows then s else s.(rows := s.rows[u := TotpRow(key, 0)], epochs := s.epochs[u := Epoch(s, u) + 1])
  }

  const INITIAL := State(map[], map[], map[], [])

  /** The state after the events. */
  function Run(validate: Validator, events: seq<Event>): State {
    RunFrom(validate, INITIAL, events)
  }

  function RunFrom(validate: Validator, s: State, events: seq<Event>): State {
    if events == [] then s
    else Step(validate, RunFrom(validate, s, events[..|events| - 1]), events[|events| - 1])
  }

  lemma ThreeSteps(validate: Validator, s: State, e1: Event, e2: Event, e3: Event)
    ensures RunFrom(validate, s, [e1, e2, e3]) == Step(validate, Step(validate, Step(validate, s, e1), e2), e3)
  {
    assert [e1, e2, e3][..2] == [e1, e2] && [e1, e2][..1] == [e1];
    assert RunFrom(validate, s, [e1]) == Step(validate, s, e1);
  }

  // ---- What every run keeps ----

  ghost predicate SameEpoch(v: Write, w: Write) {
    v.user == w.user && v.epoch == w.epoch
  }

  ghost predicate IsLastWrite(s: State, u: int, i: int) {
    u in s.rows && 0 <= i < |s.writes| && s.writes[i].user == u && s.writes[i].epoch == Epoch(s, u)
    && s.writes[i].counter == s.rows[u].lastUsed
  }

  ghost predicate CountersIncrease(writes: seq<Write>) {
    forall i, j :: 0 <= i < j < |writes| && SameEpoch(writes[i], writes[j]) ==> writes[i].counter < writes[j].counter
  }

  /** A written counter is of a user with a row, and of this epoch or an earlier one; one of
      this epoch is not above the stored counter. */
  predicate Bounded(s: State, w: Write) {
    && w.user in s.rows && w.epoch <= Epoch(s, w.user)
    && (w.epoch == Epoch(s, w.user) ==> w.counter <= s.rows[w.user].lastUsed)
  }

  /** Between two key resets the counters written are strictly increasing; the
      stored one is the last of them, or zero before the first. */
  ghost predicate Increasing(s: State) {
    && CountersIncrease(s.writes)
    && (forall i :: 0 <= i < |s.writes| ==> Bounded(s, s.writes[i]))
    && (forall u :: u in s.rows ==> s.rows[u].lastUsed == 0 || exists i :: IsLastWrite(s, u, i))
  }

  /** What an attempt read is still a lower bound of the stored counter, unless the key was reset since. */
  predicate IsOld(s: State, x: Attempt) {
    match x
    case HasRead(u, _, row, epoch) =>
      && u in s.rows && epoch <= Epoch(s, u)
      && (epoch == Epoch(s, u) ==> row.key == s.rows[u].key && row.lastUsed <= s.rows[u].lastUsed)
    case Checked(u, _, _, _, _, epoch) => epoch <= Epoch(s, u)
    case _ => true
  }

  ghost predicate ReadsAreOld(s: State) {
    forall a :: a in s.attempts ==> IsOld(s, s.attempts[a])
  }

  predicate Concluded(s: State, w: Write) {
    w.attempt in s.attempts && s.attempts[w.attempt] == Done(if w.reported then Success else QueryFailed)
  }

  /** Exactly the successful attempts have a write that was answered, and no attempt has two. */
  ghost predicate OneWriteEach(s: State) {
    && (forall i :: 0 <= i < |s.writes| ==> Concluded(s, s.writes[i]))
    && (forall i, j :: 0 <= i < j < |s.writes| ==> s.writes[i].attempt != s.writes[j].attempt)
    && (forall a :: a in s.attempts && s.attempts[a] == Done(Success) ==>
          exists i :: 0 <= i < |s.writes| && s.writes[i].attempt == a && s.writes[i].reported)
  }

  /** An attempt writes in the epoch of its read or in a later one. */
  ghost predicate WritesFollowReads(s: State) {
    forall i :: 0 <= i < |s.writes| ==> s.writes[i].readEpoch <= s.writes[i].epoch
  }

  ghost predicate Inv(s: State) {
    Increasing(s) && ReadsAreOld(s) && OneWriteEach(s) && WritesFollowReads(s)
  }

  lemma WriteKeepsIncreasing(s: State, s': State, w: Write)
    requires Increasing(s) && UpdateMatches(s, w.user, w.counter) && w.epoch == Epoch(s, w.user)
    requires s'.epochs == s.epochs && s'.writes == s.writes + [w]
    requires s'.rows == s.rows[w.user := s.rows[w.user].(lastUsed := w.counter)]
    ensures Increasing(s')
  {
    WriteIsLast(s, s', w);
    WriteIsGreatest(s, w);
    OneMoreIncreasing(s.writes, w);
    WriteIsBounded(s, s', w);
  }

  lemma OneMoreIncreasing(writes: seq<Write>, w: Write)
    requires CountersIncrease(writes)
    requires forall i :: 0 <= i < |writes| && SameEpoch(writes[i], w) ==> writes[i].counter < w.counter
    ensures CountersIncrease(writes + [w])
  {
  }

  lemma WriteIsGreatest(s: State, w: Write)
    requires Increasing(s) && UpdateMatches(s, w.user, w.counter) && w.epoch == Epoch(s, w.user)
    ensures forall i :: 0 <= i < |s.writes| && SameEpoch(s.writes[i], w) ==> s.writes[i].counter < w.counter
  {
    assert forall i :: 0 <= i < |s.writes| ==> Bounded(s, s.writes[i]);
  }

  lemma WriteIsBounded(s: State, s': State, w: Write)
    requires Increasing(s) && UpdateMatches(s, w.user, w.counter) && w.epoch == Epoch(s, w.user)
    requires s'.epochs == s.epochs && s'.writes == s.writes + [w]
    requires s'.rows == s.rows[w.user := s.rows[w.user].(lastUsed := w.counter)]
    ensures forall i :: 0 <= i < |s'.writes| ==> Bounded(s', s'.writes[i])
  {
    forall i | 0 <= i < |s'.writes| ensures Bounded(s', s'.writes[i]) {
      if i < |s.writes| {
        assert Bounded(s, s.writes[i]);
      }
    }
  }

  lemma WriteIsLast(s: State, s': State, w: Write)
    requires Increasing(s) && UpdateMatches(s, w.user, w.counter) && w.epoch == Epoch(s, w.user)
    requires s'.epochs == s.epochs && s'.writes == s.writes + [w]
    requires s'.rows == s.rows[w.user := s.rows[w.user].(lastUsed := w.counter)]
    ensures forall v :: v in s'.rows ==> s'.rows[v].lastUsed == 0 || exists i :: IsLastWrite(s', v, i)
  {
    forall v | v in s'.rows && s'.rows[v].lastUsed != 0 ensures exists i :: IsLastWrite(s', v, i) {
      if v == w.user {
        assert IsLastWrite(s', v, |s.writes|);
      } else {
        var i :| IsLastWrite(s, v, i);
        assert IsLastWrite(s', v, i);
      }
    }
  }

  lemma ResetKeepsIncreasing(s: State, s': State, u: int, key: string)
    requires Increasing(s) && s'.rows == s.rows[u := TotpRow(key, 0)]
    requires s'.epochs == s.epochs[u := Epoch(s, u) + 1] && s'.writes == s.writes
    ensures Increasing(s')
  {
    forall i | 0 <= i < |s'.writes| ensures Bounded(s', s'.writes[i]) {
      assert Bounded(s, s.writes[i]);
    }
    forall v | v in s'.rows && s'.rows[v].lastUsed != 0 ensures exists i :: IsLastWrite(s', v, i) {
      var i :| IsLastWrite(s, v, i);
      assert IsLastWrite(s', v, i);
    }
  }

  lemma SameRowsIncreasing(s: State, s': State)
    requires Increasing(s) && s'.rows == s.rows && s'.epochs == s.epochs && s'.writes == s.writes
    ensures Increasing(s')
  {
    forall i | 0 <= i < |s'.writes| ensures Bounded(s', s'.writes[i]) {
      assert Bounded(s, s.writes[i]);
    }
    forall v | v in s'.rows && s'.rows[v].lastUsed != 0 ensures exists i :: IsLastWrite(s', v, i) {
      var i :| IsLastWrite(s, v, i);
      assert IsLastWrite(s', v, i);
    }
  }

  lemma UpdateIncreasing(validate: Validator, s: State, a: int, answered: bool)
    requires Increasing(s)
    ensures Increasing(Step(validate, s, TryToUpdate(a, answered)))
  {
    var s' := Step(validate, s, TryToUpdate(a, answered));
    if s'.writes == s.writes {
      SameRowsIncreasing(s, s');
    } else {
      WriteKeepsIncreasing(s, s', s'.writes[|s.writes|]);
    }
  }

  lemma StepIncreasing(validate: Validator, s: State, e: Event)
    requires Increasing(s)
    ensures Increasing(Step(validate, s, e))
  {
    var s' := Step(validate, s, e);
    match e
    case TryToUpdate(a, answered) =>
      UpdateIncreasing(validate, s, a, answered);
    case CreateSecret(u, key) =>
      if u !in s.rows { ResetKeepsIncreasing(s, s', u, key); }
    case ResetSecret(u, key) =>
      if u in s.rows { ResetKeepsIncreasing(s, s', u, key); }
    case _ =>
      SameRowsIncreasing(s, s');
  }

  /** From s to s', a user's row stays, and its counter does not fall while its key is not reset. */
  ghost predicate Advances(s: State, s': State) {
    forall u :: u in s.rows ==> RowAdvances(s, s', u)
  }

  predicate RowAdvances(s: State, s': State, u: int)
    requires u in s.rows
  {
    && u in s'.rows && Epoch(s, u) <= Epoch(s', u)
    && (Epoch(s, u) == Epoch(s', u) ==> s.rows[u].key == s'.rows[u].key && s.rows[u].lastUsed <= s'.rows[u].lastUsed)
  }

  ghost predicate EpochsGrow(s: State, s': State) {
    forall u :: Epoch(s, u) <= Epoch(s', u)
  }

  lemma StepAdvances(validate: Validator, s: State, e: Event)
    ensures Advances(s, Step(validate, s, e)) && EpochsGrow(s, Step(validate, s, e))
  {
  }

  lemma OldStaysOld(s: State, s': State, x: Attempt)
    requires IsOld(s, x) && Advances(s, s') && EpochsGrow(s, s')
    ensures IsOld(s', x)
  {
    if x.HasRead? {
      assert RowAdvances(s, s', x.user);
    }
  }

  /** The attempt that an event moves on, if it is about one, is old as well. */
  lemma MovedIsOld(validate: Validator, s: State, e: Event, a: int)
    requires ReadsAreOld(s)
    requires var s' := Step(validate, s, e); a in s'.attempts && (a !in s.attempts || s'.attempts[a] != s.attempts[a])
    ensures IsOld(Step(validate, s, e), Step(validate, s, e).attempts[a])
  {
    assert a in s.attempts ==> IsOld(s, s.attempts[a]);
  }

  lemma StepReadsAreOld(validate: Validator, s: State, e: Event)
    requires ReadsAreOld(s)
    ensures ReadsAreOld(Step(validate, s, e))
  {
    var s' := Step(validate, s, e);
    StepAdvances(validate, s, e);
    forall a | a in s'.attempts ensures IsOld(s', s'.attempts[a]) {
      if a in s.attempts && s'.attempts[a] == s.attempts[a] {
        OldStaysOld(s, s', s.attempts[a]);
      } else {
        MovedIsOld(validate, s, e, a);
      }
    }
  }

  lemma StepWritesFollowReads(validate: Validator, s: State, e: Event)
    requires ReadsAreOld(s) && WritesFollowReads(s)
    ensures WritesFollowReads(Step(validate, s, e))
  {
    var s' := Step(validate, s, e);
    if s'.writes != s.writes {
      assert IsOld(s, s.attempts[e.attempt]);
    }
  }

  /** An attempt moves on without a write and without succeeding. */
  lemma MoveKeepsOneWriteEach(s: State, s': State, a: int, next: Attempt)
    requires OneWriteEach(s) && s'.writes == s.writes && s'.attempts == s.attempts[a := next]
    requires a in s.attempts ==> !s.attempts[a].Done?
    requires next != Done(Success)
    ensures OneWriteEach(s')
  {
    forall i | 0 <= i < |s'.writes| ensures Concluded(s', s'.writes[i]) {
      assert Concluded(s, s.writes[i]);
    }
  }

  lemma WriteKeepsOneWriteEach(s: State, s': State, w: Write)
    requires OneWriteEach(s) && s'.writes == s.writes + [w]
    requires w.attempt in s.attempts && !s.attempts[w.attempt].Done?
    requires s'.attempts == s.attempts[w.attempt := Done(if w.reported then Success else QueryFailed)]
    ensures OneWriteEach(s')
  {
    forall i | 0 <= i < |s.writes| ensures Concluded(s', s.writes[i]) && s.writes[i].attempt != w.attempt {
      assert Concluded(s, s.writes[i]);
    }
    forall a | a in s'.attempts && s'.attempts[a] == Done(Success)
      ensures exists i :: 0 <= i < |s'.writes| && s'.writes[i].attempt == a && s'.writes[i].reported
    {
      if a == w.attempt {
        assert s'.writes[|s.writes|] == w;
      } else {
        var i :| 0 <= i < |s.writes| && s.writes[i].attempt == a && s.writes[i].reported;
        assert s'.writes[i] == s.writes[i];
      }
    }
  }

  lemma StepOneWriteEach(validate: Validator, s: State, e: Event)
    requires OneWriteEach(s)
    ensures OneWriteEach(Step(validate, s, e))
  {
    var s' := Step(validate, s, e);
    if s'.attempts == s.attempts {
      assert s'.writes == s.writes;
    } else if s'.writes == s.writes {
      MoveKeepsOneWriteEach(s, s', e.attempt, s'.attempts[e.attempt]);
    } else {
      WriteKeepsOneWriteEach(s, s', s'.writes[|s.writes|]);
    }
  }

  lemma {:induction false} RunKeeps(validate: Validator, events: seq<Event>)
    ensures Inv(Run(validate, events))
  {
    if events != [] {
      var n := |events| - 1;
      RunKeeps(validate, events[..n]);
      StepIncreasing(validate, Run(validate, events[..n]), events[n]);
      StepReadsAreOld(validate, Run(validate, events[..n]), events[n]);
      StepOneWriteEach(validate, Run(validate, events[..n]), events[n]);
      StepWritesFollowReads(validate, Run(validate, events[..n]), events[n]);
    }
  }

  /** However attempts interleave, no counter succeeds twice between two key
      resets: two successful attempts of one user in one epoch have distinct counters,
      and neither exceeds what the row stores. */
  lemma NoReplay(validate: Validator, events: seq<Event>, i: nat, j: nat)
    requires var w := Run(validate, events).writes;
      i < |w| && j < |w| && SameEpoch(w[i], w[j]) && (w[i].counter == w[j].counter || w[i].attempt == w[j].attempt)
    ensures i == j
  {
    RunKeeps(validate, events);
  }

  ghost predicate SpansReset(w: Write) {
    w.readEpoch < w.epoch
  }

  /** The compare-and-set does not look at the key, so an attempt can write after a reset
      that followed its read. One counter read under one key is written twice only then. */
  lemma ReplaySpansReset(validate: Validator, events: seq<Event>, i: nat, j: nat)
    requires var w := Run(validate, events).writes;
      && i < |w| && j < |w| && i != j
      && w[i].user == w[j].user && w[i].readEpoch == w[j].readEpoch && w[i].counter == w[j].counter
    ensures var w := Run(validate, events).writes;
      SpansReset(w[i]) || SpansReset(w[j])
  {
    RunKeeps(validate, events);
    var w := Run(validate, events).writes;
    if !SpansReset(w[i]) && !SpansReset(w[j]) {
      NoReplay(validate, events, i, j);
    }
  }

  // ---- Writes are for valid codes ----

  ghost predicate Began(events: seq<Event>, b: nat, a: int, u: int, code: string) {
    b < |events| && events[b] == Begin(a, u, code)
  }

  ghost predicate ReadKey(validate: Validator, events: seq<Event>, r: nat, a: int, u: int, key: string) {
    && r < |events| && events[r] == Read(a)
    && u in Run(validate, events[..r]).rows && Run(validate, events[..r]).rows[u].key == key
  }

  ghost predicate DidCheck(events: seq<Event>, k: nat, a: int, at: int) {
    k < |events| && events[k] == Check(a, at)
  }

  /** The attempt began with this code, then read this key, and then checked at this time. */
  ghost predicate Traced(validate: Validator, events: seq<Event>, a: int, u: int, code: string, key: string, at: int) {
    exists b: nat, r: nat, k: nat ::
      b < r < k && Began(events, b, a, u, code) && ReadKey(validate, events, r, a, u, key) && DidCheck(events, k, a, at)
  }

  ghost predicate ReadTraced(validate: Validator, events: seq<Event>, a: int, u: int, code: string, key: string) {
    exists b: nat, r: nat :: b < r && Began(events, b, a, u, code) && ReadKey(validate, events, r, a, u, key)
  }

  ghost predicate BeginTraced(events: seq<Event>, a: int, u: int, code: string) {
    exists b: nat :: Began(events, b, a, u, code)
  }

  ghost predicate AttemptTraced(validate: Validator, events: seq<Event>, a: int, x: Attempt) {
    match x
    case Started(u, code) => BeginTraced(events, a, u, code)
    case HasRead(u, code, row, _) => ReadTraced(validate, events, a, u, code, row.key)
    case Checked(u, code, key, at, c, _) =>
      LeastValid(validate, code, key, at, c) && Traced(validate, events, a, u, code, key, at)
    case Done(_) => true
  }

  ghost predicate WriteTraced(validate: Validator, events: seq<Event>, w: Write) {
    && LeastValid(validate, w.code, w.key, w.at, w.counter)
    && Traced(validate, events, w.attempt, w.user, w.code, w.key, w.at)
  }

  ghost predicate AllTraced(validate: Validator, events: seq<Event>, s: State) {
    && (forall a :: a in s.attempts ==> AttemptTraced(validate, events, a, s.attempts[a]))
    && (forall i :: 0 <= i < |s.writes| ==> WriteTraced(validate, events, s.writes[i]))
  }

  lemma ReadKeyGrows(validate: Validator, events: seq<Event>, e: Event, r: nat, a: int, u: int, key: string)
    requires ReadKey(validate, events, r, a, u, key)
    ensures ReadKey(validate, events + [e], r, a, u, key)
  {
    assert (events + [e])[..r] == events[..r];
  }

  lemma TracedGrows(validate: Validator, events: seq<Event>, e: Event, a: int, u: int,
                    code: string, key: string, at: int)
    requires Traced(validate, events, a, u, code, key, at)
    ensures Traced(validate, events + [e], a, u, code, key, at)
  {
    var b: nat, r: nat, k: nat :| b < r < k && Began(events, b, a, u, code)
      && ReadKey(validate, events, r, a, u, key) && DidCheck(events, k, a, at);
    ReadKeyGrows(validate, events, e, r, a, u, key);
    assert Began(events + [e], b, a, u, code) && DidCheck(events + [e], k, a, at);
  }

  lemma ReadTracedGrows(validate: Validator, events: seq<Event>, e: Event, a: int, u: int, code: string, key: string)
    requires ReadTraced(validate, events, a, u, code, key)
    ensures ReadTraced(validate, events + [e], a, u, code, key)
  {
    var b: nat, r: nat :| b < r && Began(events, b, a, u, code) && ReadKey(validate, events, r, a, u, key);
    ReadKeyGrows(validate, events, e, r, a, u, key);
    assert Began(events + [e], b, a, u, code);
  }

  lemma AttemptGrows(validate: Validator, events: seq<Event>, e: Event, a: int, x: Attempt)
    requires AttemptTraced(validate, events, a, x)
    ensures AttemptTraced(validate, events + [e], a, x)
  {
    match x
    case Started(u, code) =>
      var b: nat :| Began(events, b, a, u, code);
      assert Began(events + [e], b, a, u, code);
    case HasRead(u, code, row, _) => ReadTracedGrows(validate, events, e, a, u, code, row.key);
    case Checked(u, code, key, at, _, _) => TracedGrows(validate, events, e, a, u, code, key, at);
    case Done(_) =>
  }

  lemma ReadStepTraced(validate: Validator, events: seq<Event>, a: int, u: int, code: string, key: string)
    requires BeginTraced(events, a, u, code)
    requires u in Run(validate, events).rows && Run(validate, events).rows[u].key == key
    ensures ReadTraced(validate, events + [Read(a)], a, u, code, key)
  {
    var b: nat :| Began(events, b, a, u, code);
    var all := events + [Read(a)];
    assert all[..|events|] == events;
    assert Began(all, b, a, u, code) && ReadKey(validate, all, |events|, a, u, key);
  }

  lemma CheckStepTraced(validate: Validator, events: seq<Event>, a: int, u: int, code: string, key: string, at: int)
    requires ReadTraced(validate, events, a, u, code, key)
    ensures Traced(validate, events + [Check(a, at)], a, u, code, key, at)
  {
    var b: nat, r: nat :| b < r && Began(events, b, a, u, code) && ReadKey(validate, events, r, a, u, key);
    ReadKeyGrows(validate, events, Check(a, at), r, a, u, key);
    var all := events + [Check(a, at)];
    assert Began(all, b, a, u, code) && DidCheck(all, |events|, a, at);
  }

  lemma CheckedIsTraced(validate: Validator, events: seq<Event>, a: int, now: int)
    requires var s := Run(validate, events);
      a in s.attempts && s.attempts[a].HasRead? && AttemptTraced(validate, events, a, s.attempts[a])
    ensures var s' := Step(validate, Run(validate, events), Check(a, now));
      a in s'.attempts && AttemptTraced(validate, events + [Check(a, now)], a, s'.attempts[a])
  {
    var HasRead(u, code, row, _) := Run(validate, events).attempts[a];
    CheckStepTraced(validate, events, a, u, code, row.key, now);
    match FirstValid(validate, code, row.key, AllowedCounters(now)) {
      case Some(c) => SearchExactly(validate, code, row.key, now, c);
      case None =>
    }
  }

  lemma ReadIsTraced(validate: Validator, events: seq<Event>, a: int)
    requires var s := Run(validate, events);
      a in s.attempts && s.attempts[a].Started? && AttemptTraced(validate, events, a, s.attempts[a])
    ensures var s' := Step(validate, Run(validate, events), Read(a));
      a in s'.attempts && AttemptTraced(validate, events + [Read(a)], a, s'.attempts[a])
  {
    var s := Run(validate, events);
    var Started(u, code) := s.attempts[a];
    if u in s.rows {
      ReadStepTraced(validate, events, a, u, code, s.rows[u].key);
    }
  }

  /** The attempt that an event moves on stays traced. */
  lemma MovedIsTraced(validate: Validator, events: seq<Event>, e: Event, a: int)
    requires var s := Run(validate, events); var s' := Step(validate, s, e);
      && AllTraced(validate, events, s)
      && a in s'.attempts && (a !in s.attempts || s'.attempts[a] != s.attempts[a])
    ensures AttemptTraced(validate, events + [e], a, Step(validate, Run(validate, events), e).attempts[a])
  {
    var before := Run(validate, events).attempts;
    assert a in before ==> AttemptTraced(validate, events, a, before[a]);
    match e
    case Begin(_, u, code) => assert Began(events + [e], |events|, a, u, code);
    case Read(_) => ReadIsTraced(validate, events, a);
    case Check(_, now) => CheckedIsTraced(validate, events, a, now);
    case _ =>
  }

  lemma StepTraced(validate: Validator, events: seq<Event>, e: Event)
    requires AllTraced(validate, events, Run(validate, events))
    ensures AllTraced(validate, events + [e], Step(validate, Run(validate, events), e))
  {
    var s := Run(validate, events);
    var s' := Step(validate, s, e);
    forall a | a in s'.attempts ensures AttemptTraced(validate, events + [e], a, s'.attempts[a]) {
      if a in s.attempts && s'.attempts[a] == s.attempts[a] {
        AttemptGrows(validate, events, e, a, s.attempts[a]);
      } else {
        MovedIsTraced(validate, events, e, a);
      }
    }
    WritesTraced(validate, events, e);
  }

  lemma WritesTraced(validate: Validator, events: seq<Event>, e: Event)
    requires AllTraced(validate, events, Run(validate, events))
    ensures var s' := Step(validate, Run(validate, events), e);
      forall i :: 0 <= i < |s'.writes| ==> WriteTraced(validate, events + [e], s'.writes[i])
  {
    var s := Run(validate, events);
    var s' := Step(validate, s, e);
    forall i | 0 <= i < |s'.writes| ensures WriteTraced(validate, events + [e], s'.writes[i]) {
      var w := s'.writes[i];
      if i < |s.writes| {
        assert w == s.writes[i] && WriteTraced(validate, events, w);
      } else {
        assert AttemptTraced(validate, events, e.attempt, s.attempts[e.attempt]);
      }
      TracedGrows(validate, events, e, w.attempt, w.user, w.code, w.key, w.at);
    }
  }

  /** Over every run, each counter written was valid for the code its attempt began with,
      under the key that attempt read, when it checked. */
  lemma {:induction false} WritesAreForValidCodes(validate: Validator, events: seq<Event>)
    ensures AllTraced(validate, events, Run(validate, events))
  {
    if events != [] {
      var n := |events| - 1;
      WritesAreForValidCodes(validate, events[..n]);
      StepTraced(validate, events[..n], events[n]);
      assert events[..n] + [events[n]] == events;
    }
  }

  // ---- One attempt alone, and two across a reset ----

  /** An attempt up to its write. */
  function ReadAndCheck(validate: Validator, s: State, a: int, u: int, code: string, now: int): State {
    RunFrom(validate, s, [Begin(a, u, code), Read(a), Check(a, now)])
  }

  lemma BeginsAndReads(validate: Validator, s: State, a: int, u: int, code: string)
    requires a !in s.attempts && u in s.rows
    ensures Step(validate, Step(validate, s, Begin(a, u, code)), Read(a)) ==
      With(s, a, HasRead(u, code, s.rows[u], Epoch(s, u)))
  {
    var s1 := Step(validate, s, Begin(a, u, code));
    assert s1 == With(s, a, Started(u, code));
  }

  lemma Checks(validate: Validator, s: State, a: int, u: int, code: string, now: int, c: int)
    requires a !in s.attempts && u in s.rows && c > s.rows[u].lastUsed
    requires LeastValid(validate, code, s.rows[u].key, now, c)
    ensures ReadAndCheck(validate, s, a, u, code, now) ==
      With(s, a, Checked(u, code, s.rows[u].key, now, c, Epoch(s, u)))
  {
    ThreeSteps(validate, s, Begin(a, u, code), Read(a), Check(a, now));
    BeginsAndReads(validate, s, a, u, code);
    var read := With(s, a, HasRead(u, code, s.rows[u], Epoch(s, u)));
    ChecksRead(validate, read, a, code, now, c);
    var checked := Checked(u, code, s.rows[u].key, now, c, Epoch(s, u));
    assert With(read, a, checked) == With(s, a, checked);
  }

  lemma ChecksRead(validate: Validator, s: State, a: int, code: string, now: int, c: int)
    requires a in s.attempts && s.attempts[a].HasRead? && s.attempts[a].code == code
    requires LeastValid(validate, code, s.attempts[a].row.key, now, c)
    requires c > s.attempts[a].row.lastUsed
    ensures var HasRead(u, _, row, epoch) := s.attempts[a];
      Step(validate, s, Check(a, now)) == With(s, a, Checked(u, code, row.key, now, c, epoch))
  {
    SearchExactly(validate, code, s.attempts[a].row.key, now, c);
  }

  /** One attempt writes, the key is reset, and another writes. */
  function WriteResetWrite(validate: Validator, s: State, a: int, b: int, u: int, newKey: string): State {
    RunFrom(validate, s, [TryToUpdate(a, true), ResetSecret(u, newKey), TryToUpdate(b, true)])
  }

  lemma BothWrite(validate: Validator, s: State, a: int, b: int, newKey: string) returns (t: State)
    requires a != b && a in s.attempts && b in s.attempts && s.attempts[a].Checked? && s.attempts[a] == s.attempts[b]
    requires UpdateMatches(s, s.attempts[a].user, s.attempts[a].counter) && s.attempts[a].counter > 0
    ensures var Checked(u, code, key, at, c, e) := s.attempts[a];
      && t == WriteResetWrite(validate, s, a, b, u, newKey)
      && t.writes == s.writes + [Write(a, u, code, key, at, e, Epoch(s, u), c, true),
                                 Write(b, u, code, key, at, e, Epoch(s, u) + 1, c, true)]
    ensures t.attempts == s.attempts[a := Done(Success)][b := Done(Success)]
  {
    var Checked(u, code, key, at, c, e) := s.attempts[a];
    ThreeSteps(validate, s, TryToUpdate(a, true), ResetSecret(u, newKey), TryToUpdate(b, true));
    t := WriteResetWrite(validate, s, a, b, u, newKey);
    var s1 := Step(validate, s, TryToUpdate(a, true));
    assert s1.attempts == s.attempts[a := Done(Success)] && Epoch(s1, u) == Epoch(s, u);
    var s2 := Step(validate, s1, ResetSecret(u, newKey));
    assert s2.attempts[b] == s.attempts[a] && UpdateMatches(s2, u, c) && Epoch(s2, u) == Epoch(s, u) + 1;
    assert s2.writes == s.writes + [Write(a, u, code, key, at, e, Epoch(s, u), c, true)];
  }

  lemma CheckedBoth(validate: Validator, s: State, a: int, b: int, u: int, code: string, now: int, c: int)
    returns (one: State, both: State)
    requires a !in s.attempts && b !in s.attempts && a != b && u in s.rows && c > s.rows[u].lastUsed
    requires LeastValid(validate, code, s.rows[u].key, now, c)
    ensures one == ReadAndCheck(validate, s, a, u, code, now)
    ensures both == ReadAndCheck(validate, one, b, u, code, now)
    ensures both.rows == s.rows && both.epochs == s.epochs && both.writes == s.writes
    ensures a in both.attempts && b in both.attempts
    ensures both.attempts[a] == both.attempts[b] == Checked(u, code, s.rows[u].key, now, c, Epoch(s, u))
  {
    Checks(validate, s, a, u, code, now, c);
    one := With(s, a, Checked(u, code, s.rows[u].key, now, c, Epoch(s, u)));
    Checks(validate, one, b, u, code, now, c);
    both := With(one, b, Checked(u, code, s.rows[u].key, now, c, Epoch(s, u)));
  }

  /** That does happen: in any state in which a code would be accepted, two attempts can
      read and check it, the first can write, the key can be reset, and the second can
      write as well, so that both succeed with one counter under the old key. */
  lemma ReplayAcrossReset(validate: Validator, s: State, a: int, b: int, u: int, newKey: string,
                          code: string, now: int, c: int) returns (one: State, both: State, t: State)
    requires a !in s.attempts && b !in s.attempts && a != b && u in s.rows && c > s.rows[u].lastUsed && c > 0
    requires LeastValid(validate, code, s.rows[u].key, now, c)
    ensures one == ReadAndCheck(validate, s, a, u, code, now)
    ensures both == ReadAndCheck(validate, one, b, u, code, now)
    ensures t == WriteResetWrite(validate, both, a, b, u, newKey)
    ensures var e, key := Epoch(s, u), s.rows[u].key;
      t.writes ==
        s.writes + [Write(a, u, code, key, now, e, e, c, true), Write(b, u, code, key, now, e, e + 1, c, true)]
    ensures t.attempts == both.attempts[a := Done(Success)][b := Done(Success)]
  {
    one, both := CheckedBoth(validate, s, a, b, u, code, now, c);
    t := BothWrite(validate, both, a, b, newKey);
  }

  /** Without a reset since the read, a code that the early check turns away as
      replayed is one the compare-and-set would not have accepted either. */
  lemma EarlyCheckLosesNothing(validate: Validator, events: seq<Event>, a: int, now: int, c: int)
    requires var s := Run(validate, events);
      && a in s.attempts && s.attempts[a].HasRead? && s.attempts[a].epoch == Epoch(s, s.attempts[a].user)
      && LeastValid(validate, s.attempts[a].code, s.attempts[a].row.key, now, c) && c <= s.attempts[a].row.lastUsed
    ensures var s := Run(validate, events);
      && Step(validate, s, Check(a, now)) == With(s, a, Done(Rejected))
      && s.attempts[a].user in s.rows && c <= s.rows[s.attempts[a].user].lastUsed
  {
    var s := Run(validate, events);
    RunKeeps(validate, events);
    assert IsOld(s, s.attempts[a]);
    SearchExactly(validate, s.attempts[a].code, s.attempts[a].row.key, now, c);
  }

  /** An attempt that runs alone succeeds exactly when its code is valid for a counter of
      now's period or its neighbours, and the least such counter is above the stored one. It
      then stores that counter; otherwise it changes no row. */
  lemma AloneIsExact(validate: Validator, s: State, a: int, u: int, code: string, now: int)
    requires a !in s.attempts && u in s.rows
    ensures var t := Alone(validate, s, a, u, code, now);
      && a in t.attempts
      && (t.attempts[a] == Done(Success) <==>
            exists c :: LeastValid(validate, code, s.rows[u].key, now, c) && c > s.rows[u].lastUsed)
      && (t.attempts[a] == Done(Success) || (t.attempts[a] == Done(Rejected) && t.rows == s.rows))
    ensures forall c :: LeastValid(validate, code, s.rows[u].key, now, c) && c > s.rows[u].lastUsed ==>
      Alone(validate, s, a, u, code, now).rows == s.rows[u := TotpRow(s.rows[u].key, c)]
  {
    var s1 := Step(validate, s, Begin(a, u, code));
    var s2 := Step(validate, s1, Read(a));
    var s3 := Step(validate, s2, Check(a, now));
    assert s2.attempts[a] == HasRead(u, code, s.rows[u], Epoch(s, u));
    assert s3.rows == s.rows;
    forall c ensures FirstValid(validate, code, s.rows[u].key, AllowedCounters(now)) == Some(c) <==>
      LeastValid(validate, code, s.rows[u].key, now, c)
    {
      SearchExactly(validate, code, s.rows[u].key, now, c);
    }
    match FirstValid(validate, code, s.rows[u].key, AllowedCounters(now)) {
      case Some(c) => assert LeastValid(validate, code, s.rows[u].key, now, c);
      case None =>
    }
  }

  /** A user without a secret cannot succeed. */
  lemma NoSecretNoSuccess(validate: Validator, s: State, a: int, u: int, code: string, now: int)
    requires a !in s.attempts && u !in s.rows
    ensures var t := Alone(validate, s, a, u, code, now);
      a in t.attempts && t.attempts[a] == Done(SecretNotFound) && t.rows == s.rows && t.writes == s.writes
  {
  }

  /** The whole of one attempt. */
  function Alone(validate: Validator, s: State, a: int, u: int, code: string, now: int): State {
    Step(validate, Step(validate, Step(validate, Step(validate, s,
      Begin(a, u, code)), Read(a)), Check(a, now)), TryToUpdate(a, true))
  }

  /** A reset starts over: with the new key any positive counter succeeds, also
      one that had succeeded before the reset. */
  lemma ResetStartsOver(validate: Validator, s: State, a: int, u: int, key: string, code: string, now: int, c: int)
    requires a !in s.attempts && u in s.rows && c > 0 && LeastValid(validate, code, key, now, c)
    ensures var t := Alone(validate, Step(validate, s, ResetSecret(u, key)), a, u, code, now);
      a in t.attempts && t.attempts[a] == Done(Success) && u in t.rows && t.rows[u] == TotpRow(key, c)
  {
    AloneIsExact(validate, Step(validate, s, ResetSecret(u, key)), a, u, code, now);
  }
}
