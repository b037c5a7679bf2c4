/**
 The admin enrolment and sign-in protocol of the end-to-end harness, as a machine that takes
 one step per request or file write and may crash between any two. One worker runs at a time,
 nothing else changes the admin's factors, and the worker and the API read one clock.
 */
module AdminSignIn {
  import opened Outcomes
  import TotpCursor

  /** A TOTP secret. */
  type Secret = nat

  /**
   The API's side: the confirmed factor, the provisional one, and the last time step accepted
   for the confirmed secret, by whomever (confirming a factor does not consume a step).
   */
  datatype Server = Server(confirmed: Option<Secret>, pending: Option<Secret>, lastStep: Option<nat>)

  datatype Session = NoSession | PasswordOnly | Challenge | Assured

  /** Where the worker is; `attempt` is 1 or 2. */
  datatype Pc =
    | Idle
    | Login(attempt: nat)
    | ReadSecret(attempt: nat)
    | MintLogin(attempt: nat, secret: Secret, retried: bool)
    | Verify(attempt: nat, secret: Secret, step: nat, retried: bool)
    | Status(attempt: nat)
    | Enroll(attempt: nat)
    | Persist(attempt: nat, secret: Secret)
    | MintConfirm(attempt: nat, secret: Secret)
    | Confirm(attempt: nat, secret: Secret, step: nat)
    | Returned
    | Failed

  /**
   `ours` is the secret of the factor this harness confirmed, if any; `saved` says that the last
   write of the secret file succeeded; `totp` holds the time step cursor, `nowMs` the clock.
   */
  datatype World = World(
    server: Server, session: Session, file: Option<Secret>, cached: Option<Secret>,
    totp: TotpCursor.State, nowMs: nat, pc: Pc, ours: Option<Secret>, saved: bool)

  /** What comes back: a success, an error, or nothing although the server did its part. */
  datatype Reply = Success | Refused | Lost

  /**
   The outside world during one step. `elapsedMs` goes by before it takes effect, `overrunMs` is
   how much longer than asked a sleep in it lasts, `generated` is the secret an enrolment generates;
   `writable` and `cursorWritable` say that the secret file and the cursor file can be written.
   */
  datatype Input = Input(reply: Reply, generated: Secret, elapsedMs: nat, overrunMs: nat, writable: bool, cursorWritable: bool)

  datatype Event = Step(input: Input) | Crash | Start

  function Cursor(w: World): Option<nat> {
    TotpCursor.Cursor(w.totp)
  }

  function Now(w: World): nat {
    TotpCursor.StepAt(w.nowMs)
  }

  /** The circumstances under which a code is minted now. */
  function Minting(w: World, input: Input): TotpCursor.Circumstances {
    TotpCursor.Circumstances(w.nowMs, input.overrunMs, input.cursorWritable)
  }

  /** `freshAdminTotpCode`, unless the cursor is too far ahead: the step is reserved, and the clock goes on. */
  function Reserve(w: World, input: Input): World {
    w.(totp := TotpCursor.AfterMint(w.totp, Minting(w, input)), nowMs := TotpCursor.MintedAt(Cursor(w), Minting(w, input)))
  }

  /** The API takes codes of the step before, the current one and the next. */
  predicate InWindow(w: World, step: nat) {
    step <= Now(w) + 1 && Now(w) <= step + 1
  }

  /** `readAdminTotpSecret`: the secret in memory, or else the one in the file. */
  function Known(w: World): Option<Secret> {
    if w.cached.Some? then w.cached else w.file
  }

  function Fail(w: World): World {
    w.(pc := Failed)
  }

  /** The server takes a code for its confirmed factor, once per step. */
  predicate Takes(w: World, secret: Secret, step: nat) {
    && w.server.confirmed == Some(secret) && InWindow(w, step)
    && (w.server.lastStep.Some? ==> step > w.server.lastStep.value)
  }

  function StepOn(w: World, input: Input): World {
    Act(w.(nowMs := w.nowMs + input.elapsedMs), input)
  }

  function Act(w: World, input: Input): World {
    match w.pc
    case Login(n) =>
      if input.reply != Success then Fail(w)
      else if w.server.confirmed.Some? then w.(session := Challenge, pc := ReadSecret(n))
      else w.(session := PasswordOnly, pc := Status(n))
    case ReadSecret(n) =>
      var known := Known(w);
      if known.None? then Fail(w) else w.(cached := known, pc := MintLogin(n, known.value, false))
    case MintLogin(n, secret, retried) =>
      if TotpCursor.TooFarAhead(Cursor(w), w.nowMs) then Fail(w.(totp := TotpCursor.AfterMint(w.totp, Minting(w, input))))
      else
        var step := TotpCursor.MintedStep(Cursor(w), Minting(w, input));
        Reserve(w, input).(pc := Verify(n, secret, step, retried))
    case Verify(n, secret, step, retried) =>
      if input.reply == Refused then Fail(w)
      else if Takes(w, secret, step) then
        var server := w.server.(lastStep := Some(step));
        if input.reply == Lost then Fail(w.(server := server))
        else w.(server := server, session := Assured, pc := Returned)
      else if input.reply == Success && !retried then w.(pc := MintLogin(n, secret, true))
      else Fail(w)
    case Status(n) =>
      if input.reply != Success || w.server.confirmed.Some? then Fail(w) else w.(pc := Enroll(n))
    case Enroll(n) =>
      if input.reply == Refused || w.server.confirmed.Some? then Fail(w)
      else
        var server := w.server.(pending := Some(input.generated));
        if input.reply == Lost then Fail(w.(server := server))
        else w.(server := server, pc := Persist(n, input.generated))
    case Persist(n, secret) =>
      w.(cached := Some(secret), file := if input.writable then Some(secret) else w.file,
         saved := input.writable, pc := MintConfirm(n, secret))
    case MintConfirm(n, secret) =>
      if TotpCursor.TooFarAhead(Cursor(w), w.nowMs) then Fail(w.(totp := TotpCursor.AfterMint(w.totp, Minting(w, input))))
      else
        var step := TotpCursor.MintedStep(Cursor(w), Minting(w, input));
        Reserve(w, input).(pc := Confirm(n, secret, step))
    case Confirm(n, secret, step) =>
      if input.reply == Refused || w.server.pending != Some(secret) || w.server.confirmed.Some? || !InWindow(w, step) then
        Fail(w)
      else
        var armed := w.(server := Server(Some(secret), None, None), session := NoSession, ours := Some(secret));
        if input.reply == Lost || n >= 2 then Fail(armed) else armed.(pc := Login(n + 1))
    case _ => w
  }

  function Next(w: World, e: Event): World {
    match e
    case Step(input) => StepOn(w, input)
    case Crash => w.(cached := None, session := NoSession, totp := TotpCursor.Died(w.totp), pc := Idle)
    case Start =>
      if w.pc.Idle? || w.pc.Failed? || w.pc.Returned? then w.(session := NoSession, pc := Login(1)) else w
  }

  function Run(w: World, events: seq<Event>): World
    decreases |events|
  {
    if events == [] then w else Run(Next(w, events[0]), events[1..])
  }

  /** What a shared clock rules out: a cursor more than one step ahead of it, in memory or in the file. */
  predicate OnTime(totp: TotpCursor.State, nowMs: nat) {
    var now, known, filed := TotpCursor.StepAt(nowMs), TotpCursor.Cursor(totp), TotpCursor.Parse(totp.file);
    && (known.Some? ==> known.value <= now + 1)
    && (filed.Some? ==> filed.value <= now + 1)
  }

  /** Before the harness ever ran: any server and any files, if earlier runs read the same clock. */
  predicate Initial(w: World) {
    w.pc.Idle? && w.session.NoSession? && w.cached.None? && w.ours.None? && w.saved && OnTime(w.totp, w.nowMs)
  }

  predicate Invariant(w: World) {
    // A factor this harness confirmed is the server's, and its secret is in the file.
    && (w.ours.Some? ==> w.server.confirmed == w.ours && (w.saved ==> w.file == w.ours))
    // What the process remembers is what the file holds.
    && (w.cached.Some? && w.saved ==> w.file == w.cached)
    // Setting up happens only while no factor is confirmed.
    && (w.pc.Status? || w.pc.Enroll? || w.pc.Persist? || w.pc.MintConfirm? || w.pc.Confirm? ==>
          w.server.confirmed.None? && w.session == PasswordOnly)
    // The secret is remembered, and so on disk, before a code for it exists.
    && (w.pc.MintConfirm? || w.pc.Confirm? ==> w.cached == Some(w.pc.secret))
    && (w.pc.MintLogin? || w.pc.Verify? ==> w.cached == Some(w.pc.secret) && w.session == Challenge)
    && (w.pc.ReadSecret? ==> w.session == Challenge)
    // Codes are for the step reserved last, and none is ahead of the clock.
    && (w.pc.Verify? || w.pc.Confirm? ==> Cursor(w) == Some(w.pc.step) && w.pc.step <= Now(w))
    && OnTime(w.totp, w.nowMs)
    // Nor is any the server took for our factor.
    && (w.ours.Some? && w.server.lastStep.Some? ==> w.server.lastStep.value <= Now(w))
    // A session is assured only once the sign-in has returned.
    && (w.session.Assured? <==> w.pc.Returned?)
  }

  /** Time only helps. */
  lemma LaterIsOnTime(w: World, elapsedMs: nat)
    requires Invariant(w)
    ensures Invariant(w.(nowMs := w.nowMs + elapsedMs))
  {
    assert TotpCursor.StepAt(w.nowMs) <= TotpCursor.StepAt(w.nowMs + elapsedMs);
  }

  /** A reservation on time is the clock's own step when the wait is over. */
  lemma ReservedOnTime(w: World, input: Input)
    requires OnTime(w.totp, w.nowMs)
    ensures !TotpCursor.TooFarAhead(Cursor(w), w.nowMs)
    ensures var step := TotpCursor.MintedStep(Cursor(w), Minting(w, input));
            && step == Now(Reserve(w, input)) && Cursor(Reserve(w, input)) == Some(step)
            && Now(w) <= step && (Cursor(w).Some? ==> Cursor(w).value < step)
    ensures OnTime(Reserve(w, input).totp, Reserve(w, input).nowMs)
  {
    TotpCursor.MintedIsPast(Cursor(w), Minting(w, input));
    assert w.nowMs <= TotpCursor.MintedAt(Cursor(w), Minting(w, input));
  }

  lemma InvariantHolds(w: World, e: Event)
    requires Invariant(w)
    ensures Invariant(Next(w, e))
  {
    hide Invariant, Act, OnTime;
    match e
    case Step(input) =>
      LaterIsOnTime(w, input.elapsedMs);
      ActHolds(w.(nowMs := w.nowMs + input.elapsedMs), input);
    case Crash => CrashHolds(w);
    case Start => StartHolds(w);
  }

  lemma CrashHolds(w: World)
    requires Invariant(w)
    ensures Invariant(Next(w, Crash))
  {
    hide Act;
  }

  lemma StartHolds(w: World)
    requires Invariant(w)
    ensures Invariant(Next(w, Start))
  {
    hide Act, OnTime;
  }

  lemma ActHolds(w: World, input: Input)
    requires Invariant(w)
    ensures Invariant(Act(w, input))
  {
    hide OnTime, TotpCursor.Cursor, TotpCursor.StepAt, TotpCursor.MintedStep, TotpCursor.TooFarAhead;
    hide Reserve, Minting, TotpCursor.AfterMint;
    if w.pc.MintLogin? || w.pc.MintConfirm? {
      ReservedOnTime(w, input);
      ReservedOnly(w, input);
    }
  }

  lemma ReservedOnly(w: World, input: Input)
    ensures Reserve(w, input) == w.(totp := Reserve(w, input).totp, nowMs := Reserve(w, input).nowMs)
  {
  }

  /** So with a clock that never goes back the cursor is never too far ahead when a code is minted. */
  lemma NeverTooFarAhead(w: World, events: seq<Event>, input: Input)
    requires Initial(w)
    ensures var v := Run(w, events); !TotpCursor.TooFarAhead(Cursor(v), v.nowMs + input.elapsedMs)
  {
    InvariantAlways(w, events);
    var v := Run(w, events);
    LaterIsOnTime(v, input.elapsedMs);
    ReservedOnTime(v.(nowMs := v.nowMs + input.elapsedMs), input);
  }

  lemma {:induction false} InvariantAlways(w: World, events: seq<Event>)
    requires Invariant(w)
    ensures Invariant(Run(w, events))
    decreases |events|
  {
    if events != [] {
      InvariantHolds(w, events[0]);
      InvariantAlways(Next(w, events[0]), events[1..]);
    }
  }

  /** Every write of the secret file succeeds. */
  predicate AllWritable(events: seq<Event>) {
    forall i :: 0 <= i < |events| && events[i].Step? ==> events[i].input.writable
  }

  lemma {:induction false} WritableRunsSave(w: World, events: seq<Event>)
    requires w.saved && AllWritable(events)
    ensures Run(w, events).saved
    decreases |events|
  {
    if events != [] {
      WritableRunsSave(Next(w, events[0]), events[1..]);
    }
  }

  /**
   In every reachable state, however many crashes and lost replies came before: a factor this
   harness confirmed is the server's, and its secret is in the file unless writing it failed;
   and the sign-in has returned only if the session is assured.
   */
  lemma ConfirmedSecretsAreOnDisk(w: World, events: seq<Event>)
    requires Initial(w)
    ensures var v := Run(w, events);
            && (v.ours.Some? ==> v.server.confirmed == v.ours && (v.saved ==> v.file == v.ours))
            && (v.pc.Returned? ==> v.session.Assured?)
    ensures AllWritable(events) ==> Run(w, events).saved
  {
    InvariantAlways(w, events);
    if AllWritable(events) {
      WritableRunsSave(w, events);
    }
  }

  // ---- Replies that are no success ----

  /** Where the next step is a request. */
  predicate Asks(pc: Pc) {
    pc.Login? || pc.Verify? || pc.Status? || pc.Enroll? || pc.Confirm?
  }

  /** A refused request changes nothing on the server, and the sign-in fails. */
  lemma RefusedFails(w: World, input: Input)
    requires Asks(w.pc) && input.reply == Refused
    ensures StepOn(w, input).pc.Failed? && StepOn(w, input).server == w.server && StepOn(w, input).session == w.session
  {
  }

  /** A reply that gets lost fails the sign-in, whatever the server did. */
  lemma LostFails(w: World, input: Input)
    requires Asks(w.pc) && input.reply == Lost
    ensures StepOn(w, input).pc.Failed?
  {
  }

  /** The sign-in returns at a verification the server has taken and said so, and nowhere else. */
  lemma OnlyVerificationReturns(w: World, e: Event)
    requires !w.pc.Returned? && Next(w, e).pc.Returned?
    ensures e.Step? && e.input.reply == Success && w.pc.Verify?
    ensures w.server.confirmed == Some(w.pc.secret) && Next(w, e).server.lastStep == Some(w.pc.step)
    ensures w.server.lastStep.Some? ==> w.server.lastStep.value < w.pc.step
    ensures var now := (w.nowMs + e.input.elapsedMs) / 30_000; now - 1 <= w.pc.step <= now + 1
  {
  }

  /** A factor is armed at a confirmation of the pending secret with a code of its time, and nowhere else. */
  lemma OnlyConfirmationArms(w: World, e: Event)
    requires Next(w, e).ours != w.ours || Next(w, e).server.confirmed != w.server.confirmed
    ensures e.Step? && e.input.reply != Refused && w.pc.Confirm?
    ensures w.server.confirmed.None? && w.server.pending == Some(w.pc.secret)
    ensures Next(w, e).server.confirmed == Some(w.pc.secret) == Next(w, e).ours
    ensures var now := (w.nowMs + e.input.elapsedMs) / 30_000; now - 1 <= w.pc.step <= now + 1
  {
  }

  /** So in every run that has returned, there was such a step, and nothing but waiting since. */
  lemma {:induction false} ReturnedByVerification(w: World, events: seq<Event>) returns (k: nat)
    requires !w.pc.Returned? && Run(w, events).pc.Returned?
    ensures k < |events| && events[k].Step? && events[k].input.reply == Success
    ensures Run(w, events[..k]).pc.Verify? && Run(w, events[..k + 1]).pc.Returned?
    ensures forall j :: k < j < |events| ==> events[j].Step?
    decreases |events|
  {
    var e, rest := events[0], events[1..];
    if Next(w, e).pc.Returned? && forall j :: 0 < j < |events| ==> events[j].Step? {
      OnlyVerificationReturns(w, e);
      k := 0;
      assert events[..0] == [] && events[..1] == [e] && [e][1..] == [];
    } else {
      var v := Next(w, e);
      var from: nat := 0;
      if v.pc.Returned? {
        k := LastReturn(v, rest);
      } else {
        k := ReturnedByVerification(v, rest);
      }
      assert events[..k + 1] == [e] + rest[..k] && events[..k + 2] == [e] + rest[..k + 1];
      assert ([e] + rest[..k])[1..] == rest[..k] && ([e] + rest[..k + 1])[1..] == rest[..k + 1];
      k := k + 1;
      forall j | k < j < |events| ensures events[j].Step? {
        assert events[j] == rest[j - 1];
      }
    }
  }

  /** The same from a world that has returned, if something but steps comes after. */
  lemma {:induction false} LastReturn(w: World, events: seq<Event>) returns (k: nat)
    requires w.pc.Returned? && Run(w, events).pc.Returned?
    requires exists j :: 0 <= j < |events| && !events[j].Step?
    ensures k < |events| && events[k].Step? && events[k].input.reply == Success
    ensures Run(w, events[..k]).pc.Verify? && Run(w, events[..k + 1]).pc.Returned?
    ensures forall j :: k < j < |events| ==> events[j].Step?
    decreases |events|
  {
    var e, rest := events[0], events[1..];
    var v := Next(w, e);
    if e.Step? {
      assert v.pc.Returned?;
      assert exists j :: 0 <= j < |rest| && !rest[j].Step? by {
        var j :| 0 <= j < |events| && !events[j].Step?;
        assert rest[j - 1] == events[j];
      }
      k := LastReturn(v, rest);
    } else {
      k := ReturnedByVerification(v, rest);
    }
    assert events[..k + 1] == [e] + rest[..k] && events[..k + 2] == [e] + rest[..k + 1];
    assert ([e] + rest[..k])[1..] == rest[..k] && ([e] + rest[..k + 1])[1..] == rest[..k + 1];
    k := k + 1;
    forall j | k < j < |events| ensures events[j].Step? {
      assert events[j] == rest[j - 1];
    }
  }

  /** A second enrolment is not followed by a third attempt: the sign-in fails. */
  lemma SecondEnrolmentFails(w: World, input: Input)
    requires w.pc.Confirm? && w.pc.attempt >= 2
    ensures StepOn(w, input).pc.Failed?
  {
  }

  predicate AtMostTwo(pc: Pc) {
    pc.Idle? || pc.Returned? || pc.Failed? || 1 <= pc.attempt <= 2
  }

  lemma {:induction false} AtMostTwoAttempts(w: World, events: seq<Event>)
    requires AtMostTwo(w.pc)
    ensures AtMostTwo(Run(w, events).pc)
    decreases |events|
  {
    hide TotpCursor.AfterMint, TotpCursor.TooFarAhead, TotpCursor.MintedStep, TotpCursor.MintedAt, InWindow, Takes;
    if events != [] {
      AtMostTwoAttempts(Next(w, events[0]), events[1..]);
    }
  }

  // ---- Healthy runs ----

  /** Every request succeeds and takes less than a time step. */
  predicate Healthy(input: Input) {
    input.reply == Success && input.elapsedMs < TotpCursor.STEP_MS
  }

  predicate AllHealthy(inputs: seq<Input>) {
    forall i :: 0 <= i < |inputs| ==> Healthy(inputs[i])
  }

  function Steps(w: World, inputs: seq<Input>): World
    decreases |inputs|
  {
    if inputs == [] then w else Steps(StepOn(w, inputs[0]), inputs[1..])
  }

  lemma {:induction false} StepsConcat(w: World, some: seq<Input>, others: seq<Input>)
    ensures Steps(w, some + others) == Steps(Steps(w, some), others)
    decreases |some|
  {
    if some == [] {
      assert some + others == others;
    } else {
      assert (some + others)[1..] == some[1..] + others;
      StepsConcat(StepOn(w, some[0]), some[1..], others);
    }
  }

  lemma {:induction false} ReturnedStays(w: World, inputs: seq<Input>)
    requires w.pc.Returned? || w.pc.Failed?
    ensures Steps(w, inputs) == w.(nowMs := Steps(w, inputs).nowMs)
    decreases |inputs|
  {
    if inputs != [] {
      assert StepOn(w, inputs[0]) == w.(nowMs := w.nowMs + inputs[0].elapsedMs);
      ReturnedStays(StepOn(w, inputs[0]), inputs[1..]);
    }
  }

  /** A code sent within a step of its minting is in the server's window. */
  lemma SentInTime(w: World, step: nat, elapsedMs: nat)
    requires step == Now(w) && elapsedMs < TotpCursor.STEP_MS
    ensures InWindow(w.(nowMs := w.nowMs + elapsedMs), step)
  {
  }

  /** The clock and the cursor after a code was minted and sent. */
  function AfterCode(w: World, mint: Input, send: Input): World {
    var v := Reserve(w.(nowMs := w.nowMs + mint.elapsedMs), mint);
    v.(nowMs := v.nowMs + send.elapsedMs)
  }

  /** The step of the code minted now. */
  function MintedNow(w: World, mint: Input): nat {
    Now(Reserve(w.(nowMs := w.nowMs + mint.elapsedMs), mint))
  }

  /** The step of the second code of a challenged sign-in, if it comes to that. */
  function SecondStep(w: World, inputs: seq<Input>): nat
    requires |inputs| >= 6
  {
    var asked := w.(nowMs := w.nowMs + inputs[0].elapsedMs + inputs[1].elapsedMs);
    MintedNow(AfterCode(asked, inputs[2], inputs[3]), inputs[4])
  }

  /** The server has not taken that step, or a later one, from somebody else. */
  predicate NotUsedUp(w: World, inputs: seq<Input>)
    requires |inputs| >= 6
  {
    w.server.lastStep.Some? ==> w.server.lastStep.value < SecondStep(w, inputs)
  }

  /**
   A challenged sign-in with the right secret at hand succeeds exactly when the step of its second
   code is not used up; six steps are enough.
   */
  lemma ChallengeSucceedsExactlyWhen(w: World, n: nat, inputs: seq<Input>)
    requires Invariant(w) && w.pc == Login(n) && w.server.confirmed.Some? && Known(w) == w.server.confirmed
    requires |inputs| == 6 && AllHealthy(inputs)
    ensures Steps(w, inputs).pc.Returned? <==> NotUsedUp(w, inputs)
    ensures Steps(w, inputs).pc.Returned? || Steps(w, inputs).pc.Failed?
  {
    hide Invariant, Reserve, StepOn, MintedNow, AfterCode;
    var first, second := inputs[..4], inputs[4..];
    assert inputs == first + second;
    StepsConcat(w, first, second);
    Unroll4(w, first);
    var secret := w.server.confirmed.value;
    var w2 := ChallengeIsRead(w, n, secret, inputs[0], inputs[1]);
    var w4 := CodeIsSent(w2, n, secret, false, inputs[2], inputs[3]);
    SecondIsLater(w2, inputs[2], inputs[3], inputs[4]);
    SecondStepIs(w, w2, w4, inputs);
    if w4.pc.Returned? {
      ReturnedStays(w4, second);
    } else {
      var w6 := CodeIsSent(w4, n, secret, true, inputs[4], inputs[5]);
      Unroll2(w4, inputs);
    }
  }

  lemma SecondStepIs(w: World, w2: World, w4: World, inputs: seq<Input>)
    requires |inputs| >= 6 && w2.totp == w.totp && w2.nowMs == w.nowMs + inputs[0].elapsedMs + inputs[1].elapsedMs
    requires w4.totp == AfterCode(w2, inputs[2], inputs[3]).totp && w4.nowMs == AfterCode(w2, inputs[2], inputs[3]).nowMs
    ensures SecondStep(w, inputs) == MintedNow(w4, inputs[4]) == MintedNow(AfterCode(w2, inputs[2], inputs[3]), inputs[4])
  {
    hide Reserve;
    var asked := w.(nowMs := w2.nowMs);
    SameAfterCode(w2, asked, inputs[2], inputs[3]);
    SameClockAndCursor(AfterCode(w2, inputs[2], inputs[3]), w4, inputs[4]);
    SameClockAndCursor(AfterCode(asked, inputs[2], inputs[3]), w4, inputs[4]);
  }

  lemma ChallengeIsRead(w: World, n: nat, secret: Secret, login: Input, read: Input) returns (v: World)
    requires Invariant(w) && w.pc == Login(n) && w.server.confirmed == Some(secret) == Known(w) && login.reply == Success
    ensures v == StepOn(StepOn(w, login), read) && Invariant(v)
    ensures v.pc == MintLogin(n, secret, false) && v.server == w.server && v.totp == w.totp
    ensures v.nowMs == w.nowMs + login.elapsedMs + read.elapsedMs
  {
    var w1 := StepOn(w, login);
    InvariantHolds(w, Step(login));
    v := StepOn(w1, read);
    InvariantHolds(w1, Step(read));
  }

  /** Only the clock and the cursor matter to a reservation. */
  lemma SameClockAndCursor(w: World, v: World, mint: Input)
    requires w.totp == v.totp && w.nowMs == v.nowMs
    ensures MintedNow(w, mint) == MintedNow(v, mint)
  {
  }

  lemma SameAfterCode(w: World, v: World, mint: Input, send: Input)
    requires w.totp == v.totp && w.nowMs == v.nowMs
    ensures AfterCode(w, mint, send).totp == AfterCode(v, mint, send).totp
    ensures AfterCode(w, mint, send).nowMs == AfterCode(v, mint, send).nowMs
  {
  }

  /** The second code is for a later step than the first. */
  lemma SecondIsLater(w: World, mint: Input, send: Input, again: Input)
    requires Invariant(w)
    ensures MintedNow(w, mint) < MintedNow(AfterCode(w, mint, send), again) && Now(w) <= MintedNow(w, mint)
  {
    var v := w.(nowMs := w.nowMs + mint.elapsedMs);
    LaterIsOnTime(w, mint.elapsedMs);
    ReservedOnTime(v, mint);
    var u := Reserve(v, mint);
    ReservedOnly(v, mint);
    LaterKeepsTime(u.totp, u.nowMs, send.elapsedMs + again.elapsedMs);
    ReservedOnTime(u.(nowMs := u.nowMs + send.elapsedMs + again.elapsedMs), again);
  }

  lemma LaterKeepsTime(totp: TotpCursor.State, nowMs: nat, elapsedMs: nat)
    requires OnTime(totp, nowMs)
    ensures OnTime(totp, nowMs + elapsedMs)
  {
    assert TotpCursor.StepAt(nowMs) <= TotpCursor.StepAt(nowMs + elapsedMs);
  }

  /** If the server has taken no step ahead of the clock, one code or the next is taken. */
  lemma ChallengeSucceeds(w: World, n: nat, inputs: seq<Input>)
    requires Invariant(w) && w.pc == Login(n) && w.server.confirmed.Some? && Known(w) == w.server.confirmed
    requires w.server.lastStep.Some? ==> w.server.lastStep.value <= Now(w)
    requires |inputs| == 6 && AllHealthy(inputs)
    ensures NotUsedUp(w, inputs)
    ensures Steps(w, inputs).pc.Returned? && Steps(w, inputs).session.Assured?
  {
    OnTimeIsNotUsedUp(w, inputs);
    ChallengeSucceedsExactlyWhen(w, n, inputs);
    StepsKeepInvariant(w, inputs);
  }

  lemma StepsGoUp(earlier: nat, later: nat)
    requires earlier <= later
    ensures TotpCursor.StepAt(earlier) <= TotpCursor.StepAt(later)
  {
  }

  lemma OnTimeIsNotUsedUp(w: World, inputs: seq<Input>)
    requires Invariant(w) && |inputs| >= 6
    requires w.server.lastStep.Some? ==> w.server.lastStep.value <= Now(w)
    ensures NotUsedUp(w, inputs)
  {
    hide Invariant, MintedNow, AfterCode, OnTime;
    LaterIsOnTime(w, inputs[0].elapsedMs + inputs[1].elapsedMs);
    var asked := w.(nowMs := w.nowMs + inputs[0].elapsedMs + inputs[1].elapsedMs);
    StepsGoUp(w.nowMs, asked.nowMs);
    SecondIsLater(asked, inputs[2], inputs[3], inputs[4]);
  }

  /**
   A code of the step ahead, which the API takes from a person, can use up both of the harness's
   codes: here the first is for the step now, and the second, after the wait, for that one.
   */
  lemma StepAheadIsUsedUp(w: World, n: nat, inputs: seq<Input>)
    requires Invariant(w) && w.pc == Login(n) && w.server.confirmed.Some? && Known(w) == w.server.confirmed
    requires w.totp == TotpCursor.State(TotpCursor.Absent, TotpCursor.Unread) && w.server.lastStep == Some(Now(w) + 1)
    requires |inputs| == 6 && AllHealthy(inputs)
    requires forall i :: 0 <= i < 6 ==> inputs[i].elapsedMs == 0 && inputs[i].overrunMs == 0
    ensures Steps(w, inputs).pc.Failed?
  {
    ChallengeSucceedsExactlyWhen(w, n, inputs);
    var asked := w.(nowMs := w.nowMs + inputs[0].elapsedMs + inputs[1].elapsedMs);
    var v := AfterCode(asked, inputs[2], inputs[3]);
    assert asked.nowMs == w.nowMs && Cursor(v) == Some(Now(w)) && v.nowMs == w.nowMs;
    NextStepAfterWait(v.nowMs);
  }

  lemma NextStepAfterWait(nowMs: nat)
    ensures TotpCursor.StepAt((TotpCursor.StepAt(nowMs) + 1) * TotpCursor.STEP_MS + TotpCursor.GRACE_MS) == TotpCursor.StepAt(nowMs) + 1
  {
  }

  /** Minting a code and sending it: the server takes it, unless its step is used up. */
  lemma CodeIsSent(w: World, n: nat, secret: Secret, retried: bool, mint: Input, send: Input) returns (v: World)
    requires Invariant(w) && w.pc == MintLogin(n, secret, retried) && w.server.confirmed == Some(secret)
    requires Healthy(mint) && Healthy(send)
    ensures v == StepOn(StepOn(w, mint), send) && Invariant(v)
    ensures v.totp == AfterCode(w, mint, send).totp && v.nowMs == AfterCode(w, mint, send).nowMs
    ensures if w.server.lastStep.Some? ==> w.server.lastStep.value < MintedNow(w, mint) then v.pc.Returned?
            else v.server == w.server && v.pc == if retried then Failed else MintLogin(n, secret, true)
  {
    var w1 := StepOn(w, mint);
    ReservesNow(w, mint);
    InvariantHolds(w, Step(mint));
    SentInTime(w1, w1.pc.step, send.elapsedMs);
    v := StepOn(w1, send);
    InvariantHolds(w1, Step(send));
  }

  lemma Unroll2(w: World, inputs: seq<Input>)
    requires |inputs| == 6
    ensures Steps(w, inputs[4..]) == StepOn(StepOn(w, inputs[4]), inputs[5])
  {
    hide StepOn;
    var last, none := inputs[4..][1..], inputs[4..][1..][1..];
    assert last[0] == inputs[5] && none == [];
    var v := StepOn(w, inputs[4]);
    assert Steps(w, inputs[4..]) == Steps(v, last) == Steps(StepOn(v, last[0]), none);
  }

  lemma Unroll4(w: World, inputs: seq<Input>)
    requires |inputs| == 4
    ensures Steps(w, inputs) == StepOn(StepOn(StepOn(StepOn(w, inputs[0]), inputs[1]), inputs[2]), inputs[3])
  {
    var a, b, c := inputs[1..], inputs[2..], inputs[3..];
    assert a[1..] == b && b[1..] == c && c[1..] == [] && a[0] == inputs[1] && b[0] == inputs[2] && c[0] == inputs[3];
    var w1 := StepOn(w, inputs[0]);
    var w2 := StepOn(w1, inputs[1]);
    var w3 := StepOn(w2, inputs[2]);
    assert Steps(w, inputs) == Steps(w1, a) == Steps(w2, b) == Steps(w3, c) == Steps(StepOn(w3, inputs[3]), []);
  }

  /** A first sign-in enrols, confirms, and is back at the login with the factor armed. */
  lemma EnrolmentSucceeds(w: World, inputs: seq<Input>)
    requires Invariant(w) && w.pc == Login(1) && w.server.confirmed.None?
    requires |inputs| == 6 && AllHealthy(inputs)
    ensures var v := Steps(w, inputs);
            && v.file == (if inputs[3].writable then v.ours else w.file)
            && v.server.lastStep.None?
            && Invariant(v) && v.pc == Login(2) && v.server.confirmed == Some(inputs[2].generated) == v.cached == v.ours
  {
    hide Invariant;
    var first, second := inputs[..4], inputs[4..];
    assert inputs == first + second;
    StepsConcat(w, first, second);
    Unroll4(w, first);
    SecretIsPersisted(w, inputs);
    var w4 := Steps(w, first);
    StepsKeepInvariant(w, first);
    StepsKeepInvariant(w4, second);
    var w6 := FactorIsConfirmed(w4, inputs[2].generated, inputs[4], inputs[5]);
    Unroll2(w4, inputs);
  }

  lemma SecretIsPersisted(w: World, inputs: seq<Input>)
    requires w.pc == Login(1) && w.server.confirmed.None? && |inputs| == 6 && AllHealthy(inputs)
    ensures var v := StepOn(StepOn(StepOn(StepOn(w, inputs[0]), inputs[1]), inputs[2]), inputs[3]);
            && v.pc == MintConfirm(1, inputs[2].generated) && v.cached == v.server.pending == Some(inputs[2].generated)
            && v.server.confirmed.None? && v.file == if inputs[3].writable then v.cached else w.file
  {
  }

  lemma FactorIsConfirmed(w: World, secret: Secret, mint: Input, send: Input) returns (v: World)
    requires Invariant(w) && w.pc == MintConfirm(1, secret) && w.server.confirmed.None? && w.server.pending == Some(secret)
    requires Healthy(mint) && Healthy(send)
    ensures v == StepOn(StepOn(w, mint), send)
    ensures v.server.lastStep.None?
    ensures v.pc == Login(2) && v.server.confirmed == Some(secret) == v.ours && v.cached == w.cached && v.file == w.file
  {
    hide Invariant;
    var w1 := StepOn(w, mint);
    ReservesNow(w, mint);
    SentInTime(w1, w1.pc.step, send.elapsedMs);
    v := StepOn(w1, send);
  }

  /** Minting yields a code for the clock's step. */
  lemma ReservesNow(w: World, mint: Input)
    requires Invariant(w) && (w.pc.MintLogin? || w.pc.MintConfirm?)
    ensures var v := StepOn(w, mint);
            && v == w.(totp := v.totp, nowMs := v.nowMs, pc := v.pc)
            && (if w.pc.MintLogin? then v.pc == Verify(w.pc.attempt, w.pc.secret, Now(v), w.pc.retried)
                else v.pc == Confirm(w.pc.attempt, w.pc.secret, Now(v)))
            && (Cursor(w).Some? ==> Cursor(w).value < Now(v))
            && v.totp == Reserve(w.(nowMs := w.nowMs + mint.elapsedMs), mint).totp
            && v.nowMs == Reserve(w.(nowMs := w.nowMs + mint.elapsedMs), mint).nowMs
  {
    hide TotpCursor.AfterMint, TotpCursor.TooFarAhead, TotpCursor.MintedStep, TotpCursor.MintedAt, TotpCursor.StepAt;
    LaterIsOnTime(w, mint.elapsedMs);
    ReservedOnTime(w.(nowMs := w.nowMs + mint.elapsedMs), mint);
  }

  /** The factor is confirmed, its secret is not at hand, and the worker is not setting up. */
  predicate LockedOut(w: World) {
    && w.server.confirmed.Some? && w.file != w.server.confirmed && w.cached != w.server.confirmed
    && !w.pc.Returned? && !w.pc.Status? && !w.pc.Enroll? && !w.pc.Persist? && !w.pc.MintConfirm? && !w.pc.Confirm?
    && (w.pc.MintLogin? || w.pc.Verify? ==> Some(w.pc.secret) != w.server.confirmed)
  }

  /** Without the confirmed secret no sign-in ever returns, whatever replies, crashes and restarts there are. */
  lemma {:induction false} WrongSecretNeverSucceeds(w: World, events: seq<Event>)
    requires LockedOut(w)
    ensures LockedOut(Run(w, events)) && !Run(w, events).pc.Returned?
    decreases |events|
  {
    hide LockedOut, Next;
    if events != [] {
      StaysLockedOut(w, events[0]);
      WrongSecretNeverSucceeds(Next(w, events[0]), events[1..]);
    }
    NotReturned(Run(w, events));
  }

  lemma StaysLockedOut(w: World, e: Event)
    requires LockedOut(w)
    ensures LockedOut(Next(w, e))
  {
    hide TotpCursor.AfterMint, TotpCursor.TooFarAhead, TotpCursor.MintedStep, TotpCursor.MintedAt, InWindow;
  }

  lemma NotReturned(w: World)
    ensures LockedOut(w) ==> !w.pc.Returned?
  {
  }

  /** And on a healthy stack it fails within one attempt. */
  lemma WrongSecretFails(w: World, inputs: seq<Input>)
    requires w.pc == Login(1) && w.cached.None? && w.server.confirmed.Some? && w.file != w.server.confirmed
    requires |inputs| == 6 && AllHealthy(inputs)
    ensures Steps(w, inputs).pc.Failed?
  {
    var first, second := inputs[..4], inputs[4..];
    assert inputs == first + second;
    StepsConcat(w, first, second);
    Unroll4(w, first);
    var w2 := StepOn(StepOn(w, inputs[0]), inputs[1]);
    if w2.pc.Failed? {
      assert Steps(w, first).pc.Failed?;
      ReturnedStays(Steps(w, first), second);
    } else {
      var w4 := WrongCode(w2, 1, w.file.value, false, inputs[2], inputs[3]);
      if w4.pc.Failed? {
        ReturnedStays(w4, second);
      } else {
        var w6 := WrongCode(w4, 1, w.file.value, true, inputs[4], inputs[5]);
        Unroll2(w4, inputs);
      }
    }
  }

  /** A code for another secret is never taken. */
  lemma WrongCode(w: World, n: nat, secret: Secret, retried: bool, mint: Input, send: Input) returns (v: World)
    requires w.pc == MintLogin(n, secret, retried) && w.server.confirmed != Some(secret)
    requires Healthy(mint) && Healthy(send)
    ensures v == StepOn(StepOn(w, mint), send)
    ensures v.pc.Failed? || (!retried && v.pc == MintLogin(n, secret, true) && v.server == w.server)
  {
    hide TotpCursor.AfterMint, TotpCursor.TooFarAhead, TotpCursor.MintedStep, TotpCursor.MintedAt, InWindow;
    v := StepOn(StepOn(w, mint), send);
  }

  /**
   After any history, a worker that starts afresh on a healthy stack comes back assured exactly
   when no factor is confirmed yet, or the file holds the confirmed factor's secret and the step of
   its second code is not used up by somebody else; two attempts, twelve steps, are enough.
   */
  lemma RestartRecoversExactlyWhen(w: World, inputs: seq<Input>)
    requires Invariant(w) && w.pc == Login(1) && w.cached.None?
    requires |inputs| == 12 && AllHealthy(inputs)
    ensures var v := Steps(w, inputs);
            v.pc.Returned? && v.session.Assured? <==>
            w.server.confirmed.None? || (w.file == w.server.confirmed && NotUsedUp(w, inputs))
  {
    hide Invariant, NotUsedUp, StepOn, Now;
    var first, second := inputs[..6], inputs[6..];
    assert inputs == first + second;
    StepsConcat(w, first, second);
    SameSecondStep(w, inputs);
    AssuredIfReturned(w, inputs);
    if w.server.confirmed.None? {
      EnrolmentSucceeds(w, first);
      ChallengeSucceeds(Steps(w, first), 2, second);
    } else {
      if w.file == w.server.confirmed {
        ChallengeSucceedsExactlyWhen(w, 1, first);
      } else {
        WrongSecretFails(w, first);
      }
      ReturnedStays(Steps(w, first), second);
    }
  }

  lemma SameSecondStep(w: World, inputs: seq<Input>)
    requires |inputs| == 12
    ensures NotUsedUp(w, inputs[..6]) <==> NotUsedUp(w, inputs)
  {
    hide Reserve, AfterCode, MintedNow;
    assert SecondStep(w, inputs[..6]) == SecondStep(w, inputs);
  }

  lemma AssuredIfReturned(w: World, inputs: seq<Input>)
    requires Invariant(w)
    ensures Steps(w, inputs).pc.Returned? ==> Steps(w, inputs).session.Assured?
  {
    StepsKeepInvariant(w, inputs);
  }

  /** Only this harness confirms factors, so from a fresh server every crash is recoverable. */
  lemma {:induction false} FreshServersHaveOnlyOurFactor(w: World, events: seq<Event>)
    requires w.server.confirmed == w.ours
    ensures Run(w, events).server.confirmed == Run(w, events).ours
    decreases |events|
  {
    if events != [] {
      FreshServersHaveOnlyOurFactor(Next(w, events[0]), events[1..]);
    }
  }

  /**
   From a fresh server, with writes that succeed: crash wherever you like, as often as you like,
   then start a worker on a healthy stack, and it signs in.
   */
  lemma AnyCrashIsRecoverable(w: World, events: seq<Event>, inputs: seq<Input>)
    requires Initial(w) && w.server.confirmed.None? && AllWritable(events)
    requires |inputs| == 12 && AllHealthy(inputs)
    ensures var restarted := Next(Next(Run(w, events), Crash), Start);
            var v := Steps(restarted, inputs);
            v.pc.Returned? && v.session.Assured?
  {
    InvariantAlways(w, events);
    WritableRunsSave(w, events);
    FreshServersHaveOnlyOurFactor(w, events);
    var crashed := Next(Run(w, events), Crash);
    InvariantHolds(Run(w, events), Crash);
    InvariantHolds(crashed, Start);
    if Next(crashed, Start).server.confirmed.Some? {
      OnTimeIsNotUsedUp(Next(crashed, Start), inputs);
    }
    RestartRecoversExactlyWhen(Next(crashed, Start), inputs);
  }

  /**
   Writing the secret is best effort. A worker on a fresh stack that cannot write it still signs
   in; but once it dies, no sign-in ever returns again.
   */
  lemma LostSecretLocksOut(w: World, first: seq<Input>, later: seq<Event>)
    requires Initial(w) && w.server.confirmed.None? && w.file.None?
    requires |first| == 12 && AllHealthy(first) && !first[3].writable
    ensures var v := Steps(Next(w, Start), first);
            && v.pc.Returned? && v.session.Assured?
            && !Run(Next(v, Crash), later).pc.Returned?
  {
    var started := Next(w, Start);
    InvariantHolds(w, Start);
    RestartRecoversExactlyWhen(started, first);
    FirstRunLosesSecret(started, first);
    WrongSecretNeverSucceeds(Next(Steps(started, first), Crash), later);
  }

  /** The first run leaves a confirmed factor and no file. */
  lemma FirstRunLosesSecret(w: World, inputs: seq<Input>)
    requires Invariant(w) && w.pc == Login(1) && w.server.confirmed.None? && w.file.None?
    requires |inputs| == 12 && AllHealthy(inputs) && !inputs[3].writable
    ensures var v := Steps(w, inputs); v.server.confirmed.Some? && v.file.None?
  {
    var first, second := inputs[..6], inputs[6..];
    assert inputs == first + second && first[2] == inputs[2] && first[3] == inputs[3];
    StepsConcat(w, first, second);
    EnrolmentSucceeds(w, first);
    ConfirmedStays(Steps(w, first), second);
  }

  /** While a factor is confirmed, steps change neither it nor the file. */
  lemma {:induction false} ConfirmedStays(w: World, inputs: seq<Input>)
    requires Invariant(w) && w.server.confirmed.Some?
    ensures Steps(w, inputs).server.confirmed == w.server.confirmed && Steps(w, inputs).file == w.file
    decreases |inputs|
  {
    if inputs != [] {
      InvariantHolds(w, Step(inputs[0]));
      ConfirmedStays(StepOn(w, inputs[0]), inputs[1..]);
    }
  }

  lemma {:induction false} StepsKeepInvariant(w: World, inputs: seq<Input>)
    requires Invariant(w)
    ensures Invariant(Steps(w, inputs))
    decreases |inputs|
  {
    if inputs != [] {
      InvariantHolds(w, Step(inputs[0]));
      StepsKeepInvariant(StepOn(w, inputs[0]), inputs[1..]);
    }
  }
}
