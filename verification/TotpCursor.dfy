/**
 The replay cursor of the end-to-end harness: which TOTP time steps it mints codes for,
 across calls, lost writes, crashes and restarts.
 */
module TotpCursor {
  import opened Outcomes
  import opened Radix

  const STEP_MS: nat := 30_000
  const GRACE_MS: nat := 100
  const MAX_SAFE: nat := 9_007_199_254_740_991

  function StepAt(nowMs: nat): nat {
    nowMs / STEP_MS
  }

  /** The cursor file: absent, not a number, or the number its text converts to (0 when blank). */
  datatype CursorFile = Absent | NotANumber | Holds(n: real)

  function Parse(file: CursorFile): Option<nat> {
    if file.Holds? && file.n == file.n.Floor as real && 0 <= file.n.Floor <= MAX_SAFE then Some(file.n.Floor)
    else None
  }

  /** What counts as a cursor: an integer from 0 to 2^53 - 1. */
  lemma OnlySafeIntegersCount(file: CursorFile, k: nat)
    ensures Parse(file) == Some(k) <==> file == Holds(k as real) && k <= 0x1F_FFFF_FFFF_FFFF
  {
  }

  /** The in-process mirror of the cursor: not read yet, or what was read. */
  datatype Mirror = Unread | Read(step: Option<nat>)

  /** A worker process and the file it shares with the workers after it. */
  datatype State = State(file: CursorFile, mirror: Mirror)

  function Cursor(s: State): Option<nat> {
    if s.mirror.Read? then s.mirror.step else Parse(s.file)
  }

  /**
   What the outside world does during one call: the clock at the start, how much longer than
   asked the sleep lasts, and whether the cursor file can be written.
   */
  datatype Circumstances = Circumstances(startMs: nat, overrunMs: nat, writable: bool)

  datatype Minted = Minted(step: nat, nowMs: nat, waitedMs: nat)

  /** The wait a call asks for; none when the current step is past the cursor. */
  function WaitMs(last: Option<nat>, startMs: nat): nat {
    if last.Some? && StepAt(startMs) <= last.value then
      (last.value + 1) * STEP_MS - startMs + GRACE_MS
    else 0
  }

  predicate TooFarAhead(last: Option<nat>, startMs: nat) {
    last.Some? && last.value > StepAt(startMs) + 1
  }

  /** The reading of the clock that the step and the code are made from. */
  function MintedAt(last: Option<nat>, c: Circumstances): nat {
    var wait := WaitMs(last, c.startMs);
    if wait > 0 then c.startMs + wait + c.overrunMs else c.startMs
  }

  function MintedStep(last: Option<nat>, c: Circumstances): nat {
    StepAt(MintedAt(last, c))
  }

  /** The state one call leaves. */
  function AfterMint(s: State, c: Circumstances): State {
    var last := Cursor(s);
    if TooFarAhead(last, c.startMs) then s.(mirror := Read(last))
    else
      var step := MintedStep(last, c);
      State(if c.writable then Holds(step as real) else s.file, Read(Some(step)))
  }

  class Harness {
    var file: CursorFile
    var mirror: Mirror

    function Abstract(): State
      reads this
    {
      State(file, mirror)
    }

    constructor (file: CursorFile)
      ensures Abstract() == State(file, Unread)
    {
      this.file := file;
      mirror := Unread;
    }

    /** `readAdminTotpStep`: the mirror, primed from the file on the first read. */
    method ReadStep() returns (last: Option<nat>)
      modifies this`mirror
      ensures last == Cursor(old(Abstract())) && mirror == Read(last)
    {
      if mirror.Read? {
        return mirror.step;
      }
      last := Parse(file);
      mirror := Read(last);
    }

    /** `persistAdminTotpStep`: the mirror first, then the file if it can be written. */
    method PersistStep(step: nat, writable: bool)
      modifies this
      ensures mirror == Read(Some(step))
      ensures file == if writable then Holds(step as real) else old(file)
    {
      mirror := Read(Some(step));
      if writable {
        file := Holds(step as real);
      }
    }

    /**
     `freshAdminTotpCode` up to the code itself. A cursor too far ahead throws, and writes
     nothing; otherwise the step is past every step known, was reserved before the code
     exists, and the wait is bounded by two steps and the grace.
     */
    method FreshCode(c: Circumstances) returns (r: Outcome<Minted>)
      modifies this
      ensures Abstract() == AfterMint(old(Abstract()), c)
      ensures r.Threw? <==> TooFarAhead(Cursor(old(Abstract())), c.startMs)
      ensures r.Threw? ==> file == old(file)
      ensures r.Done? ==>
                && r.value.step == StepAt(r.value.nowMs) && r.value.nowMs >= c.startMs + r.value.waitedMs
                && Cursor(Abstract()) == Some(r.value.step)
                && (Cursor(old(Abstract())).Some? ==> r.value.step > Cursor(old(Abstract())).value)
                && r.value.waitedMs <= 2 * 30_000 + 100
      ensures r.Done? ==>
                var last := Cursor(old(Abstract()));
                if last.Some? && c.startMs / 30_000 <= last.value
                then c.startMs + r.value.waitedMs == (last.value + 1) * 30_000 + 100
                else r.value.waitedMs == 0 && r.value.nowMs == c.startMs
    {
      var nowMs := c.startMs;
      var waited := 0;
      var last := ReadStep();
      var current := StepAt(nowMs);
      if last.Some? && current <= last.value {
        var waitMs := (last.value + 1) * STEP_MS - nowMs + GRACE_MS;
        if last.value > current + 1 {
          return Threw;
        }
        waited := waitMs;
        nowMs := nowMs + waitMs + c.overrunMs;
      }
      var step := StepAt(nowMs);
      PersistStep(step, c.writable);
      r := Done(Minted(step, nowMs, waited));
    }
  }

  // ---- Runs ----

  /** How far a call gets before its worker dies, if it does. */
  datatype Crash = NoCrash | BeforeReserving | BeforeMinting

  datatype Event = Mint(c: Circumstances, crash: Crash) | Restart

  /** The world over a run: the state, the steps reserved so far, and those codes exist for. */
  datatype World = World(state: State, reserved: seq<nat>, minted: seq<nat>)

  function Died(s: State): State {
    s.(mirror := Unread)
  }

  function Next(w: World, e: Event): World {
    match e
    case Restart => w.(state := Died(w.state))
    case Mint(c, crash) =>
      if crash == BeforeReserving then w.(state := Died(w.state))
      else if TooFarAhead(Cursor(w.state), c.startMs) then w.(state := AfterMint(w.state, c))
      else
        var step := MintedStep(Cursor(w.state), c);
        var s := AfterMint(w.state, c);
        if crash == BeforeMinting then World(Died(s), w.reserved + [step], w.minted)
        else World(s, w.reserved + [step], w.minted + [step])
  }

  function Run(w: World, events: seq<Event>): World
    decreases |events|
  {
    if events == [] then w else Run(Next(w, events[0]), events[1..])
  }

  predicate Increasing(steps: seq<nat>) {
    forall i, j :: 0 <= i < j < |steps| ==> steps[i] < steps[j]
  }

  /** `some` with entries left out. */
  predicate Within(some: seq<nat>, all: seq<nat>) {
    forall i :: 0 <= i < |some| ==> some[i] in all
  }

  /** The cursor the next call will use is not behind the last reservation. */
  predicate UpToDate(w: World) {
    w.reserved != [] ==> Cursor(w.state).Some? && Cursor(w.state).value >= w.reserved[|w.reserved| - 1]
  }

  /** Every reservation so far is past all earlier ones, and so is every code. */
  predicate NoReuse(w: World) {
    Increasing(w.reserved) && Increasing(w.minted) && Within(w.minted, w.reserved)
  }

  /** The worker forgets nothing at this event: whatever it reserved is in the file. */
  predicate Remembers(w: World, e: Event) {
    match e
    case Restart => Parse(w.state.file) == Cursor(w.state)
    case Mint(c, NoCrash) => true
    case Mint(c, BeforeReserving) => Parse(w.state.file) == Cursor(w.state)
    case Mint(c, BeforeMinting) =>
      if TooFarAhead(Cursor(w.state), c.startMs) then true
      else c.writable && MintedStep(Cursor(w.state), c) <= MAX_SAFE
  }

  /** The same along a run. */
  predicate AlwaysRemembers(w: World, events: seq<Event>)
    decreases |events|
  {
    events == [] || (Remembers(w, events[0]) && AlwaysRemembers(Next(w, events[0]), events[1..]))
  }

  lemma MintedIsPast(last: Option<nat>, c: Circumstances)
    requires !TooFarAhead(last, c.startMs)
    ensures last.Some? ==> MintedStep(last, c) > last.value
  {
  }

  lemma NextKeepsOrder(w: World, e: Event)
    requires NoReuse(w) && UpToDate(w) && Remembers(w, e)
    ensures NoReuse(Next(w, e)) && UpToDate(Next(w, e))
  {
    if e.Mint? && e.crash != BeforeReserving && !TooFarAhead(Cursor(w.state), e.c.startMs) {
      var step := MintedStep(Cursor(w.state), e.c);
      MintedIsPast(Cursor(w.state), e.c);
      assert forall i :: 0 <= i < |w.reserved| ==> w.reserved[i] <= w.reserved[|w.reserved| - 1] < step;
      assert forall i :: 0 <= i < |w.minted| ==> w.minted[i] in w.reserved && w.minted[i] < step;
    }
  }

  /**
   From any initial cursor file, in every run that never forgets a reservation, no step is
   reserved twice, steps only go up, and so no code is minted twice.
   */
  lemma {:induction false} StepsAreNeverReused(w: World, events: seq<Event>)
    requires NoReuse(w) && UpToDate(w) && AlwaysRemembers(w, events)
    ensures NoReuse(Run(w, events)) && UpToDate(Run(w, events))
    decreases |events|
  {
    if events != [] {
      NextKeepsOrder(w, events[0]);
      StepsAreNeverReused(Next(w, events[0]), events[1..]);
    }
  }

  /** All clocks and files are sane: every write succeeds and no step leaves the safe integers. */
  predicate Durable(events: seq<Event>) {
    forall i :: 0 <= i < |events| && events[i].Mint? ==>
      events[i].c.writable && events[i].c.startMs + events[i].c.overrunMs + 3 * STEP_MS <= MAX_SAFE
  }

  /** What a worker knows is in the file. */
  predicate Backed(s: State) {
    s.mirror.Read? ==> s.mirror.step == Parse(s.file)
  }

  lemma {:induction false} DurableRunsRemember(w: World, events: seq<Event>)
    requires Backed(w.state) && Durable(events)
    ensures AlwaysRemembers(w, events)
    decreases |events|
  {
    if events != [] {
      var e := events[0];
      if e.Mint? && e.crash != BeforeReserving && !TooFarAhead(Cursor(w.state), e.c.startMs) {
        var step := MintedStep(Cursor(w.state), e.c);
        assert step <= MAX_SAFE && Parse(Holds(step as real)) == Some(step);
      }
      assert Backed(Next(w, e).state);
      DurableRunsRemember(Next(w, e), events[1..]);
    }
  }

  /**
   With durable writes, whatever the crashes, restarts, clocks and initial file: reserved and
   minted steps strictly increase over the whole run.
   */
  lemma DurableRunsNeverReuse(file: CursorFile, events: seq<Event>)
    requires Durable(events)
    ensures var w := Run(World(State(file, Unread), [], []), events);
            Increasing(w.reserved) && Increasing(w.minted) && Within(w.minted, w.reserved)
  {
    var w := World(State(file, Unread), [], []);
    DurableRunsRemember(w, events);
    StepsAreNeverReused(w, events);
  }

  /** If the run forgets nothing, its reservations only go up. */
  predicate NeverGoesBack(w: World, events: seq<Event>) {
    AlwaysRemembers(w, events) ==> Increasing(Run(w, events).reserved)
  }

  /**
   A restart is safe exactly when the file holds the last reserved step or a later one: then
   every run from there keeps reservations increasing, and otherwise some run does not.
   */
  lemma RestartIsSafeExactlyWhenRecorded(w: World)
    requires w.reserved != [] && NoReuse(w)
    ensures var last, known := w.reserved[|w.reserved| - 1], Parse(w.state.file);
            (forall events :: NeverGoesBack(Next(w, Restart), events)) <==>
            known.Some? && known.value >= last
  {
    var v, last, known := Next(w, Restart), w.reserved[|w.reserved| - 1], Parse(w.state.file);
    if known.Some? && known.value >= last {
      forall events ensures NeverGoesBack(v, events) {
        if AlwaysRemembers(v, events) {
          StepsAreNeverReused(v, events);
        }
      }
    } else {
      var c := Circumstances(last * STEP_MS, 0, true);
      assert StepAt(c.startMs) == last && !TooFarAhead(known, c.startMs) && MintedStep(known, c) == last;
      var events := [Mint(c, NoCrash)];
      assert events[1..] == [];
      assert AlwaysRemembers(Next(v, events[0]), []) && AlwaysRemembers(v, events);
      var after := Run(v, events);
      assert after == Run(Next(v, events[0]), []) && after.reserved == w.reserved + [last];
      var n := |w.reserved|;
      assert !(after.reserved[n - 1] < after.reserved[n]);
      assert !Increasing(after.reserved);
      assert !NeverGoesBack(v, events);
    }
  }

  /**
   The write is best effort, and a lost one matters only after a restart: a worker that could
   not write and then dies lets the next one mint the very same step again.
   */
  lemma LostWriteRepeatsAStep(nowMs: nat)
    ensures var c := Circumstances(nowMs, 0, false);
            var w := Run(World(State(Absent, Unread), [], []), [Mint(c, NoCrash), Restart, Mint(c, NoCrash)]);
            w.minted == [StepAt(nowMs), StepAt(nowMs)]
  {
    var c := Circumstances(nowMs, 0, false);
    var w0 := World(State(Absent, Unread), [], []);
    var es := [Mint(c, NoCrash), Restart, Mint(c, NoCrash)];
    var w1 := Next(w0, es[0]);
    assert w1 == World(State(Absent, Read(Some(StepAt(nowMs)))), [StepAt(nowMs)], [StepAt(nowMs)]);
    var w2 := Next(w1, es[1]);
    assert es[1..] == [Restart, Mint(c, NoCrash)] && es[1..][1..] == [Mint(c, NoCrash)];
    assert es[1..][1..][1..] == [];
    assert Run(w2, [Mint(c, NoCrash)]) == Run(Next(w2, Mint(c, NoCrash)), []);
  }

  // ---- The counter hashed into the code ----

  /**
   What is used of double arithmetic: rounding is monotone, leaves integers up to 2^53 alone, and
   lifts a number from one half on by no more than one part in 2^53.
   */
  ghost predicate Doubles(round: real -> real) {
    && (forall x, y :: x <= y ==> round(x) <= round(y))
    && (forall x: real :: x == x.Floor as real && 0 <= x.Floor <= MAX_SAFE ==> round(x) == x)
    && (forall x: real :: x >= 0.5 ==> round(x) * PRECISION <= x * (PRECISION + 1.0))
  }

  const PRECISION := 9_007_199_254_740_992.0

  /** Readings of the clock up to about the year 73,000. */
  const LATEST: nat := 2_251_799_813_685_248

  /** The step as `totpStepAt` computes it. */
  function RoundedStep(round: real -> real, nowMs: nat): int {
    round(nowMs as real / 30000.0).Floor
  }

  /** The counter as `generateTotpCode` computes it. */
  function CounterAt(round: real -> real, nowMs: nat): int {
    round(round(nowMs as real / 1000.0) / 30.0).Floor
  }

  /** Rounding never carries a reading over the end of its step. */
  lemma CounterIsTheReservedStep(round: real -> real, nowMs: nat)
    requires Doubles(round) && nowMs <= LATEST
    ensures CounterAt(round, nowMs) == StepAt(nowMs) == RoundedStep(round, nowMs)
  {
    hide Doubles;
    var k, x := StepAt(nowMs), nowMs as real;
    ReadingInStep(nowMs, k);
    StaysInStep(round, x / 30_000.0, k, 1.0 / 30_000.0);
    SecondsInStep(round, x, k);
    StaysInStep(round, round(x / 1000.0) / 30.0, k, 1.0 / 60_000.0);
  }

  lemma ReadingInStep(nowMs: nat, k: nat)
    requires k == StepAt(nowMs) && nowMs <= LATEST
    ensures k <= LATEST / 30_000
    ensures 30_000.0 * k as real <= nowMs as real <= 30_000.0 * (k as real + 1.0) - 1.0
  {
    assert 30_000 * k <= nowMs <= 30_000 * (k + 1) - 1;
  }

  /** A number at least `gap` below the end of its step rounds to within the step. */
  lemma StaysInStep(round: real -> real, y: real, k: nat, gap: real)
    requires Doubles(round) && k <= LATEST / 30_000 && gap >= 1.0 / 60_000.0
    requires k as real <= y <= k as real + 1.0 - gap
    ensures round(y).Floor == k
  {
    var low := k as real;
    assert low.Floor == k && round(low) == low <= round(y);
    if y < 0.5 {
      assert round(y) <= round(0.5) <= 0.75;
    } else {
      StaysBelow(round(y), y, low, gap);
    }
  }

  lemma StaysBelow(rounded: real, y: real, k: real, gap: real)
    requires rounded * PRECISION <= y * (PRECISION + 1.0)
    requires 0.0 <= y <= k + 1.0 - gap && k <= 75_059_993_790.0 && gap >= 1.0 / 60_000.0
    ensures rounded < k + 1.0
  {
    assert y * (PRECISION + 1.0) == y * PRECISION + y;
    assert gap * PRECISION >= 150_119_987_579.0;
    assert y * PRECISION <= (k + 1.0) * PRECISION - gap * PRECISION;
  }

  /** The first division keeps a reading in its step, in seconds. */
  lemma SecondsInStep(round: real -> real, x: real, k: nat)
    requires Doubles(round) && k <= LATEST / 30_000
    requires 30_000.0 * k as real <= x <= 30_000.0 * (k as real + 1.0) - 1.0
    ensures k as real <= round(x / 1000.0) / 30.0 <= k as real + 1.0 - 1.0 / 60_000.0
  {
    var low, second := (30 * k) as real, round(x / 1000.0);
    assert low.Floor == 30 * k && low == 30.0 * k as real <= x / 1000.0;
    assert round(low) == low <= second;
    var bound := if x / 1000.0 >= 0.5 then x / 1000.0 else 0.5;
    assert second <= round(bound);
    SecondsBelow(x, bound, second, k as real);
  }

  /** Half of the gap is left after the first division. */
  lemma SecondsBelow(x: real, bound: real, second: real, k: real)
    requires 0.0 <= x <= 30_000.0 * (k + 1.0) - 1.0 && 0.0 <= k <= 75_059_993_790.0
    requires bound == (if x / 1000.0 >= 0.5 then x / 1000.0 else 0.5) && second * PRECISION <= bound * (PRECISION + 1.0)
    ensures second / 30.0 <= k + 1.0 - 1.0 / 60_000.0
  {
    var top := 30.0 * (k + 1.0);
    assert bound <= top - 0.001;
    assert bound * (PRECISION + 1.0) <= (top - 0.001) * PRECISION + top;
    assert top <= 0.0005 * PRECISION;
    assert second * PRECISION <= (top - 0.0005) * PRECISION;
  }

  /** `writeUInt32BE`. */
  function BigEndian32(n: nat): (bytes: seq<nat>)
    requires n < WORD
    ensures |bytes| == 4 && Digits(bytes, 256) && Num(bytes, 256) == n
  {
    var high, low := n / 0x1_0000, n % 0x1_0000;
    var bytes := [high / 256, high % 256, low / 256, low % 256];
    NumOf4(bytes);
    bytes
  }

  lemma NumOf4(bytes: seq<nat>)
    requires |bytes| == 4
    ensures Num(bytes, 256) == ((bytes[0] * 256 + bytes[1]) * 256 + bytes[2]) * 256 + bytes[3]
  {
    NumConcat4([], bytes);
    assert [] + bytes == bytes;
  }

  /**
   The eight bytes hashed into a code are the big-endian counter of RFC 6238 section 4.2, and
   the counter is the step reserved for the same reading of the clock.
   */
  method CounterBytes(round: real -> real, nowMs: nat) returns (buf: seq<nat>)
    requires Doubles(round) && nowMs <= LATEST
    ensures |buf| == 8 && Digits(buf, 256) && Num(buf, 256) == StepAt(nowMs)
  {
    CounterIsTheReservedStep(round, nowMs);
    var counter := CounterAt(round, nowMs);
    var high, low := BigEndian32(counter / WORD), BigEndian32(counter % WORD);
    buf := high + low;
    NumOf4(low);
    NumConcat4(high, low);
  }

  lemma NumConcat4(high: seq<nat>, low: seq<nat>)
    requires |low| == 4
    ensures Num(high + low, 256) ==
            (((Num(high, 256) * 256 + low[0]) * 256 + low[1]) * 256 + low[2]) * 256 + low[3]
  {
    NumAppend(high, low[0], 256);
    NumAppend(high + [low[0]], low[1], 256);
    NumAppend(high + [low[0]] + [low[1]], low[2], 256);
    NumAppend(high + [low[0]] + [low[1]] + [low[2]], low[3], 256);
    assert high + low == high + [low[0]] + [low[1]] + [low[2]] + [low[3]];
  }
}
