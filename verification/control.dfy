/** The decisions of the real-time control loop: the initial seeding, the
    frame pacing clock, the pause state machine, speed changes, the reaction
    to each board event, and whether a frame advances the generation.
    Times and durations are nanoseconds read from a monotonic clock and
    passed in as numbers. */
module Control {
  import opened Wrappers
  import opened Boards
  import opened Logic
  import opened Events

  /** The initial frame duration, 64 ms. */
  const InitialFrameDuration: nat := 64_000_000

  /** How long each frame polls for input, 16 ms. */
  const PollSlice: nat := 16_000_000

  /** At most this many diagonal cells are seeded. */
  const SeedLimit: nat := 25

  function Min(a: nat, b: nat): nat
  {
    if a <= b then a else b
  }

  // ---------------------------------------------------------------- start-up

  /** The seeding loop: flips `(i, i)` for every `i` in `from .. n - 1`. */
  function SeedDiagonal(b: Board, from: nat, n: nat): (r: Board)
    requires Valid(b) && n <= b.width && n <= b.height
    ensures Valid(r) && r.width == b.width && r.height == b.height
    ensures forall p: Pos :: CheckIndex(b, p) ==>
      At(r, p) == if p.0 == p.1 && from <= p.0 < n then Flip(At(b, p)) else At(b, p)
    decreases n - from
  {
    if from >= n then b
    else SeedDiagonal(Write(b, (from, from), Flip(At(b, (from, from)))), from + 1, n)
  }

  /** The board the loop starts from: a `width × height` board whose live
      cells are the first `min(25, width, height)` cells of the diagonal. */
  function InitialBoard(width: nat, height: nat): (r: Result<Board, Panic>)
    ensures r.Err? <==> width == 0 || height == 0
    ensures r.Ok? ==> Valid(r.value) && r.value.width == width && r.value.height == height
    ensures r.Ok? ==> forall p: Pos :: CheckIndex(r.value, p) ==>
      (At(r.value, p) == Live <==> p.0 == p.1 && p.0 < Min(SeedLimit, Min(width, height)))
  {
    match New(width, height)
    case Err(e) => Err(e)
    case Ok(b) => Ok(SeedDiagonal(b, 0, Min(SeedLimit, Min(b.width, b.height))))
  }

  // ---------------------------------------------------------------- pacing

  /** `remaining_time`: what is left of `d` since `start`, or `None` once it
      has run out (elapsed time saturates at zero, as `Instant` subtraction does). */
  function RemainingTime(start: nat, now: nat, d: nat): (r: Option<nat>)
    ensures var passed := if now >= start then now - start else 0;
      && (r.None? <==> passed >= d)
      && (r.Some? ==> 0 < r.value <= d && passed + r.value == d)
  {
    var passed := if now >= start then now - start else 0;
    if passed >= d then None else Some(d - passed)
  }

  /** Whether a frame starting at `now` is due to advance the generation. */
  predicate ShouldCompute(now: nat, lastUpdated: nat, frameDuration: nat)
  {
    now > lastUpdated + frameDuration
  }

  /** Once a generation is due it stays due as the clock advances, and a
      shorter frame duration is due no later than a longer one. */
  lemma DueStaysDue(now: nat, now': nat, lastUpdated: nat, frameDuration: nat, frameDuration': nat)
    requires ShouldCompute(now, lastUpdated, frameDuration)
    ensures now <= now' ==> ShouldCompute(now', lastUpdated, frameDuration)
    ensures frameDuration' <= frameDuration ==> ShouldCompute(now, lastUpdated, frameDuration')
    ensures !ShouldCompute(lastUpdated + frameDuration, lastUpdated, frameDuration)
  {
  }

  /** The reaction to `Speed(increase)`: halve (rounding down, so it can reach
      zero) to speed up, double to slow down. */
  function ChangeSpeed(d: nat, increase: bool): (r: nat)
    ensures increase ==> 2 * r <= d <= 2 * r + 1
    ensures !increase ==> r == 2 * d
  {
    if increase then d / 2 else d * 2
  }

  /** Slowing down and then speeding up restores the frame duration. */
  lemma SlowDownThenSpeedUp(d: nat)
    ensures ChangeSpeed(ChangeSpeed(d, false), true) == d
  {}

  // ---------------------------------------------------------------- pause

  datatype PauseState = Disabled | JustEnabled | Activated

  /** The reaction to `Pause`: enable when disabled, otherwise disable. */
  function TogglePause(p: PauseState): (r: PauseState)
    ensures r == JustEnabled <==> p == Disabled
    ensures r != Activated
  {
    if p != Disabled then Disabled else JustEnabled
  }

  /** What the end of a frame decides about the pause state. */
  datatype PauseStep = PauseStep(paused: bool, next: PauseState)

  /** The end-of-frame step: a freshly enabled pause becomes active without
      pausing this frame; only an active pause pauses. */
  function EndOfFrame(p: PauseState): (r: PauseStep)
    ensures r.paused <==> p == Activated
    ensures p == JustEnabled ==> r.next == Activated
    ensures p != JustEnabled ==> r.next == p
  {
    match p
    case Disabled => PauseStep(false, p)
    case JustEnabled => PauseStep(false, Activated)
    case Activated => PauseStep(true, p)
  }

  // ---------------------------------------------------------------- events

  /** What the loop owns. */
  datatype LoopState = LoopState(board: Board, frameDuration: nat, pause: PauseState, lastUpdated: nat)

  predicate ValidState(s: LoopState)
  {
    Valid(s.board)
  }

  /** The state the loop is in after the start-up code, at clock reading `now`. */
  function Start(width: U16, height: U16, now: nat): (r: Result<LoopState, Panic>)
    ensures r.Err? <==> width == 0 || height == 0
    ensures r.Ok? ==> ValidState(r.value) && r.value.board == InitialBoard(width, height).value
    ensures r.Ok? ==> r.value.frameDuration == InitialFrameDuration && r.value.pause == Disabled
    ensures r.Ok? ==> r.value.lastUpdated == now
  {
    match InitialBoard(width, height)
    case Err(e) => Err(e)
    case Ok(b) => Ok(LoopState(b, InitialFrameDuration, Disabled, now))
  }

  /** The reaction to `MouseClick`: flip the cell under the pointer when it
      is on the board, ignore the click otherwise. */
  function Click(b: Board, x: nat, y: nat): (r: Board)
    requires Valid(b)
    ensures Valid(r) && r.width == b.width && r.height == b.height
    ensures CheckIndex(b, (x, y)) ==> At(r, (x, y)) == Flip(At(b, (x, y)))
    ensures forall p: Pos :: CheckIndex(b, p) && p != (x, y) ==> At(r, p) == At(b, p)
    ensures !CheckIndex(b, (x, y)) ==> r == b
  {
    if CheckIndex(b, (x, y)) then Write(b, (x, y), Flip(At(b, (x, y)))) else b
  }

  /** Where the loop stands: still running, left by `Exit`, or panicked. */
  datatype Outcome = Running(state: LoopState) | Exited(state: LoopState) | Panicked(panic: Panic)

  /** The reaction to one board event: each event changes only its own part
      of the state; `Exit` leaves the loop with the state as it is. */
  function ApplyEvent(s: LoopState, e: BoardEvent): (r: Outcome)
    requires ValidState(s)
    ensures r.Exited? <==> e.Exit?
    ensures r.Exited? ==> r.state == s
    ensures r.Panicked? <==> e.Resized? && (e.x == 0 || e.y == 0)
    ensures r.Running? ==> ValidState(r.state) && r.state.lastUpdated == s.lastUpdated
    ensures r.Running? && !e.MouseClick? && !e.Resized? ==> r.state.board == s.board
    ensures r.Running? && !e.Pause? ==> r.state.pause == s.pause
    ensures r.Running? && !e.Speed? ==> r.state.frameDuration == s.frameDuration
    ensures e.MouseClick? ==> r.Running? && r.state.board == Click(s.board, e.x, e.y)
    ensures e.Resized? && r.Running? ==> Logic.Resize(s.board, e.x, e.y) == Ok(r.state.board)
    ensures e.Pause? ==> r.Running? && r.state.pause == TogglePause(s.pause)
    ensures e.Speed? ==> r.Running? && r.state.frameDuration == ChangeSpeed(s.frameDuration, e.increase)
  {
    match e
    case MouseClick(x, y) => Running(s.(board := Click(s.board, x, y)))
    case Exit => Exited(s)
    case Resized(x, y) =>
      (match Logic.Resize(s.board, x, y)
       case Err(p) => Panicked(p)
       case Ok(b) => Running(s.(board := b)))
    case Pause => Running(s.(pause := TogglePause(s.pause)))
    case Speed(increase) => Running(s.(frameDuration := ChangeSpeed(s.frameDuration, increase)))
  }

  // ---------------------------------------------------------------- frames

  /** One check of `remaining_time` at clock reading `now`, and the event (if
      any) that polling returned while time remained. */
  datatype Tick = Tick(now: nat, event: Option<BoardEvent>)

  /** Whether the 16 ms slice of a frame begun at `start` still has time left
      at clock reading `now`. */
  predicate InTime(start: nat, now: nat)
  {
    RemainingTime(start, now, PollSlice).Some?
  }

  /** The ticks the polling loop gets to: the longest prefix of `ticks` whose
      checks all find time left. */
  function InSlice(start: nat, ticks: seq<Tick>): (r: seq<Tick>)
    ensures |r| <= |ticks| && r == ticks[..|r|]
    ensures forall i :: 0 <= i < |r| ==> InTime(start, ticks[i].now)
    ensures |r| < |ticks| ==> !InTime(start, ticks[|r|].now)
    decreases |ticks|
  {
    if ticks == [] || !InTime(start, ticks[0].now) then []
    else [ticks[0]] + InSlice(start, ticks[1..])
  }

  /** The events that polling returned, in order. */
  function PolledEvents(ticks: seq<Tick>): (r: seq<BoardEvent>)
    ensures |r| <= |ticks|
    ensures forall e :: e in r <==> exists i :: 0 <= i < |ticks| && ticks[i].event == Some(e)
    decreases |ticks|
  {
    if ticks == [] then []
    else
      var rest := PolledEvents(ticks[1..]);
      assert forall i :: 0 <= i < |ticks[1..]| ==> ticks[1..][i] == ticks[i + 1];
      match ticks[0].event
      case None => rest
      case Some(e) => [e] + rest
  }

  /** A resize to a zero dimension, the one event that panics. */
  predicate ZeroResize(e: BoardEvent)
  {
    e.Resized? && (e.x == 0 || e.y == 0)
  }

  /** The events handled one after another, until `Exit` or a panic ends
      the loop. */
  function Replay(s: LoopState, events: seq<BoardEvent>): (r: Outcome)
    requires ValidState(s)
    ensures !r.Panicked? ==> ValidState(r.state) && r.state.lastUpdated == s.lastUpdated
    ensures r.Exited? ==> Exit in events
    ensures r.Panicked? ==> exists e :: e in events && ZeroResize(e)
    ensures (forall e :: e in events ==> !e.Exit? && !ZeroResize(e)) ==> r.Running?
    decreases |events|
  {
    if events == [] then Running(s)
    else
      assert forall e :: e in events[1..] ==> e in events;
      match ApplyEvent(s, events[0])
      case Running(s') => Replay(s', events[1..])
      case Exited(s') => Exited(s')
      case Panicked(p) => assert ZeroResize(events[0]); Panicked(p)
  }

  /** A single event is handled by `ApplyEvent`. */
  lemma ReplayOne(s: LoopState, e: BoardEvent)
    requires ValidState(s)
    ensures Replay(s, [e]) == ApplyEvent(s, e)
  {
    assert [e][1..] == [];
  }

  /** Handling `a` and then `b` is handling `a + b`, unless `a` already
      ended the loop. */
  lemma {:induction false} ReplayAppend(s: LoopState, a: seq<BoardEvent>, b: seq<BoardEvent>)
    requires ValidState(s)
    ensures Replay(s, a + b) ==
      match Replay(s, a)
      case Running(s') => Replay(s', b)
      case other => other
    decreases |a|
  {
    if a == [] {
      assert a + b == b;
    } else {
      assert (a + b)[1..] == a[1..] + b;
      match ApplyEvent(s, a[0])
      case Running(s') => ReplayAppend(s', a[1..], b);
      case Exited(_) =>
      case Panicked(_) =>
    }
  }

  /** An `Exit` ends the loop with the state the events before it reached;
      whatever follows it is never handled. */
  lemma ExitStopsReplay(s: LoopState, before: seq<BoardEvent>, after: seq<BoardEvent>)
    requires ValidState(s) && Replay(s, before).Running?
    ensures Replay(s, before + [Exit] + after) == Exited(Replay(s, before).state)
  {
    ReplayAppend(s, before, [Exit] + after);
    assert before + [Exit] + after == before + ([Exit] + after);
  }

  /** The polling loop of a frame: while the 16 ms slice since `start` lasts,
      every polled event is handled in order; the first check that finds the
      slice used up (or the end of `ticks`) ends it, and `Exit` or a panic
      ends the whole loop. */
  function PollLoop(s: LoopState, start: nat, ticks: seq<Tick>): (r: Outcome)
    requires ValidState(s)
    ensures r == Replay(s, PolledEvents(InSlice(start, ticks)))
    ensures !r.Panicked? ==> ValidState(r.state) && r.state.lastUpdated == s.lastUpdated
    ensures ticks != [] && !InTime(start, ticks[0].now) ==> r == Running(s)
    decreases |ticks|
  {
    if ticks == [] then Running(s)
    else if !InTime(start, ticks[0].now) then Running(s)
    else
      var rest := ticks[1..];
      assert InSlice(start, ticks) == [ticks[0]] + InSlice(start, rest);
      assert ([ticks[0]] + InSlice(start, rest))[1..] == InSlice(start, rest);
      match ticks[0].event
      case None => PollLoop(s, start, rest)
      case Some(e) =>
        assert PolledEvents(InSlice(start, ticks)) == [e] + PolledEvents(InSlice(start, rest));
        assert ([e] + PolledEvents(InSlice(start, rest)))[1..] == PolledEvents(InSlice(start, rest));
        match ApplyEvent(s, e)
        case Running(s') => PollLoop(s', start, rest)
        case Exited(s') => Exited(s')
        case Panicked(p) => Panicked(p)
  }

  /** A check that finds the slice used up ends the polling: ticks after it
      change nothing. */
  lemma LaterTicksIgnored(s: LoopState, start: nat, ticks: seq<Tick>, i: nat)
    requires ValidState(s) && i < |ticks| && !InTime(start, ticks[i].now)
    ensures PollLoop(s, start, ticks) == PollLoop(s, start, ticks[..i])
  {
    SliceStopsAt(start, ticks, i);
  }

  /** The slice ends no later than the first tick found out of time. */
  lemma SliceStopsAt(start: nat, ticks: seq<Tick>, i: nat)
    requires i < |ticks| && !InTime(start, ticks[i].now)
    ensures InSlice(start, ticks) == InSlice(start, ticks[..i])
  {
  }

  /** The events polled from `ticks`, split at any point. */
  lemma {:induction false} PolledEventsAppend(a: seq<Tick>, b: seq<Tick>)
    ensures PolledEvents(a + b) == PolledEvents(a) + PolledEvents(b)
    decreases |a|
  {
    if a == [] {
      assert a + b == b;
    } else {
      assert (a + b)[1..] == a[1..] + b;
      PolledEventsAppend(a[1..], b);
    }
  }

  /** `Exit` polled at any tick inside the slice ends the loop at once, with
      the state the events polled before it reached: nothing after it is
      handled, and no pause step or generation step follows. */
  lemma ExitEndsTheLoop(s: LoopState, start: nat, ticks: seq<Tick>, i: nat, finish: nat)
    requires ValidState(s) && i < |InSlice(start, ticks)| && ticks[i].event == Some(Exit)
    requires Replay(s, PolledEvents(ticks[..i])).Running?
    ensures Frame(s, start, ticks, finish) == Exited(Replay(s, PolledEvents(ticks[..i])).state)
  {
    var slice := InSlice(start, ticks);
    assert slice == ticks[..i] + [ticks[i]] + slice[i + 1..];
    PolledEventsAppend(ticks[..i] + [ticks[i]], slice[i + 1..]);
    PolledEventsAppend(ticks[..i], [ticks[i]]);
    assert PolledEvents([ticks[i]]) == [Exit];
    ExitStopsReplay(s, PolledEvents(ticks[..i]), PolledEvents(slice[i + 1..]));
  }

  /** One iteration of the outer loop. Whether the generation advances is
      decided from the clock at `start` against the pacing in force when the
      frame began, and the pause state after the polling loop; advancing
      runs `next_state` (its log discarded) and stamps `finish`. */
  function Frame(s: LoopState, start: nat, ticks: seq<Tick>, finish: nat): (r: Outcome)
    requires ValidState(s)
    ensures var polled := PollLoop(s, start, ticks);
      !polled.Running? ==> r == polled
    ensures var polled := PollLoop(s, start, ticks);
      polled.Running? ==>
        var q := polled.state;
        var advance := ShouldCompute(start, s.lastUpdated, s.frameDuration) && q.pause != Activated;
        && r.Running? && ValidState(r.state)
        && r.state.frameDuration == q.frameDuration
        && r.state.pause == (if q.pause == JustEnabled then Activated else q.pause)
        && r.state.board == (if advance then NextState(q.board, map[]).board else q.board)
        && r.state.lastUpdated == (if advance then finish else s.lastUpdated)
  {
    var shouldComputeState := ShouldCompute(start, s.lastUpdated, s.frameDuration);
    match PollLoop(s, start, ticks)
    case Running(q) =>
      var step := EndOfFrame(q.pause);
      var q' := q.(pause := step.next);
      if shouldComputeState && !step.paused then
        Running(q'.(board := NextState(q'.board, map[]).board, lastUpdated := finish))
      else Running(q')
    case other => other
  }

  /** Whether the event polled at `t` is a resize to a zero dimension. */
  predicate PanicsOn(t: Tick)
  {
    t.event.Some? && ZeroResize(t.event.value)
  }

  /** What one iteration of the outer loop observes. */
  datatype FrameInput = FrameInput(start: nat, ticks: seq<Tick>, finish: nat)

  /** The ticks of a frame that its polling loop reaches. */
  function Polled(f: FrameInput): seq<Tick>
  {
    InSlice(f.start, f.ticks)
  }

  /** The outer loop over a sequence of frames, stopping at `Exit` or a panic. */
  function Run(s: LoopState, frames: seq<FrameInput>): (r: Outcome)
    requires ValidState(s)
    ensures !r.Panicked? ==> ValidState(r.state)
    ensures r.Exited? ==> exists k, i :: 0 <= k < |frames| && 0 <= i < |Polled(frames[k])| && Polled(frames[k])[i].event == Some(Exit)
    ensures r.Panicked? ==> exists k, i :: 0 <= k < |frames| && 0 <= i < |Polled(frames[k])| && PanicsOn(Polled(frames[k])[i])
    ensures (forall k, i :: 0 <= k < |frames| && 0 <= i < |Polled(frames[k])| ==>
               Polled(frames[k])[i].event != Some(Exit) && !PanicsOn(Polled(frames[k])[i])) ==> r.Running?
    decreases |frames|
  {
    if frames == [] then Running(s)
    else
      assert forall k :: 0 <= k < |frames[1..]| ==> frames[1..][k] == frames[k + 1];
      match Frame(s, frames[0].start, frames[0].ticks, frames[0].finish)
      case Running(s') => Run(s', frames[1..])
      case Exited(q) =>
        assert Exit in PolledEvents(Polled(frames[0]));
        Exited(q)
      case Panicked(p) =>
        var e :| e in PolledEvents(Polled(frames[0])) && ZeroResize(e);
        var i :| 0 <= i < |Polled(frames[0])| && Polled(frames[0])[i].event == Some(e);
        assert PanicsOn(Polled(frames[0])[i]);
        Panicked(p)
  }

  /** A single frame of the outer loop is one `Frame`. */
  lemma RunOneFrame(s: LoopState, f: FrameInput)
    requires ValidState(s)
    ensures Run(s, [f]) == Frame(s, f.start, f.ticks, f.finish)
  {
    assert [f][1..] == [];
  }

  /** Running `f1` and then `f2` is running `f1 + f2`, unless `f1` already
      ended the loop. */
  lemma {:induction false} RunAppend(s: LoopState, f1: seq<FrameInput>, f2: seq<FrameInput>)
    requires ValidState(s)
    ensures Run(s, f1 + f2) ==
      match Run(s, f1)
      case Running(s') => Run(s', f2)
      case other => other
    decreases |f1|
  {
    if f1 == [] {
      assert f1 + f2 == f2;
    } else {
      assert (f1 + f2)[1..] == f1[1..] + f2;
      match Frame(s, f1[0].start, f1[0].ticks, f1[0].finish)
      case Running(s') => RunAppend(s', f1[1..], f2);
      case Exited(_) =>
      case Panicked(_) =>
    }
  }

  // ---------------------------------------------------------------- behaviour

  /** A pause requested while running takes effect one frame late: the frame
      that receives it still advances when due, and the next one does not. */
  lemma PauseTakesEffectNextFrame(s: LoopState, start: nat, now: nat, finish: nat, start': nat, finish': nat)
    requires ValidState(s) && s.pause == Disabled && start <= now < start + PollSlice
    ensures var r := Frame(s, start, [Tick(now, Some(Pause))], finish);
      && r.Running?
      && r.state.pause == Activated
      && r.state.board == (if ShouldCompute(start, s.lastUpdated, s.frameDuration)
                           then NextState(s.board, map[]).board else s.board)
      && Frame(r.state, start', [], finish') == Running(r.state)
  {
    var ticks := [Tick(now, Some(Pause))];
    assert PollLoop(s, start, ticks) == Running(s.(pause := JustEnabled)) by {
      assert ticks[1..] == [];
    }
  }

  /** Lifting a pause takes effect in the same frame. */
  lemma UnpauseTakesEffectAtOnce(s: LoopState, start: nat, now: nat, finish: nat)
    requires ValidState(s) && s.pause == Activated && start <= now < start + PollSlice
    requires ShouldCompute(start, s.lastUpdated, s.frameDuration)
    ensures var r := Frame(s, start, [Tick(now, Some(Pause))], finish);
      r == Running(s.(board := NextState(s.board, map[]).board, pause := Disabled, lastUpdated := finish))
  {
    var ticks := [Tick(now, Some(Pause))];
    assert PollLoop(s, start, ticks) == Running(s.(pause := Disabled)) by {
      assert ticks[1..] == [];
    }
  }
}
