/** The debounced push button with click and long press. */
module ButtonSpec {

  const DEBOUNCE_MS: nat := 50
  const LONG_PRESS_MS: nat := 3000
  const CLOCK: nat := 0x1_0000_0000  // millis() is a uint32_t

  datatype Action = Click | LongPress

  /** One call of buttonCheck: the pin, and the true times at which the code reads
      the clock, in the order in which it reads it. millis() shows them modulo
      2^32. A released poll reads the clock once, at `t0`. */
  datatype Poll = Poll(pressed: bool, t0: nat, t1: nat, t2: nat)

  /** isPress and buttonPressMs: 0 up, 1 down, 2 debounced, 3 long press done. */
  datatype State = State(isPress: nat, pressMs: nat)

  /** Difference of two uint32_t values. */
  function Sub32(a: nat, b: nat): nat {
    (a % CLOCK + CLOCK - b % CLOCK) % CLOCK
  }

  function Step(s: State, p: Poll): (r: (State, seq<Action>)) {
    if p.pressed then
      var s1 := if s.isPress == 0 then State(1, p.t0 % CLOCK) else s;
      var s2 := if s1.isPress == 1 && Sub32(p.t1, s1.pressMs) > DEBOUNCE_MS then s1.(isPress := 2) else s1;
      if s2.isPress == 2 && Sub32(p.t2, s2.pressMs) >= LONG_PRESS_MS then (s2.(isPress := 3), [LongPress])
      else (s2, [])
    else if s.isPress == 2 then
      (s.(isPress := 0), [if Sub32(p.t0, s.pressMs) < LONG_PRESS_MS then Click else LongPress])
    else (s.(isPress := 0), [])
  }

  function Run(s: State, polls: seq<Poll>): (r: (State, seq<Action>))
    decreases |polls|
  {
    if polls == [] then (s, [])
    else
      var n := |polls| - 1;
      var (s', actions) := Run(s, polls[..n]);
      var (s'', more) := Step(s', polls[n]);
      (s'', actions + more)
  }

  lemma {:induction false} RunAppend(s: State, x: seq<Poll>, y: seq<Poll>)
    ensures var (s1, a1) := Run(s, x);
            Run(s, x + y) == (Run(s1, y).0, a1 + Run(s1, y).1)
    decreases |y|
  {
    if y == [] {
      assert x + y == x;
      assert Run(s, x).1 + [] == Run(s, x).1;
    } else {
      var n := |y| - 1;
      RunAppend(s, x, y[..n]);
      assert (x + y)[..|x + y| - 1] == x + y[..n];
      var s1 := Run(s, x).0;
      assert (Run(s, x).1 + Run(s1, y[..n]).1) + Step(Run(s1, y[..n]).0, y[n]).1
          == Run(s, x).1 + (Run(s1, y[..n]).1 + Step(Run(s1, y[..n]).0, y[n]).1);
    }
  }

  /** Modular subtraction is true elapsed time for less than 2^32 ms. */
  lemma {:induction false} Elapsed(a: nat, b: nat)
    requires b <= a < b + CLOCK
    ensures Sub32(a, b) == a - b && Sub32(a, b % CLOCK) == a - b
  {
    assert a % CLOCK == b % CLOCK + (a - b) || a % CLOCK == b % CLOCK + (a - b) - CLOCK;
  }

  // ---- What one press is worth, said without the machine -------------------

  /** A press: consecutive pressed polls, with a nondecreasing clock, that lasts
      less than 2^32 ms. */
  ghost predicate Press(press: seq<Poll>) {
    && press != []
    && (forall i :: 0 <= i < |press| ==> press[i].pressed && press[i].t0 <= press[i].t1 <= press[i].t2)
    && (forall i, j :: 0 <= i < j < |press| ==> press[i].t2 <= press[j].t0)
    && press[|press| - 1].t2 < press[0].t0 + CLOCK
  }

  /** Some pressed poll is more than 50 ms after the start. */
  predicate Debounced(press: seq<Poll>)
    requires press != []
  {
    exists i :: 0 <= i < |press| && press[i].t1 - press[0].t0 > DEBOUNCE_MS
  }

  /** Some pressed poll sees 3000 ms, no earlier than the debounce. */
  predicate HeldLong(press: seq<Poll>)
    requires press != []
  {
    exists i :: 0 <= i < |press| && press[i].t1 - press[0].t0 > DEBOUNCE_MS
                && press[i].t2 - press[0].t0 >= LONG_PRESS_MS
  }

  lemma {:induction false} Extends(press: seq<Poll>)
    requires |press| > 1 && Press(press)
    ensures var n := |press| - 1;
            var init, last, start := press[..n], press[n], press[0].t0;
            && (Debounced(press) <==> Debounced(init) || last.t1 - start > DEBOUNCE_MS)
            && (HeldLong(press) <==>
                  HeldLong(init) || (last.t1 - start > DEBOUNCE_MS && last.t2 - start >= LONG_PRESS_MS))
            && (Debounced(init) ==> last.t1 - start > DEBOUNCE_MS)
  {
    var n := |press| - 1;
    var init := press[..n];
    if Debounced(init) {
      var i :| 0 <= i < |init| && init[i].t1 - init[0].t0 > DEBOUNCE_MS;
      assert press[i].t2 <= press[n].t0;
      assert press[n].t1 - press[0].t0 > DEBOUNCE_MS;
    }
    if HeldLong(init) {
      var i :| 0 <= i < |init| && init[i].t1 - init[0].t0 > DEBOUNCE_MS && init[i].t2 - init[0].t0 >= LONG_PRESS_MS;
      assert press[i] == init[i];
    }
    forall i | 0 <= i < n ensures press[i] == init[i] {}
  }

  lemma {:induction false} PressRuns(s: State, press: seq<Poll>)
    requires s.isPress == 0 && Press(press)
    ensures var (s', actions) := Run(s, press);
            && s'.pressMs == press[0].t0 % CLOCK
            && s'.isPress == (if HeldLong(press) then 3 else if Debounced(press) then 2 else 1)
            && actions == (if HeldLong(press) then [LongPress] else [])
    decreases |press|
  {
    var n := |press| - 1;
    var start, last := press[0].t0, press[n];
    Elapsed(last.t1, start);
    Elapsed(last.t2, start);
    var init := press[..n];
    if n == 0 {
      assert Run(s, init) == (s, []);
    } else {
      assert last.t1 < start + CLOCK;
      assert init[|init| - 1].t2 <= last.t0;
      PressRuns(s, init);
      assert init[0] == press[0];
      Extends(press);
    }
  }

  /** The clock does not run backwards, so the last poll tells it all. */
  lemma {:induction false} LastTells(press: seq<Poll>)
    requires Press(press)
    ensures var start, last := press[0].t0, press[|press| - 1];
            && (Debounced(press) <==> last.t1 - start > 50)
            && (HeldLong(press) <==> last.t1 - start > 50 && last.t2 - start >= 3000)
  {
    var n := |press| - 1;
    assert press[n].t1 - press[0].t0 > 50 ==> Debounced(press);
    forall i | 0 <= i < |press| ensures press[i].t1 <= press[n].t1 && press[i].t2 <= press[n].t2 {
      if i < n {
        assert press[i].t2 <= press[n].t0;
      }
    }
  }

  /** While the button is held: nothing up to 50 ms, and one long press, no more, as
      soon as a poll later than that sees 3000 ms. */
  lemma {:induction false} WhileHeld(s: State, press: seq<Poll>)
    requires s.isPress == 0 && Press(press)
    ensures var start, last := press[0].t0, press[|press| - 1];
            Run(s, press).1 == if last.t1 - start > 50 && last.t2 - start >= 3000 then [LongPress] else []
  {
    hide Press, Run, Debounced, HeldLong;
    PressRuns(s, press);
    LastTells(press);
  }

  /** A released poll of an idle button does nothing. */
  lemma {:induction false} IdleDoesNothing(s: State, p: Poll)
    requires s.isPress == 0 && !p.pressed
    ensures Run(s, [p]).0.isPress == 0 && Run(s, [p]).1 == []
  {
    assert [p][..0] == [];
  }

  /** One press and its release: exactly one action when the press outlasts the
      debounce time, otherwise none; and that action is a long press exactly
      when the release comes at least 3000 ms after the start. */
  lemma {:induction false} PressAndRelease(s: State, press: seq<Poll>, release: Poll)
    requires s.isPress == 0 && Press(press) && !release.pressed
    requires press[|press| - 1].t2 <= release.t0 < press[0].t0 + CLOCK
    ensures var (s', actions) := Run(s, press + [release]);
            && s'.isPress == 0
            && actions == (if press[|press| - 1].t1 - press[0].t0 <= 50 then []
                           else if release.t0 - press[0].t0 >= 3000 then [LongPress] else [Click])
  {
    PressRuns(s, press);
    LastTells(press);
    Elapsed(release.t0, press[0].t0);
    var all := press + [release];
    assert all[..|press|] == press && all[|press|] == release;
    forall i | 0 <= i < |press| ensures press[i].t2 <= release.t0 {}
  }

  /** The bound of 2^32 ms is needed: held for 2^32 + 10 ms between two polls, a
      press looks 10 ms old and is lost. */
  lemma {:induction false} RolloverBoundNeeded(s: State)
    requires s.isPress == 0
    ensures var press := [Poll(true, 0, 0, 0), Poll(true, CLOCK + 10, CLOCK + 10, CLOCK + 10)];
            Debounced(press) && Run(s, press + [Poll(false, CLOCK + 20, CLOCK + 20, CLOCK + 20)]).1 == []
  {
    var p0, p1 := Poll(true, 0, 0, 0), Poll(true, CLOCK + 10, CLOCK + 10, CLOCK + 10);
    var r := Poll(false, CLOCK + 20, CLOCK + 20, CLOCK + 20);
    var all := [p0, p1] + [r];
    assert [p0, p1][1].t1 - [p0, p1][0].t0 > DEBOUNCE_MS;
    assert all[..2] == [p0, p1] && [p0, p1][..1] == [p0] && [p0][..0] == [];
    assert Run(s, []) == (s, []);
    assert Run(s, [p0]).0 == State(1, 0) && Run(s, [p0]).1 == [];
    assert Sub32(CLOCK + 10, 0) == 10;
    assert Run(s, [p0, p1]) == (State(1, 0), []);
  }

  // ---- Whole runs ------------------------------------------------------------

  /** A run cut into what happens between idle moments: released polls, and
      presses with their releases. */
  datatype Segment = Idle(poll: Poll) | Cycle(press: seq<Poll>, release: Poll)

  ghost predicate Proper(seg: Segment) {
    match seg
    case Idle(p) => !p.pressed
    case Cycle(press, release) =>
      Press(press) && !release.pressed && press[|press| - 1].t2 <= release.t0 < press[0].t0 + CLOCK
  }

  function Polls(seg: Segment): seq<Poll> {
    match seg
    case Idle(p) => [p]
    case Cycle(press, release) => press + [release]
  }

  function AllPolls(segs: seq<Segment>): seq<Poll> {
    if segs == [] then [] else Polls(segs[0]) + AllPolls(segs[1..])
  }

  ghost function Due(seg: Segment): seq<Action>
    requires Proper(seg)
  {
    if seg.Idle? || !Debounced(seg.press) then []
    else if seg.release.t0 - seg.press[0].t0 >= LONG_PRESS_MS then [LongPress]
    else [Click]
  }

  ghost function AllDue(segs: seq<Segment>): seq<Action>
    requires forall g :: g in segs ==> Proper(g)
  {
    if segs == [] then [] else Due(segs[0]) + AllDue(segs[1..])
  }

  function Pending(press: seq<Poll>): seq<Action> {
    if press != [] && HeldLong(press) then [LongPress] else []
  }

  lemma {:induction false} OpenRuns(s: State, open: seq<Poll>)
    requires s.isPress == 0 && (open == [] || Press(open))
    ensures Run(s, open).1 == AllDue([]) + Pending(open)
  {
    if open != [] {
      PressRuns(s, open);
    }
  }

  lemma {:induction false} SegmentRuns(s: State, g: Segment)
    requires s.isPress == 0 && Proper(g)
    ensures Run(s, Polls(g)).0.isPress == 0 && Run(s, Polls(g)).1 == Due(g)
  {
    match g
    case Idle(p) =>
      IdleDoesNothing(s, p);
    case Cycle(press, release) =>
      PressAndRelease(s, press, release);
      LastTells(press);
  }

  /** What is due, in full. */
  lemma {:induction false} DueMeans(g: Segment)
    requires Proper(g)
    ensures g.Idle? ==> Due(g) == []
    ensures g.Cycle? ==>
              var start := g.press[0].t0;
              Due(g) == if g.press[|g.press| - 1].t1 - start <= 50 then []
                        else if g.release.t0 - start >= 3000 then [LongPress] else [Click]
  {
    if g.Cycle? {
      LastTells(g.press);
    }
  }

  lemma {:induction false} RunActions(s: State, segs: seq<Segment>, open: seq<Poll>)
    requires s.isPress == 0 && (forall g :: g in segs ==> Proper(g)) && (open == [] || Press(open))
    ensures Run(s, AllPolls(segs) + open).1 == AllDue(segs) + Pending(open)
    decreases |segs|
  {
    hide Run, Due, Polls, Pending, Press, Proper;
    if segs == [] {
      assert AllPolls(segs) + open == open;
      OpenRuns(s, open);
    } else {
      var g, rest := segs[0], AllPolls(segs[1..]) + open;
      SegmentRuns(s, g);
      var s1 := Run(s, Polls(g)).0;
      RunActions(s1, segs[1..], open);
      RunAppend(s, Polls(g), rest);
      assert AllPolls(segs) + open == Polls(g) + rest;
      assert (Due(g) + AllDue(segs[1..])) + Pending(open) == Due(g) + (AllDue(segs[1..]) + Pending(open));
    }
  }

  /** The clock never runs backwards. */
  ghost predicate Ticking(polls: seq<Poll>) {
    && (forall i :: 0 <= i < |polls| ==> polls[i].t0 <= polls[i].t1 <= polls[i].t2)
    && (forall i, j :: 0 <= i < j < |polls| ==> polls[i].t2 <= polls[j].t0)
  }

  ghost predicate HeldFrom(polls: seq<Poll>, i: nat, j: nat) {
    i <= j < |polls| && forall k :: i <= k < j ==> polls[k].pressed
  }

  /** No press, with its release, lasts 2^32 ms. */
  ghost predicate ShortPresses(polls: seq<Poll>) {
    forall i: nat, j: nat :: HeldFrom(polls, i, j) ==> polls[j].t2 < polls[i].t0 + CLOCK
  }

  lemma {:induction false} TailsToo(polls: seq<Poll>, n: nat)
    requires Ticking(polls) && ShortPresses(polls) && n <= |polls|
    ensures Ticking(polls[n..]) && ShortPresses(polls[n..])
  {
    var tail := polls[n..];
    forall i: nat, j: nat | HeldFrom(tail, i, j) ensures tail[j].t2 < tail[i].t0 + CLOCK {
      assert HeldFrom(polls, n + i, n + j) by {
        forall k | n + i <= k < n + j ensures polls[k].pressed {
          assert polls[k] == tail[k - n];
        }
      }
    }
  }

  /** The first press of a run that starts with one: (its length). */
  lemma {:induction false} FirstPress(polls: seq<Poll>) returns (k: nat)
    requires Ticking(polls) && ShortPresses(polls) && polls != [] && polls[0].pressed
    ensures 1 <= k <= |polls| && Press(polls[..k])
    ensures k < |polls| ==> Proper(Cycle(polls[..k], polls[k]))
  {
    k := 1;
    while k < |polls| && polls[k].pressed
      invariant 1 <= k <= |polls|
      invariant forall i :: 0 <= i < k ==> polls[i].pressed
    {
      k := k + 1;
    }
    assert HeldFrom(polls, 0, k - 1);
    if k < |polls| {
      assert HeldFrom(polls, 0, k);
    }
  }

  lemma {:induction false} Prepend(g: Segment, segs: seq<Segment>, open: seq<Poll>)
    ensures AllPolls([g] + segs) + open == Polls(g) + (AllPolls(segs) + open)
  {
    assert ([g] + segs)[1..] == segs;
  }

  /** Every run falls into presses with their releases, with released polls in
      between, and perhaps one press at the end that still goes on. */
  lemma {:induction false} EveryRunSplits(polls: seq<Poll>) returns (segs: seq<Segment>, open: seq<Poll>)
    requires Ticking(polls) && ShortPresses(polls)
    ensures polls == AllPolls(segs) + open
    ensures (forall g :: g in segs ==> Proper(g)) && (open == [] || Press(open))
    decreases |polls|
  {
    hide Press, Ticking, ShortPresses;
    if polls == [] {
      return [], [];
    }
    var g, n := Idle(polls[0]), 1;
    if polls[0].pressed {
      var k := FirstPress(polls);
      if k == |polls| {
        assert polls[..k] == polls;
        return [], polls;
      }
      g, n := Cycle(polls[..k], polls[k]), k + 1;
    }
    assert polls[..n] == Polls(g);
    TailsToo(polls, n);
    segs, open := EveryRunSplits(polls[n..]);
    Prepend(g, segs, open);
    assert polls == polls[..n] + polls[n..];
    segs := [g] + segs;
  }

  /** The whole run, for every sequence of polls on a clock that never runs
      backwards: the actions are, press by press, the ones due. Each press in
      the list is maximal, since what precedes it and what ends it is released. */
  lemma {:induction false} WholeRun(s: State, polls: seq<Poll>) returns (segs: seq<Segment>, open: seq<Poll>)
    requires s.isPress == 0 && Ticking(polls) && ShortPresses(polls)
    ensures polls == AllPolls(segs) + open
    ensures (forall g :: g in segs ==> Proper(g)) && (open == [] || Press(open))
    ensures Run(s, polls).1 == AllDue(segs) + Pending(open)
  {
    segs, open := EveryRunSplits(polls);
    RunActions(s, segs, open);
  }
}

/** buttonCheck and its two static variables. */
module Button {
  import opened ButtonSpec

  class ButtonCheck {
    var buttonPressMs: nat
    var isPress: nat
    ghost var actions: seq<Action>

    ghost function Now(): State
      reads this
    {
      State(isPress, buttonPressMs)
    }

    constructor ()
      ensures Now() == State(0, 0) && actions == []
    {
      buttonPressMs := 0;
      isPress := 0;
      actions := [];
    }

    method Check(p: Poll)
      modifies this
      ensures Now() == Step(old(Now()), p).0
      ensures actions == old(actions) + Step(old(Now()), p).1
    {
      if p.pressed {
        if isPress == 0 {
          buttonPressMs := p.t0 % CLOCK;
          isPress := 1;
        }
        if isPress == 1 && Sub32(p.t1, buttonPressMs) > DEBOUNCE_MS {
          isPress := 2;
        }
        if isPress == 2 && Sub32(p.t2, buttonPressMs) >= LONG_PRESS_MS {
          isPress := 3;
          actions := actions + [LongPress];
        }
      } else {
        if isPress == 2 {
          if Sub32(p.t0, buttonPressMs) < LONG_PRESS_MS {
            actions := actions + [Click];
          } else {
            actions := actions + [LongPress];
          }
        }
        isPress := 0;
      }
    }

    /** loop(): the poll is repeated for ever; this is any finite part of it. */
    method Loop(polls: seq<Poll>)
      modifies this
      ensures Now() == Run(old(Now()), polls).0
      ensures actions == old(actions) + Run(old(Now()), polls).1
    {
      assert polls[..|polls|] == polls;
      for i := 0 to |polls|
        invariant Now() == Run(old(Now()), polls[..i]).0
        invariant actions == old(actions) + Run(old(Now()), polls[..i]).1
      {
        assert polls[..i + 1][..i] == polls[..i];
        Check(polls[i]);
      }
    }
  }
}
