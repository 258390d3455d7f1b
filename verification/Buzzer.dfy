/** The buzzer, shared by its callers and a software timer's interrupt (bertos/drv/buzzer.c).

    Code that runs with interrupts disabled, and the interrupt itself, are single steps; the two assignments at the
    start of `buz_repeat_start` are steps of their own. */
module Buzzer {

  /** The static variables, the buzzer's output, and the timer: whether it is queued and with which delay. */
  datatype State = State(
    running: bool,
    interval: int,
    duration: int,
    on: bool,
    queued: bool,
    delay: int)

  const INITIAL := State(false, 0, 0, false, false, 0)

  /** The timer expires; a beep starts; `buz_repeat_start` writes one of its parameters; the repetition stops. */
  datatype Step = Fire | Beep(time: int) | SetInterval(ms: int) | SetDuration(ms: int) | Stop

  /** `ms_to_ticks`, whatever the timer's frequency is. */
  type Ticks = int -> int

  predicate Enabled(s: State, step: Step) {
    step.Fire? ==> s.queued
  }

  function Next(ticks: Ticks, s: State, step: Step): State {
    match step
    case Fire =>
      if s.on && s.interval != 0 then s.(on := false, queued := true, delay := ticks(s.interval))
      else if s.interval != 0 then s.(on := true, queued := true, delay := ticks(s.duration))
      else s.(on := false, queued := false, running := false)
    case Beep(time) => s.(running := true, on := true, queued := true, delay := ticks(time))
    case SetInterval(ms) => s.(interval := ms)
    case SetDuration(ms) => s.(duration := ms)
    case Stop => s.(running := false, interval := 0, on := false, queued := false)
  }

  /** The flag says exactly whether the timer is queued, and a buzzer that is on is going to be turned off. */
  predicate Consistent(s: State) {
    && (s.running <==> s.queued)
    && (s.on ==> s.queued)
  }

  // ----- Whole runs -----

  /** The steps are possible, one after another. */
  predicate Possible(ticks: Ticks, s: State, steps: seq<Step>)
    decreases |steps|
  {
    steps != [] ==>
      && Enabled(s, steps[0])
      && Possible(ticks, Next(ticks, s, steps[0]), steps[1..])
  }

  function Run(ticks: Ticks, s: State, steps: seq<Step>): State
    decreases |steps|
  {
    if steps == [] then s else Run(ticks, Next(ticks, s, steps[0]), steps[1..])
  }

  /** Every interleaving of interrupts and calls keeps the state consistent. */
  lemma {:induction false} RunConsistent(ticks: Ticks, s: State, steps: seq<Step>)
    requires Consistent(s) && Possible(ticks, s, steps)
    ensures Consistent(Run(ticks, s, steps))
    decreases |steps|
  {
    if steps != [] {
      RunConsistent(ticks, Next(ticks, s, steps[0]), steps[1..]);
    }
  }

  predicate Silent(s: State) {
    !s.on && !s.queued && !s.running
  }

  /** Once silent, the buzzer stays so until the next beep, even if a repetition is being prepared. */
  lemma {:induction false} StaysSilent(ticks: Ticks, s: State, steps: seq<Step>)
    requires Silent(s) && Possible(ticks, s, steps)
    requires forall k :: 0 <= k < |steps| ==> !steps[k].Beep?
    ensures Silent(Run(ticks, s, steps))
    decreases |steps|
  {
    if steps != [] {
      assert !steps[0].Beep?;
      StaysSilent(ticks, Next(ticks, s, steps[0]), steps[1..]);
    }
  }

  lemma {:induction false} RunConcat(ticks: Ticks, s: State, a: seq<Step>, b: seq<Step>)
    ensures Run(ticks, s, a + b) == Run(ticks, Run(ticks, s, a), b)
    decreases |a|
  {
    if a == [] {
      assert a + b == b;
    } else {
      assert (a + b)[1..] == a[1..] + b;
      RunConcat(ticks, Next(ticks, s, a[0]), a[1..], b);
    }
  }

  lemma {:induction false} PossibleConcat(ticks: Ticks, s: State, a: seq<Step>, b: seq<Step>)
    requires Possible(ticks, s, a + b)
    ensures Possible(ticks, s, a) && Possible(ticks, Run(ticks, s, a), b)
    decreases |a|
  {
    if a == [] {
      assert a + b == b;
    } else {
      assert (a + b)[1..] == a[1..] + b;
      PossibleConcat(ticks, Next(ticks, s, a[0]), a[1..], b);
    }
  }

  /** From any consistent state, after any history and a stop, the buzzer stays off until the next beep. */
  lemma OffAfterStop(ticks: Ticks, s: State, before: seq<Step>, after: seq<Step>)
    requires Consistent(s) && Possible(ticks, s, before + [Stop] + after)
    requires forall k :: 0 <= k < |after| ==> !after[k].Beep?
    ensures Silent(Run(ticks, s, before + [Stop] + after))
  {
    hide Possible, Run;
    PossibleConcat(ticks, s, before + [Stop], after);
    RunConcat(ticks, s, before + [Stop], after);
    RunConcat(ticks, s, before, [Stop]);
    RunOne(ticks, Run(ticks, s, before), Stop);
    StaysSilent(ticks, Run(ticks, s, before + [Stop]), after);
  }

  lemma RunOne(ticks: Ticks, s: State, step: Step)
    ensures Run(ticks, s, [step]) == Next(ticks, s, step)
  {
    assert Run(ticks, s, [step]) == Run(ticks, Next(ticks, s, step), []);
  }

  // ----- Repetition -----

  /** n interrupts. */
  function Fires(n: nat): (f: seq<Step>)
    ensures |f| == n && forall k :: 0 <= k < n ==> f[k] == Fire
  {
    seq(n, _ => Fire)
  }

  /** No step of another `buz_repeat_start`. */
  predicate Undisturbed(steps: seq<Step>) {
    forall k :: 0 <= k < |steps| ==> !steps[k].SetInterval? && !steps[k].SetDuration?
  }

  /** Interrupts and beeps change neither parameter, and a stop clears the interval. */
  lemma {:induction false} ParametersAfter(ticks: Ticks, s: State, steps: seq<Step>)
    requires Undisturbed(steps)
    ensures Run(ticks, s, steps).duration == s.duration
    ensures Run(ticks, s, steps).interval == if Stop in steps then 0 else s.interval
    decreases |steps|
  {
    if steps != [] {
      ParametersAfter(ticks, Next(ticks, s, steps[0]), steps[1..]);
      assert !steps[0].SetInterval? && !steps[0].SetDuration?;
      assert steps == [steps[0]] + steps[1..];
    }
  }

  /** The state in which a repetition begins. */
  function Repeating(ticks: Ticks, duration: int, interval: int): State {
    State(true, interval, duration, true, true, ticks(duration))
  }

  /** `buz_repeat_start`, with other steps between its assignments and before its beep. */
  function RepeatStart(duration: int, interval: int, a: seq<Step>, b: seq<Step>): seq<Step> {
    [SetInterval(interval)] + a + [SetDuration(duration)] + b + [Beep(duration)]
  }

  /** Wherever interrupts, beeps and stops fall into `buz_repeat_start`, and whatever the buzzer did before, the
      result depends only on whether there was a stop. */
  lemma AfterRepeatStart(ticks: Ticks, s: State, duration: int, interval: int, a: seq<Step>, b: seq<Step>)
    requires Undisturbed(a) && Undisturbed(b)
    ensures Run(ticks, s, RepeatStart(duration, interval, a, b))
            == Repeating(ticks, duration, if Stop in a || Stop in b then 0 else interval)
  {
    hide Run, Undisturbed;
    var first, second, beep := [SetInterval(interval)], [SetDuration(duration)], [Beep(duration)];
    RunOne(ticks, s, SetInterval(interval));
    var s1 := Run(ticks, s, first);
    RunConcat(ticks, s, first, a);
    ParametersAfter(ticks, s1, a);
    var s2 := Run(ticks, s1, a);
    RunConcat(ticks, s, first + a, second);
    RunOne(ticks, s2, SetDuration(duration));
    var s3 := Run(ticks, s2, second);
    RunConcat(ticks, s, first + a + second, b);
    ParametersAfter(ticks, s3, b);
    var s4 := Run(ticks, s3, b);
    RunConcat(ticks, s, first + a + second + b, beep);
    RunOne(ticks, s4, Beep(duration));
  }

  /** The repetition begins exactly if no stop falls inside `buz_repeat_start`. */
  lemma RepetitionBegins(ticks: Ticks, s: State, duration: int, interval: int, a: seq<Step>, b: seq<Step>)
    requires Undisturbed(a) && Undisturbed(b) && interval != 0
    ensures Run(ticks, s, RepeatStart(duration, interval, a, b)) == Repeating(ticks, duration, interval)
            <==> Stop !in a && Stop !in b
  {
    hide Run, RepeatStart;
    AfterRepeatStart(ticks, s, duration, interval, a, b);
  }

  /** If one does, all that is left is a single beep, which ends with its interrupt. */
  lemma StopInsideRepeatStart(ticks: Ticks, s: State, duration: int, interval: int, a: seq<Step>, b: seq<Step>)
    requires Undisturbed(a) && Undisturbed(b) && (Stop in a || Stop in b)
    ensures Silent(Run(ticks, s, RepeatStart(duration, interval, a, b) + [Fire]))
  {
    hide Run, RepeatStart;
    AfterRepeatStart(ticks, s, duration, interval, a, b);
    RunConcat(ticks, s, RepeatStart(duration, interval, a, b), [Fire]);
    RunOne(ticks, Repeating(ticks, duration, 0), Fire);
  }

  /** Interrupts alone never keep a repetition from beginning. */
  lemma RepeatStartAtomic(ticks: Ticks, s: State, duration: int, interval: int, m: nat, n: nat)
    ensures Run(ticks, s, RepeatStart(duration, interval, Fires(m), Fires(n)))
            == Repeating(ticks, duration, interval)
  {
    hide Run, RepeatStart;
    AfterRepeatStart(ticks, s, duration, interval, Fires(m), Fires(n));
  }

  /** A repetition alternates between the beep and the pause, each with its own delay, for ever. */
  lemma {:induction false} Alternates(ticks: Ticks, duration: int, interval: int, n: nat)
    requires interval != 0
    ensures Possible(ticks, Repeating(ticks, duration, interval), Fires(n))
    ensures Run(ticks, Repeating(ticks, duration, interval), Fires(n))
            == (if n % 2 == 0 then Repeating(ticks, duration, interval)
                else Repeating(ticks, duration, interval).(on := false, delay := ticks(interval)))
    decreases n
  {
    var r := Repeating(ticks, duration, interval);
    var off := r.(on := false, delay := ticks(interval));
    if n == 1 {
      assert Fires(1) == [Fire];
      RunOne(ticks, r, Fire);
    } else if n >= 2 {
      assert Fires(n)[1..][1..] == Fires(n - 2);
      assert Next(ticks, r, Fire) == off && Next(ticks, off, Fire) == r;
      Alternates(ticks, duration, interval, n - 2);
    }
  }

  /** How long it takes until the timer has expired n times. */
  function Elapsed(ticks: Ticks, s: State, n: nat): int
    decreases n
  {
    if n == 0 then 0 else s.delay + Elapsed(ticks, Next(ticks, s, Fire), n - 1)
  }

  /** n beeps with their pauses take n times the sum of the two delays: no time is lost in between. */
  lemma {:induction false} Period(ticks: Ticks, duration: int, interval: int, n: nat)
    requires interval != 0
    ensures Elapsed(ticks, Repeating(ticks, duration, interval), 2 * n) == n * (ticks(duration) + ticks(interval))
    decreases n
  {
    if n > 0 {
      Period(ticks, duration, interval, n - 1);
      var r := Repeating(ticks, duration, interval);
      var off := r.(on := false, delay := ticks(interval));
      assert Next(ticks, r, Fire) == off && Next(ticks, off, Fire) == r;
      assert Elapsed(ticks, r, 2 * n) == r.delay + (off.delay + Elapsed(ticks, r, 2 * n - 2));
    }
  }

  /** Without a repetition a beep ends with its first interrupt; with one it goes on repeating. */
  lemma BeepEnds(ticks: Ticks, s: State, time: int)
    ensures var b := Next(ticks, Next(ticks, s, Beep(time)), Fire);
            && !b.on
            && (Silent(b) <==> s.interval == 0)
            && (s.interval != 0 ==> Next(ticks, b, Fire) == Repeating(ticks, s.duration, s.interval))
  {
  }

  // ----- Single beeps -----

  /** A beep sounds for exactly the time that was asked for, whatever the buzzer did before: its first interrupt
      comes after that time, and turns the buzzer off. */
  lemma BeepTime(ticks: Ticks, s: State, time: int)
    ensures Run(ticks, s, [Beep(time)]).on
    ensures Elapsed(ticks, Run(ticks, s, [Beep(time)]), 1) == ticks(time)
    ensures !Run(ticks, s, [Beep(time), Fire]).on
  {
    var b := Next(ticks, s, Beep(time));
    RunOne(ticks, s, Beep(time));
    RunConcat(ticks, s, [Beep(time)], [Fire]);
    RunOne(ticks, b, Fire);
    assert [Beep(time)] + [Fire] == [Beep(time), Fire];
    assert Elapsed(ticks, b, 1) == b.delay + Elapsed(ticks, Next(ticks, b, Fire), 0);
  }

  /** Of several beeps in a row only the last one counts, whatever interrupts fall between them. */
  lemma LastBeepCounts(ticks: Ticks, s: State, steps: seq<Step>, time: int)
    requires forall k :: 0 <= k < |steps| ==> steps[k].Beep? || steps[k].Fire?
    ensures Run(ticks, s, steps + [Beep(time)]) == Run(ticks, s, [Beep(time)])
  {
    hide Run, Undisturbed;
    NoParameters(steps);
    ParametersAfter(ticks, s, steps);
    RunConcat(ticks, s, steps, [Beep(time)]);
    RunOne(ticks, Run(ticks, s, steps), Beep(time));
    RunOne(ticks, s, Beep(time));
  }

  lemma NoParameters(steps: seq<Step>)
    requires forall k :: 0 <= k < |steps| ==> steps[k].Beep? || steps[k].Fire?
    ensures Undisturbed(steps) && Stop !in steps
  {
  }

  /** How long the buzzer sounds while the timer expires n times. */
  function Sounding(ticks: Ticks, s: State, n: nat): int
    decreases n
  {
    if n == 0 then 0
    else (if s.on then s.delay else 0) + Sounding(ticks, Next(ticks, s, Fire), n - 1)
  }

  lemma {:induction false} SilenceSounds(ticks: Ticks, s: State, n: nat)
    requires !s.on && s.interval == 0
    ensures Sounding(ticks, s, n) == 0
    decreases n
  {
    if n > 0 {
      SilenceSounds(ticks, Next(ticks, s, Fire), n - 1);
    }
  }

  /** Without a repetition, the time of a beep is all that is ever heard of it. */
  lemma BeepSounds(ticks: Ticks, s: State, time: int, n: nat)
    requires s.interval == 0 && n >= 1
    ensures Sounding(ticks, Run(ticks, s, [Beep(time)]), n) == ticks(time)
  {
    RunOne(ticks, s, Beep(time));
    SilenceSounds(ticks, Next(ticks, Next(ticks, s, Beep(time)), Fire), n - 1);
  }

  /** In a repetition the beeps of n rounds sound for n times the duration. */
  lemma {:induction false} RepetitionSounds(ticks: Ticks, duration: int, interval: int, n: nat)
    requires interval != 0
    ensures Sounding(ticks, Repeating(ticks, duration, interval), 2 * n) == n * ticks(duration)
    decreases n
  {
    if n > 0 {
      RepetitionSounds(ticks, duration, interval, n - 1);
      var r := Repeating(ticks, duration, interval);
      var off := r.(on := false, delay := ticks(interval));
      assert Next(ticks, r, Fire) == off && Next(ticks, off, Fire) == r;
      assert Sounding(ticks, r, 2 * n) == r.delay + Sounding(ticks, off, 2 * n - 1);
      assert Sounding(ticks, off, 2 * n - 1) == Sounding(ticks, r, 2 * n - 2);
    }
  }

  // ----- The program -----

  class Driver {
    const ticks: Ticks
    var running: bool
    var interval: int
    var duration: int
    var on: bool
    var queued: bool
    var delay: int

    ghost function Model(): State
      reads this
    {
      State(running, interval, duration, on, queued, delay)
    }

    ghost predicate Valid()
      reads this
    {
      Consistent(Model())
    }

    /** `buz_init`. */
    constructor (ticks: Ticks)
      ensures Valid() && Model() == INITIAL && this.ticks == ticks
    {
      this.ticks := ticks;
      running, interval, duration, on, queued, delay := false, 0, 0, false, false, 0;
    }

    /** `timer_add`, whose assertion forbids to add a timer twice. */
    method TimerAdd()
      requires !queued
      modifies this`queued
      ensures queued
    {
      queued := true;
    }

    /** `timer_abort`, which is undefined for a timer that has expired. */
    method TimerAbort()
      requires queued
      modifies this`queued
      ensures !queued
    {
      queued := false;
    }

    /** The timer expires: it is taken from the queue, and `buz_softint` runs. */
    method Fire()
      requires Valid() && queued
      modifies this
      ensures Valid() && Model() == Next(ticks, old(Model()), Step.Fire)
    {
      queued := false;
      if on {
        on := false;
        if interval != 0 {
          delay := ticks(interval);
          TimerAdd();
        } else {
          running := false;
        }
      } else if interval != 0 {
        on := true;
        delay := ticks(duration);
        TimerAdd();
      } else {
        running := false;
      }
    }

    /** `buz_beep`. */
    method Beep(time: int)
      requires Valid()
      modifies this
      ensures Valid() && Model() == Next(ticks, old(Model()), Step.Beep(time))
    {
      if running {
        TimerAbort();
      }
      on := true;
      running := true;
      delay := ticks(time);
      TimerAdd();
    }

    /** The two assignments of `buz_repeat_start`. */
    method SetInterval(ms: int)
      requires Valid()
      modifies this`interval
      ensures Valid() && Model() == Next(ticks, old(Model()), Step.SetInterval(ms))
    {
      interval := ms;
    }

    method SetDuration(ms: int)
      requires Valid()
      modifies this`duration
      ensures Valid() && Model() == Next(ticks, old(Model()), Step.SetDuration(ms))
    {
      duration := ms;
    }

    /** `buz_repeat_start`, with as many interrupts at its two gaps as the timer has. */
    method RepeatStart(ms: int, pause: int, m: nat, n: nat)
      requires Valid()
      modifies this
      ensures Valid() && Model() == Repeating(ticks, ms, pause)
    {
      SetInterval(pause);
      Interrupts(m);
      SetDuration(ms);
      Interrupts(n);
      Beep(ms);
    }

    /** Up to n interrupts, while the timer is queued. */
    method Interrupts(n: nat)
      requires Valid()
      modifies this
      ensures Valid() && interval == old(interval) && duration == old(duration)
    {
      var i := 0;
      while i < n && queued
        invariant Valid() && interval == old(interval) && duration == old(duration)
      {
        Fire();
        i := i + 1;
      }
    }

    /** `buz_repeat_stop`. */
    method Stop()
      requires Valid()
      modifies this
      ensures Valid() && Model() == Next(ticks, old(Model()), Step.Stop)
    {
      if running {
        TimerAbort();
        running := false;
      }
      interval := 0;
      on := false;
    }
  }
}
