/**
 The two tasks of lab5/Lab5_template_de1soc/software/lab5/hello_ucosii.c.  task1 has
 the higher priority: each of its passes runs whole, but may fall between any two
 writes of task2, so every write of task2 is a step of its own.
 */
module Playback {
  import opened Arith

  const SAMPLES := 1000
  const INCREMENT := 100
  const NOMINAL := 44000
  const MAX := 2 * NOMINAL

  datatype Mode = NoMode | Playing | Paused | Stopped

  /** The modes a button asks for. */
  type Target = m: Mode | m != NoMode witness Playing

  /** Play, pause and stop; forward and back. */
  datatype Button = Transport(target: Target) | Tune(up: bool)

  /** Where task2 is: polling, or inside a click with some of its writes done.
      `was` remembers the mode the click found; no write depends on it. */
  datatype Pc = Idle | InTransport(target: Target, was: Mode, done: nat) | InTune(up: bool, done: nat)

  datatype Event = Tick | Press(button: Button) | Write

  datatype State = State(play: bool, pause: bool, stop: bool, pc: Pc, freq: int, rate: int, counter: int)

  /** The branch task1 takes: its tests are in this order. */
  function Seen(st: State): Mode
  {
    if st.play then Playing else if st.pause then Paused else if st.stop then Stopped else NoMode
  }

  function Clamp(f: int): int
  {
    if f < INCREMENT then INCREMENT else if f > MAX then MAX else f
  }

  // ----- the steps -----

  /** One pass of task1 over a song of `size` bytes. */
  function TickStep(size: int, st: State): State
  {
    match Seen(st)
    case Playing => st.(counter := if st.counter < size then st.counter + SAMPLES else 0)
    case Stopped => st.(counter := 0)
    case _ => st
  }

  /** A click is read only when task2 polls. */
  function PressStep(button: Button, st: State): State
  {
    if !st.pc.Idle? then st
    else match button
      case Transport(target) => st.(pc := InTransport(target, Seen(st), 0))
      case Tune(up) => st.(pc := InTune(up, 0))
  }

  /** The next write of the click task2 is in. */
  function WriteStep(st: State): State
  {
    match st.pc
    case Idle => st
    case InTransport(target, was, done) =>
      if done == 0 then st.(play := target == Playing, pc := InTransport(target, was, 1))
      else if done == 1 then st.(pause := target == Paused, pc := InTransport(target, was, 2))
      else st.(stop := target == Stopped, pc := Idle)
    case InTune(up, done) =>
      if done == 0 then st.(freq := if up then st.freq + INCREMENT else st.freq - INCREMENT, pc := InTune(up, 1))
      else if done == 1 then
        st.(freq := if up then (if st.freq > MAX then MAX else st.freq)
                    else if st.freq < INCREMENT then INCREMENT else st.freq,
            pc := InTune(up, 2))
      else st.(rate := st.freq, pc := Idle)
  }

  function Step(size: int, st: State, e: Event): State
  {
    match e
    case Tick => TickStep(size, st)
    case Press(button) => PressStep(button, st)
    case Write => WriteStep(st)
  }

  const INIT := State(false, false, false, Idle, NOMINAL, NOMINAL, 0)

  function Run(size: int, events: seq<Event>): State
  {
    if events == [] then INIT else Step(size, Run(size, events[..|events| - 1]), events[|events| - 1])
  }

  // ----- the transport flags -----

  /** The mode task1 would see after `done` writes of a click on `target` that found
      mode `was`, worked out from the flags alone. */
  function SeenAfter(was: Mode, target: Target, done: nat): Mode
  {
    var play := if done >= 1 then target == Playing else was == Playing;
    var pause := if done >= 2 then target == Paused else was == Paused;
    var stop := if done >= 3 then target == Stopped else was == Stopped;
    if play then Playing else if pause then Paused else if stop then Stopped else NoMode
  }

  ghost predicate AtMostOne(st: State)
  {
    !(st.play && st.pause) && !(st.play && st.stop) && !(st.pause && st.stop)
  }

  ghost predicate FlagsOk(st: State)
  {
    match st.pc
    case InTransport(target, was, done) =>
      && done < 3
      && st.play == (if done >= 1 then target == Playing else was == Playing)
      && st.pause == (if done >= 2 then target == Paused else was == Paused)
      && st.stop == (was == Stopped)
    case _ => AtMostOne(st)
  }

  lemma {:induction false} FlagsInvariant(size: int, events: seq<Event>)
    ensures FlagsOk(Run(size, events))
  {
    if events != [] {
      FlagsInvariant(size, events[..|events| - 1]);
    }
  }

  /** Wherever task1 falls in a run: between clicks at most one flag is set, and inside
      a click it sees the mode the click found, no mode, or the mode clicked. */
  lemma NeverThirdMode(size: int, events: seq<Event>)
    ensures var st := Run(size, events);
            match st.pc
            case InTransport(target, was, done) => Seen(st) == was || Seen(st) == NoMode || Seen(st) == target
            case _ => AtMostOne(st)
  {
    FlagsInvariant(size, events);
  }

  /** Over the writes of one click the mode seen moves forward only: the found mode,
      then possibly none, then the clicked one, which it shows at the end. */
  lemma SeenMovesForward(was: Mode, target: Target, d: nat, e: nat)
    requires d <= e <= 3
    ensures SeenAfter(was, target, d) == target ==> SeenAfter(was, target, e) == target
    ensures SeenAfter(was, target, e) == was ==> SeenAfter(was, target, d) == was
    ensures SeenAfter(was, target, 0) == was && SeenAfter(was, target, 3) == target
  {
  }

  function Rank(m: Mode): nat
  {
    match m case Playing => 0 case Paused => 1 case Stopped => 2 case NoMode => 3
  }

  /** task1 can see no mode during a click exactly when the click moves down its chain
      of tests, from play to pause or stop or from pause to stop. */
  lemma GapIff(was: Target, target: Target)
    ensures (SeenAfter(was, target, 1) == NoMode || SeenAfter(was, target, 2) == NoMode) <==> Rank(was) < Rank(target)
  {
  }

  /** What SeenAfter says is what the flags of a run show, and the last write of a
      click leaves its flag the only one set. */
  lemma SeenAfterIsSeen(size: int, events: seq<Event>)
    ensures var st := Run(size, events);
            st.pc.InTransport? ==>
              && Seen(st) == SeenAfter(st.pc.was, st.pc.target, st.pc.done)
              && (st.pc.done == 2 ==>
                    var landed := WriteStep(st);
                    landed.pc.Idle? && Seen(landed) == st.pc.target && AtMostOne(landed))
  {
    FlagsInvariant(size, events);
  }

  // ----- the song position -----

  function Blocks(size: nat): nat
  {
    (size + SAMPLES - 1) / SAMPLES
  }

  /** How many passes of task1 saw Playing since one last saw Stopped. */
  function PlayTicks(size: int, events: seq<Event>): nat
  {
    if events == [] then 0
    else
      var before := events[..|events| - 1];
      var ticks := PlayTicks(size, before);
      if !events[|events| - 1].Tick? then ticks
      else match Seen(Run(size, before))
        case Playing => ticks + 1
        case Stopped => 0
        case _ => ticks
  }

  /** Over every run of clicks, writes and passes the position is exactly the number of
      passes that saw Playing since a stop was last seen, counted in blocks and starting
      over after ceil(size / 1000) + 1 of them. */
  lemma {:induction false} SongPosition(size: nat, events: seq<Event>)
    requires size > 0
    ensures Run(size, events).counter == 1000 * (PlayTicks(size, events) % (Blocks(size) + 1))
  {
    if events != [] {
      var before := events[..|events| - 1];
      SongPosition(size, before);
      NextRemainder(PlayTicks(size, before), Blocks(size) + 1);
      BelowSize(PlayTicks(size, before) % (Blocks(size) + 1), size);
      hide Blocks;
    }
  }

  lemma BelowSize(k: nat, size: nat)
    ensures SAMPLES * k < size <==> k < Blocks(size)
  {
  }

  /** So the position is always a multiple of 1000 below size + 1000, and passes that see
      Playing return it from 0 to 0 after ceil(size / 1000) + 1 of them, not before. */
  lemma PositionBounds(size: nat, events: seq<Event>)
    requires size > 0
    ensures var c := Run(size, events).counter;
            c % 1000 == 0 && 0 <= c < size + 1000
    ensures Run(size, events).counter == 0 <==> PlayTicks(size, events) % ((size + 999) / 1000 + 1) == 0
  {
    hide *;
    SongPosition(size, events);
    CycleBounds(PlayTicks(size, events), size);
  }

  lemma CycleBounds(n: nat, size: nat)
    requires size > 0
    ensures var p := 1000 * (n % (Blocks(size) + 1));
            p % 1000 == 0 && 0 <= p < size + 1000 && (p == 0 <==> n % ((size + 999) / 1000 + 1) == 0)
  {
    var m := Blocks(size) + 1;
    assert m == (size + 999) / 1000 + 1;
    var k := n % m;
    assert 0 <= k < m;
    InBlock(k, size);
  }

  lemma InBlock(k: nat, size: nat)
    requires k <= Blocks(size) && size > 0
    ensures SAMPLES * k % SAMPLES == 0 && SAMPLES * k < size + SAMPLES && (SAMPLES * k == 0 <==> k == 0)
  {
  }

  /** Without a click on stop no pass sees Stopped: pausing and resuming, however they
      interleave with task1, never lose the position. */
  lemma {:induction false} NoStopNoReset(size: int, events: seq<Event>)
    requires forall k :: 0 <= k < |events| ==> events[k] != Press(Transport(Stopped))
    ensures !Run(size, events).stop
    ensures Run(size, events).pc.InTransport? ==> Run(size, events).pc.target != Stopped
    ensures PlayTicks(size, events) == PassesPlaying(size, events)
  {
    if events != [] {
      NoStopNoReset(size, events[..|events| - 1]);
    }
  }

  /** All passes that saw Playing. */
  function PassesPlaying(size: int, events: seq<Event>): nat
  {
    if events == [] then 0
    else
      var before := events[..|events| - 1];
      PassesPlaying(size, before) + if events[|events| - 1].Tick? && Seen(Run(size, before)).Playing? then 1 else 0
  }

  // ----- the sample rate -----

  /** The tuning clicks that have made their clamping write, in order. */
  function Tunings(size: int, events: seq<Event>): seq<bool>
  {
    if events == [] then []
    else
      var before := events[..|events| - 1];
      var pc := Run(size, before).pc;
      Tunings(size, before) + if events[|events| - 1].Write? && pc.InTune? && pc.done == 1 then [pc.up] else []
  }

  /** The frequency after a list of whole tuning clicks. */
  function Tuned(f: int, ups: seq<bool>): int
  {
    if ups == [] then f
    else
      var before := Tuned(f, ups[..|ups| - 1]);
      Clamp(if ups[|ups| - 1] then before + INCREMENT else before - INCREMENT)
  }

  ghost predicate InRange(f: int)
  {
    100 <= f <= 88000 && f % 100 == 0
  }

  /** The frequency is f, except between the step and the clamp of a tuning click, and
      the rate is the frequency, except until the click's last write. */
  ghost predicate RateOk(st: State, f: int)
  {
    && st.freq == (if st.pc.InTune? && st.pc.done == 1 then (if st.pc.up then f + INCREMENT else f - INCREMENT) else f)
    && InRange(f) && InRange(st.rate)
    && ((st.pc.InTune? && st.pc.done >= 1) || st.rate == st.freq)
    && (st.pc.InTune? ==> st.pc.done <= 2)
  }

  lemma RateStep(size: int, st: State, e: Event, f: int)
    requires RateOk(st, f)
    ensures RateOk(Step(size, st, e),
                   if e.Write? && st.pc.InTune? && st.pc.done == 1 then Clamp(if st.pc.up then f + INCREMENT else f - INCREMENT) else f)
  {
  }

  /** Over every run the frequency is that of the whole tuning clicks so far, except
      inside a click; the rate given to the audio device is always in range and,
      between clicks, equal to the frequency. */
  lemma {:induction false} RateFollows(size: int, events: seq<Event>)
    ensures RateOk(Run(size, events), Tuned(NOMINAL, Tunings(size, events)))
  {
    hide RateOk, Clamp, Step;
    if events == [] {
      assert RateOk(INIT, NOMINAL) by { InitRate(); }
    } else {
      var before, e := events[..|events| - 1], events[|events| - 1];
      RateFollows(size, before);
      var ups, st := Tunings(size, before), Run(size, before);
      RateStep(size, st, e, Tuned(NOMINAL, ups));
      if e.Write? && st.pc.InTune? && st.pc.done == 1 {
        assert (ups + [st.pc.up])[..|ups|] == ups;
      } else {
        assert ups + [] == ups;
      }
    }
  }

  lemma InitRate()
    ensures RateOk(INIT, NOMINAL)
  {
  }

  /** n clicks in one direction move the frequency n steps, or to the end of the range. */
  lemma {:induction false} TunedOneWay(f: int, ups: seq<bool>, up: bool)
    requires InRange(f) && forall k :: 0 <= k < |ups| ==> ups[k] == up
    ensures Tuned(f, ups) == if up then (if f + 100 * |ups| > 88000 then 88000 else f + 100 * |ups|)
                             else if f - 100 * |ups| < 100 then 100 else f - 100 * |ups|
  {
    if ups != [] {
      TunedOneWay(f, ups[..|ups| - 1], up);
    }
  }

  /** A click back undoes a click forward exactly when the frequency was not at the top. */
  lemma BackUndoesForwardIff(f: int)
    requires InRange(f)
    ensures Tuned(f, [true, false]) == f <==> f < 88000
    ensures Tuned(f, [false, true]) == f <==> f > 100
  {
    assert [true, false][..1] == [true] && [false, true][..1] == [false];
    assert [true][..0] == [] && [false][..0] == [];
    assert Tuned(f, [true]) == Clamp(f + INCREMENT) && Tuned(f, [false]) == Clamp(f - INCREMENT);
  }

  // ----- the clicks, from the events alone -----

  /** How many writes of the last click are still to come: a click read while none is
      makes three. */
  function Pending(events: seq<Event>): nat
  {
    if events == [] then 0
    else
      var before := Pending(events[..|events| - 1]);
      match events[|events| - 1]
      case Tick => before
      case Press(_) => if before == 0 then 3 else before
      case Write => if before == 0 then 0 else before - 1
  }

  /** The clicks that were read, in order. */
  function Accepted(events: seq<Event>): seq<Button>
  {
    if events == [] then []
    else
      var before := events[..|events| - 1];
      Accepted(before) + if events[|events| - 1].Press? && Pending(before) == 0 then [events[|events| - 1].button] else []
  }

  /** The mode the last transport click asks for. */
  function LastMode(clicks: seq<Button>): Mode
  {
    if clicks == [] then NoMode
    else if clicks[|clicks| - 1].Transport? then clicks[|clicks| - 1].target
    else LastMode(clicks[..|clicks| - 1])
  }

  /** The directions of the tuning clicks. */
  function Ups(clicks: seq<Button>): seq<bool>
  {
    if clicks == [] then []
    else Ups(clicks[..|clicks| - 1]) + if clicks[|clicks| - 1].Tune? then [clicks[|clicks| - 1].up] else []
  }

  /** Where task2 is and what it has still to do, told by the clicks read so far. */
  ghost predicate ClicksOk(size: int, st: State, events: seq<Event>)
  {
    var clicks, pending := Accepted(events), Pending(events);
    if pending == 0 then
      st.pc == Idle && AtMostOne(st) && Seen(st) == LastMode(clicks) && Tunings(size, events) == Ups(clicks)
    else
      && pending <= 3 && clicks != []
      && var click, earlier := clicks[|clicks| - 1], clicks[..|clicks| - 1];
         match click
         case Transport(target) =>
           st.pc == InTransport(target, LastMode(earlier), 3 - pending) && Tunings(size, events) == Ups(earlier)
         case Tune(up) =>
           st.pc == InTune(up, 3 - pending) && AtMostOne(st) && Seen(st) == LastMode(earlier)
           && Tunings(size, events) == if pending == 1 then Ups(clicks) else Ups(earlier)
  }

  /** How one more event extends what is told from the events. */
  lemma OneMoreEvent(size: int, before: seq<Event>, e: Event)
    ensures var events, pc := before + [e], Run(size, before).pc;
            && Run(size, events) == Step(size, Run(size, before), e)
            && Pending(events) == (match e case Tick => Pending(before)
                                           case Press(_) => if Pending(before) == 0 then 3 else Pending(before)
                                           case Write => if Pending(before) == 0 then 0 else Pending(before) - 1)
            && Accepted(events) == (if e.Press? && Pending(before) == 0 then Accepted(before) + [e.button] else Accepted(before))
            && Tunings(size, events) ==
                 if e.Write? && pc.InTune? && pc.done == 1 then Tunings(size, before) + [pc.up] else Tunings(size, before)
  {
    assert (before + [e])[..|before|] == before;
  }

  lemma OneMoreClick(clicks: seq<Button>, click: Button)
    ensures var more := clicks + [click];
            && more[..|more| - 1] == clicks
            && LastMode(more) == (if click.Transport? then click.target else LastMode(clicks))
            && Ups(more) == if click.Tune? then Ups(clicks) + [click.up] else Ups(clicks)
  {
    assert (clicks + [click])[..|clicks|] == clicks;
  }

  lemma ClicksStep(size: int, before: seq<Event>, e: Event)
    requires ClicksOk(size, Run(size, before), before) && FlagsOk(Run(size, before))
    ensures ClicksOk(size, Run(size, before + [e]), before + [e])
  {
    hide Run, Pending, Accepted, Tunings, LastMode, Ups;
    OneMoreEvent(size, before, e);
    var clicks := Accepted(before);
    match e {
      case Tick =>
      case Press(button) => OneMoreClick(clicks, button);
      case Write =>
        if clicks != [] {
          assert clicks == clicks[..|clicks| - 1] + [clicks[|clicks| - 1]];
          OneMoreClick(clicks[..|clicks| - 1], clicks[|clicks| - 1]);
        }
    }
  }

  lemma {:induction false} ClicksInvariant(size: int, events: seq<Event>)
    ensures ClicksOk(size, Run(size, events), events)
  {
    if events != [] {
      var before, e := events[..|events| - 1], events[|events| - 1];
      ClicksInvariant(size, before);
      FlagsInvariant(size, before);
      ClicksStep(size, before, e);
      assert before + [e] == events;
    }
  }

  /** Over every run, with passes of task1 anywhere between the writes: when no write is
      pending, task1 sees the mode of the last transport click read and no other flag is
      set, and the frequency and the rate are those of the tuning clicks read. */
  lemma ClicksDecide(size: int, events: seq<Event>)
    requires Pending(events) == 0
    ensures var st, clicks := Run(size, events), Accepted(events);
            && Seen(st) == LastMode(clicks) && AtMostOne(st)
            && st.freq == st.rate == Tuned(44000, Ups(clicks))
  {
    ClicksInvariant(size, events);
    RateFollows(size, events);
  }

  /** And while a transport click is being written, it sees the mode of the one before,
      no mode, or that of this one. */
  lemma ClickInProgress(size: int, events: seq<Event>)
    requires Pending(events) > 0 && Accepted(events) != [] && Accepted(events)[|Accepted(events)| - 1].Transport?
    ensures var st, clicks := Run(size, events), Accepted(events);
            Seen(st) == LastMode(clicks[..|clicks| - 1]) || Seen(st) == NoMode || Seen(st) == LastMode(clicks)
  {
    ClicksInvariant(size, events);
    NeverThirdMode(size, events);
  }

  /** Until a first click is read nothing plays: no flag is set, the song is at its start
      and the rate is the nominal one. */
  lemma {:induction false} NothingBeforeFirstClick(size: int, events: seq<Event>)
    requires forall k :: 0 <= k < |events| ==> !events[k].Press?
    ensures var st := Run(size, events);
            && !st.play && !st.pause && !st.stop && st.pc == Idle
            && st.counter == 0 && st.freq == st.rate == 44000
  {
    if events != [] {
      NothingBeforeFirstClick(size, events[..|events| - 1]);
    }
  }

  // ----- the code of task1 and task2 -----

  class Player {
    const sizeSong: nat
    var playSong: bool
    var pauseSong: bool
    var stopSong: bool
    var freqReader: int
    var audioRate: int
    var addressCounter: int
    var task2At: Pc

    ghost function Current(): State
      reads this
    {
      State(playSong, pauseSong, stopSong, task2At, freqReader, audioRate, addressCounter)
    }

    constructor (size: nat)
      requires size > 0
      ensures sizeSong == size && Current() == INIT
    {
      sizeSong := size;
      playSong, pauseSong, stopSong := false, false, false;
      freqReader, audioRate := NOMINAL, NOMINAL;
      addressCounter := 0;
      task2At := Idle;
    }

    /** One pass of task1; `sent` is where in the song the block it sends starts. */
    method Task1Pass() returns (sent: int)
      requires sizeSong > 0 && 0 <= addressCounter
      modifies this`addressCounter
      ensures Current() == Step(sizeSong, old(Current()), Tick)
      ensures if Seen(old(Current())) == Playing then 0 <= sent < sizeSong && sent == old(addressCounter) % sizeSong else sent == -1
    {
      sent := -1;
      if playSong {
        sent := addressCounter % sizeSong;
        if addressCounter < sizeSong {
          addressCounter := addressCounter + SAMPLES;
        } else {
          addressCounter := 0;
        }
      } else if pauseSong {
      } else if stopSong {
        addressCounter := 0;
      }
    }

    method Task2Press(button: Button)
      modifies this`task2At
      ensures Current() == Step(sizeSong, old(Current()), Press(button))
    {
      if task2At.Idle? {
        match button {
          case Transport(target) =>
            var was := if playSong then Playing else if pauseSong then Paused else if stopSong then Stopped else NoMode;
            task2At := InTransport(target, was, 0);
          case Tune(up) => task2At := InTune(up, 0);
        }
      }
    }

    method Task2Write()
      modifies this`playSong, this`pauseSong, this`stopSong, this`freqReader, this`audioRate, this`task2At
      ensures Current() == Step(sizeSong, old(Current()), Write)
    {
      match task2At {
        case Idle =>
        case InTransport(target, was, done) =>
          if done == 0 {
            playSong := target == Playing;
            task2At := InTransport(target, was, 1);
          } else if done == 1 {
            pauseSong := target == Paused;
            task2At := InTransport(target, was, 2);
          } else {
            stopSong := target == Stopped;
            task2At := Idle;
          }
        case InTune(up, done) =>
          if done == 0 {
            freqReader := if up then freqReader + INCREMENT else freqReader - INCREMENT;
            task2At := InTune(up, 1);
          } else if done == 1 {
            if !up && freqReader < INCREMENT {
              freqReader := INCREMENT;
            }
            if up && freqReader > MAX {
              freqReader := MAX;
            }
            task2At := InTune(up, 2);
          } else {
            audioRate := freqReader;
            task2At := Idle;
          }
      }
    }
  }
}
