/** RepeaterEngine of LightRepeater.cpp: the control loop of a radio repeater. The receiver's
    pins, the waits and the clock are inputs, chosen freely for every pass of the loop. */
module RepeaterControl {

  const LR_ID_PERIOD: nat := 600000
  const LR_MIN_TONECALL_DUR: nat := 200
  const DWORD_MODULUS: nat := 0x1_0000_0000

  /** The difference of two DWORD tick counts. */
  function TicksSince(now: nat, since: nat): int {
    if now >= since then now - since else now - since + DWORD_MODULUS
  }

  datatype Wait = Signalled | TimedOut | Failed

  /** CTS (squelch open) and RING (tone call), or a failure of GetRX. */
  datatype Pins = Pins(cts: bool, ring: bool) | PinsFailed

  /** What the environment does during one pass: the results of the waits and of the reads
      of the pins, whether StartWaitRXEvent fails, and the tick counts, in program order. */
  datatype Env = Env(startFails: bool, wait: Wait, pins: Pins,
                     pinsBeforeTone: Pins, toneStartFails: bool, toneWait: Wait, pinsInTone: Pins,
                     toneBegin: nat, toneEndStartFails: bool, toneEndWait: Wait, toneEnd: nat,
                     openTick: nat, idTick: nat)

  /** The global variables, the transmitter and the counters of the statistics file;
      `openings` counts the sessions that were accepted. */
  datatype State = State(tailTimer: bool, squelch: bool, lastID: nat, openTime: nat, tx: bool,
                         qso: nat, gummitumme: nat, longSpeaker: nat, openings: nat, stopped: bool) {
    predicate Open() { squelch || tailTimer }
  }

  /** A wait without a time limit is never timed out, and tick counts are above 0. */
  ghost predicate Possible(s: State, e: Env) {
    && (e.wait == TimedOut ==> s.Open())
    && e.toneWait != TimedOut
    && e.idTick > 0
  }

  // ----- one pass as a function

  /** An exception leaves the loop, and the transmitter is turned off. */
  function Thrown(s: State): State {
    s.(stopped := true, tx := false)
  }

  function OnTimeout(s: State): State {
    s.(tailTimer := false, squelch := false, tx := false, lastID := 0,
       longSpeaker := s.longSpeaker + if s.squelch then 1 else 0,
       gummitumme := s.gummitumme + if !s.squelch && s.lastID <= 1 then 1 else 0,
       qso := s.qso + if s.squelch || s.lastID > 1 then 1 else 0)
  }

  /** Whether a tone call is accepted, refused, or ends in a failure. */
  datatype ToneCall = Accepted | Refused | Broken

  function CheckToneCall(e: Env): ToneCall {
    if e.pinsBeforeTone.PinsFailed? then Broken
    else if !e.pinsBeforeTone.ring && (e.toneStartFails || e.toneWait == Failed) then Broken
    else if e.pinsInTone.PinsFailed? then Broken
    else if !(e.pinsInTone.cts && e.pinsInTone.ring) then Refused
    else if e.toneEndStartFails || e.toneEndWait == Failed then Broken
    else if e.toneEndWait == TimedOut then Refused
    else if TicksSince(e.toneEnd, e.toneBegin) > LR_MIN_TONECALL_DUR then Accepted
    else Refused
  }

  function OnSquelchOpen(s: State, e: Env, checkTone: bool): State {
    if s.squelch then s
    else
      var t := s.(tailTimer := false);
      if s.lastID != 0 then t.(squelch := true, tx := true)
      else if !checkTone then
        t.(squelch := true, tx := true, lastID := 1, openTime := e.openTick, openings := s.openings + 1)
      else match CheckToneCall(e)
        case Broken => Thrown(t)
        case Refused => t.(tx := false)
        case Accepted => t.(squelch := true, tx := true, openTime := e.openTick, openings := s.openings + 1)
  }

  function OnSquelchClose(s: State, e: Env): State {
    if !s.squelch then s
    else
      s.(tailTimer := true, squelch := false, tx := true,
         lastID := if s.lastID == 0 then 1
                   else if TicksSince(e.idTick, s.lastID) > LR_ID_PERIOD then e.idTick
                   else s.lastID)
  }

  function Next(s: State, e: Env, checkTone: bool): State {
    if e.startFails || e.wait == Failed then Thrown(s)
    else if e.wait == TimedOut then OnTimeout(s)
    else match e.pins
      case PinsFailed => Thrown(s)
      case Pins(cts, _) => if cts then OnSquelchOpen(s, e, checkTone) else OnSquelchClose(s, e)
  }

  // ----- invariants of the loop

  /** At the loop head the transmitter is on exactly while a session is open, at most one of
      the two flags is set, and the last-ID mark tells whether the tail timer may run. */
  ghost predicate LoopHead(s: State) {
    && s.tx == s.Open()
    && !(s.squelch && s.tailTimer)
    && (s.tailTimer ==> s.lastID != 0)
    && (!s.Open() ==> s.lastID == 0)
  }

  /** Every accepted opening is counted once when the session ends, and the long speakers are
      among the conversations. */
  ghost predicate Accounted(first: State, s: State) {
    && s.qso >= first.qso && s.gummitumme >= first.gummitumme && s.longSpeaker >= first.longSpeaker
    && s.openings - first.openings
       == (s.qso - first.qso) + (s.gummitumme - first.gummitumme)
          + (if s.Open() then 1 else 0) - (if first.Open() then 1 else 0)
    && s.longSpeaker - first.longSpeaker <= s.qso - first.qso
  }

  ghost predicate Safe(s: State) {
    if s.stopped then !s.tx else LoopHead(s)
  }

  lemma NextKeepsSafe(s: State, e: Env, checkTone: bool)
    requires LoopHead(s) && !s.stopped && Possible(s, e)
    ensures Safe(Next(s, e, checkTone))
  {
  }

  lemma NextKeepsAccounts(first: State, s: State, e: Env, checkTone: bool)
    requires LoopHead(s) && Possible(s, e) && Accounted(first, s)
    ensures Accounted(first, Next(s, e, checkTone))
  {
  }

  // ----- whole runs

  /** The states at the loop heads of a run; an engine that has stopped makes no more passes. */
  function RunOf(s: State, es: seq<Env>, checkTone: bool): (states: seq<State>)
    ensures states != [] && states[0] == s
    decreases |es|
  {
    if es == [] || s.stopped then [s] else [s] + RunOf(Next(s, es[0], checkTone), es[1..], checkTone)
  }

  ghost predicate PossibleRun(s: State, es: seq<Env>, checkTone: bool)
    decreases |es|
  {
    es == [] || s.stopped
    || (Possible(s, es[0]) && PossibleRun(Next(s, es[0], checkTone), es[1..], checkTone))
  }

  /** How often the transmitter goes on, and how often it goes off, between two loop heads. */
  function Switches(states: seq<State>, on: bool): nat
    requires states != []
  {
    if |states| == 1 then 0
    else (if states[0].tx != on && states[1].tx == on then 1 else 0) + Switches(states[1..], on)
  }

  function Last(states: seq<State>): State
    requires states != []
  {
    states[|states| - 1]
  }

  /** Every loop head of every run is safe, and the counters agree with the openings. */
  lemma {:induction false} RunKeepsInvariants(s: State, es: seq<Env>, checkTone: bool)
    requires LoopHead(s) && !s.stopped && PossibleRun(s, es, checkTone)
    ensures forall t | t in RunOf(s, es, checkTone) :: Safe(t)
    ensures Accounted(s, Last(RunOf(s, es, checkTone)))
    decreases |es|
  {
    if es != [] {
      var t := Next(s, es[0], checkTone);
      NextKeepsSafe(s, es[0], checkTone);
      NextKeepsAccounts(s, s, es[0], checkTone);
      if !t.stopped {
        RunKeepsInvariants(t, es[1..], checkTone);
      }
    }
  }

  /** The transmitter goes on exactly when an opening is accepted; it goes off exactly when a
      session is counted, unless the engine stops. */
  lemma StepSwitches(s: State, e: Env, checkTone: bool)
    requires LoopHead(s) && !s.stopped && Possible(s, e)
    ensures var t := Next(s, e, checkTone);
            && t.openings - s.openings == (if !s.tx && t.tx then 1 else 0)
            && (!t.stopped ==> (t.qso - s.qso) + (t.gummitumme - s.gummitumme) == (if s.tx && !t.tx then 1 else 0))
  {
  }

  /** The first step of a run, and what it switches and counts. */
  lemma FirstStep(s: State, es: seq<Env>, checkTone: bool) returns (t: State)
    requires LoopHead(s) && !s.stopped && PossibleRun(s, es, checkTone) && es != []
    ensures RunOf(s, es, checkTone) == [s] + RunOf(t, es[1..], checkTone)
    ensures t.stopped ==> RunOf(t, es[1..], checkTone) == [t]
    ensures !t.stopped ==> LoopHead(t) && PossibleRun(t, es[1..], checkTone)
    ensures t.openings - s.openings == (if !s.tx && t.tx then 1 else 0)
    ensures !t.stopped ==> (t.qso - s.qso) + (t.gummitumme - s.gummitumme) == (if s.tx && !t.tx then 1 else 0)
  {
    t := Next(s, es[0], checkTone);
    NextKeepsSafe(s, es[0], checkTone);
    StepSwitches(s, es[0], checkTone);
  }

  lemma SwitchesOfStep(s: State, states: seq<State>, on: bool)
    requires states != []
    ensures Switches([s] + states, on) == (if s.tx != on && states[0].tx == on then 1 else 0) + Switches(states, on)
    ensures Last([s] + states) == Last(states)
  {
    assert ([s] + states)[1..] == states;
  }

  /** In every run the transmitter went on once for each accepted opening, and off once for
      each session that ended in a counter. */
  lemma {:induction false} RunSwitches(s: State, es: seq<Env>, checkTone: bool)
    requires LoopHead(s) && !s.stopped && PossibleRun(s, es, checkTone)
    ensures var states := RunOf(s, es, checkTone);
            Switches(states, true) == Last(states).openings - s.openings
    ensures var states := RunOf(s, es, checkTone);
            var ended := (Last(states).qso - s.qso) + (Last(states).gummitumme - s.gummitumme);
            !Last(states).stopped ==> Switches(states, false) == ended
    decreases |es|
  {
    if es != [] {
      var t := FirstStep(s, es, checkTone);
      SwitchesOfStep(s, RunOf(t, es[1..], checkTone), true);
      SwitchesOfStep(s, RunOf(t, es[1..], checkTone), false);
      if !t.stopped {
        RunSwitches(t, es[1..], checkTone);
      }
    }
  }

  // ----- the program

  class Engine {
    var bTailTimerEnabled: bool
    var bSquelchOpened: bool
    var dwLastIDTime: nat
    var dwOpenTime: nat
    var tx: bool
    var dwQSOCount: nat
    var dwGummitummeCount: nat
    var dwLongSpeakerCount: nat
    var stopped: bool
    ghost var openings: nat
    /** LR_CHECK_TONE_CALL */
    const checkTone: bool

    ghost function Now(): State
      reads this
    {
      State(bTailTimerEnabled, bSquelchOpened, dwLastIDTime, dwOpenTime, tx,
            dwQSOCount, dwGummitummeCount, dwLongSpeakerCount, openings, stopped)
    }

    /** The engine starts with the transmitter off, on the statistics of earlier runs. */
    constructor (checkTone: bool, qso: nat, gummitumme: nat, longSpeaker: nat)
      ensures this.checkTone == checkTone
      ensures Now() == State(false, false, 0, 0, false, qso, gummitumme, longSpeaker, 0, false)
    {
      this.checkTone := checkTone;
      bTailTimerEnabled, bSquelchOpened, dwLastIDTime, dwOpenTime := false, false, 0, 0;
      tx, stopped, openings := false, false, 0;
      dwQSOCount, dwGummitummeCount, dwLongSpeakerCount := qso, gummitumme, longSpeaker;
    }

    method SetTX(on: bool)
      modifies `tx
      ensures tx == on
    {
      tx := on;
    }

    /** WaitForSingleObject with INFINITE: only ever called with the transmitter off. */
    method WaitForever(wait: Wait) returns (r: Wait)
      requires !tx && wait != TimedOut
      ensures r == wait
    {
      r := wait;
    }

    method StopEngine()
      modifies `tx, `stopped
      ensures !tx && stopped
    {
      stopped := true;
      SetTX(false);
    }

    /** The part of the loop for a wait that timed out. */
    method Timeout()
      modifies this
      ensures Now() == old(OnTimeout(Now()))
    {
      bTailTimerEnabled := false;
      if bSquelchOpened {
        dwLongSpeakerCount := dwLongSpeakerCount + 1;
        dwQSOCount := dwQSOCount + 1;
        bSquelchOpened := false;
      } else if dwLastIDTime <= 1 {
        dwGummitummeCount := dwGummitummeCount + 1;
      } else {
        dwQSOCount := dwQSOCount + 1;
      }
      SetTX(false);
      dwLastIDTime := 0;
    }

    /** The part of the loop that waits for a tone call. */
    method ToneCallAccepted(e: Env) returns (r: ToneCall)
      requires !tx && e.toneWait != TimedOut
      ensures r == CheckToneCall(e)
    {
      if e.pinsBeforeTone.PinsFailed? {
        return Broken;
      }
      if !e.pinsBeforeTone.ring {
        if e.toneStartFails {
          return Broken;
        }
        var wait := WaitForever(e.toneWait);
        if wait == Failed {
          return Broken;
        }
      }
      if e.pinsInTone.PinsFailed? {
        return Broken;
      }
      if !(e.pinsInTone.cts && e.pinsInTone.ring) {
        return Refused;
      }
      if e.toneEndStartFails {
        return Broken;
      }
      match e.toneEndWait {
        case Failed => return Broken;
        case TimedOut => return Refused;
        case Signalled =>
      }
      return if TicksSince(e.toneEnd, e.toneBegin) > LR_MIN_TONECALL_DUR then Accepted else Refused;
    }

    /** The part of the loop for an open squelch. */
    method SquelchOpened(e: Env)
      requires e.toneWait != TimedOut
      modifies this
      ensures Now() == old(OnSquelchOpen(Now(), e, checkTone))
    {
      if bSquelchOpened {
        return;
      }
      bTailTimerEnabled := false;
      if dwLastIDTime == 0 {
        if checkTone {
          SetTX(false);
          var r := ToneCallAccepted(e);
          match r {
            case Broken => StopEngine(); return;
            case Refused => return;
            case Accepted =>
          }
        } else {
          dwLastIDTime := 1;
        }
        dwOpenTime := e.openTick;
        openings := openings + 1;
      }
      bSquelchOpened := true;
      SetTX(true);
    }

    /** The part of the loop for a closed squelch. */
    method SquelchClosed(e: Env)
      modifies this
      ensures Now() == old(OnSquelchClose(Now(), e))
    {
      if !bSquelchOpened {
        return;
      }
      bTailTimerEnabled := true;
      bSquelchOpened := false;
      SetTX(true);
      if dwLastIDTime == 0 {
        dwLastIDTime := 1;
      } else if TicksSince(e.idTick, dwLastIDTime) > LR_ID_PERIOD {
        dwLastIDTime := e.idTick;
      }
    }

    /** One pass of the main loop. */
    method Pass(e: Env)
      requires LoopHead(Now()) && Possible(Now(), e)
      modifies this
      ensures Now() == old(Next(Now(), e, checkTone))
    {
      if e.startFails {
        StopEngine();
        return;
      }
      var wait := e.wait;
      if !bTailTimerEnabled && !bSquelchOpened {
        wait := WaitForever(e.wait);
      }
      if wait == Failed {
        StopEngine();
      } else if wait == TimedOut {
        Timeout();
      } else if e.pins.PinsFailed? {
        StopEngine();
      } else if e.pins.cts {
        SquelchOpened(e);
      } else {
        SquelchClosed(e);
      }
    }

    /** Any number of passes: when they end, the engine is in the last state of the run. */
    method Run(es: seq<Env>)
      requires LoopHead(Now()) && !stopped && PossibleRun(Now(), es, checkTone)
      modifies this
      ensures Now() == Last(RunOf(old(Now()), es, checkTone))
      ensures Safe(Now()) && Accounted(old(Now()), Now())
    {
      RunKeepsInvariants(Now(), es, checkTone);
      ghost var end := Last(RunOf(Now(), es, checkTone));
      var i := 0;
      while i < |es| && !stopped
        invariant 0 <= i <= |es|
        invariant Safe(Now()) && PossibleRun(Now(), es[i..], checkTone)
        invariant Last(RunOf(Now(), es[i..], checkTone)) == end
      {
        NextKeepsSafe(Now(), es[i], checkTone);
        assert es[i..][0] == es[i] && es[i..][1..] == es[i + 1..];
        Pass(es[i]);
        i := i + 1;
      }
    }
  }
}
