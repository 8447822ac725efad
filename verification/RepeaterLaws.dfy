/** LightRepeater.cpp: what the passes of the control loop do to the repeater, in milliseconds, and
    what the counters of the statistics have counted after a run. */
module RepeaterLaws {
  import opened RepeaterControl

  /** Tick counts are 32-bit words, and wrap around. */
  lemma TicksWrap(now: nat, since: nat)
    requires now < 0x1_0000_0000 && since < 0x1_0000_0000
    ensures TicksSince(now, since) == (now - since) % 0x1_0000_0000
  {
  }

  // ----- tone calls

  /** The tone is heard: it is there, or the wait for it has been signalled. */
  predicate ToneHeard(e: Env) {
    e.pinsBeforeTone.Pins? && (e.pinsBeforeTone.ring || (!e.toneStartFails && e.toneWait == Signalled))
  }

  /** The squelch stays open while the tone goes on, and its end can be waited for. */
  predicate ToneWatched(e: Env) {
    ToneHeard(e) && e.pinsInTone == Pins(true, true) && !e.toneEndStartFails
  }

  /** A tone call is accepted if it ends after more than 200 milliseconds; a failure of the port
      breaks it; any other is refused. */
  lemma ToneCallMeans(e: Env)
    requires e.toneBegin < 0x1_0000_0000 && e.toneEnd < 0x1_0000_0000 && e.toneWait != TimedOut
    ensures CheckToneCall(e) == Accepted
      <==> ToneWatched(e) && e.toneEndWait == Signalled && (e.toneEnd - e.toneBegin) % 0x1_0000_0000 > 200
    ensures CheckToneCall(e) == Broken
      <==> || !ToneHeard(e) || e.pinsInTone.PinsFailed?
           || (e.pinsInTone == Pins(true, true) && (e.toneEndStartFails || e.toneEndWait == Failed))
  {
    TicksWrap(e.toneEnd, e.toneBegin);
  }

  // ----- one pass

  /** What the theorems take for granted of a pass: waits without a limit do not time out, and the
      clock is not 0. */
  lemma PassIsPossible(s: State, e: Env)
    ensures Possible(s, e)
      <==> (e.wait == TimedOut ==> s.squelch || s.tailTimer) && e.toneWait != TimedOut && e.idTick >= 1
  {
  }

  /** The wait of a pass has been signalled, and the pins have been read. */
  predicate SignalledPass(e: Env) {
    !e.startFails && e.wait == Signalled && e.pins.Pins?
  }

  predicate TimedOutPass(e: Env) {
    !e.startFails && e.wait == TimedOut
  }

  /** Any failure of the port stops the engine, with the transmitter off. */
  lemma FailedPass(s: State, e: Env, checkTone: bool)
    requires !SignalledPass(e) && !TimedOutPass(e)
    ensures Next(s, e, checkTone) == s.(stopped := true, tx := false)
  {
  }

  /** The squelch opens: the tail of an open session is interrupted; a closed repeater opens at
      once, or for a tone call only. */
  lemma OpeningPass(s: State, e: Env, checkTone: bool)
    requires LoopHead(s) && SignalledPass(e) && e.pins.cts
    ensures Next(s, e, checkTone)
      == if s.squelch then s
         else if s.tailTimer then s.(squelch := true, tailTimer := false)
         else if !checkTone then
           s.(squelch := true, tx := true, lastID := 1, openTime := e.openTick, openings := s.openings + 1)
         else match CheckToneCall(e)
           case Accepted => s.(squelch := true, tx := true, openTime := e.openTick, openings := s.openings + 1)
           case Refused => s
           case Broken => s.(stopped := true)
  {
  }

  /** The squelch closes: the tail timer starts, and the mark of the last identification is set by
      the first transmission, and then every 600 seconds. */
  lemma ClosingPass(s: State, e: Env, checkTone: bool)
    requires LoopHead(s) && SignalledPass(e) && !e.pins.cts
    requires e.idTick < 0x1_0000_0000 && s.lastID < 0x1_0000_0000
    ensures Next(s, e, checkTone)
      == if !s.squelch then s
         else s.(squelch := false, tailTimer := true,
                 lastID := if s.lastID == 0 then 1
                           else if (e.idTick - s.lastID) % 0x1_0000_0000 > 600000 then e.idTick
                           else s.lastID)
  {
    TicksWrap(e.idTick, s.lastID);
  }

  // ----- what the counters count

  /** A talk that has lasted too long. */
  predicate LongTalk(s: State, e: Env) {
    TimedOutPass(e) && s.squelch
  }

  /** The end of a tail with the mark as the first transmission has left it. */
  predicate NotIdentified(s: State, e: Env) {
    TimedOutPass(e) && s.tailTimer && s.lastID == 1
  }

  /** The end of any other tail. */
  predicate Identified(s: State, e: Env) {
    TimedOutPass(e) && s.tailTimer && s.lastID != 1
  }

  /** The session is over, and has been counted. */
  lemma SessionCounted(s: State, e: Env, checkTone: bool)
    requires LoopHead(s) && Possible(s, e) && TimedOutPass(e)
    ensures var t := Next(s, e, checkTone);
      && t == s.(squelch := false, tailTimer := false, tx := false, lastID := 0,
                 qso := t.qso, gummitumme := t.gummitumme, longSpeaker := t.longSpeaker)
      && t.longSpeaker == s.longSpeaker + (if s.squelch then 1 else 0)
      && t.gummitumme == s.gummitumme + (if s.tailTimer && s.lastID == 1 then 1 else 0)
      && t.qso == s.qso + (if s.tailTimer && s.lastID == 1 then 0 else 1)
  {
  }

  lemma PassCounts(s: State, e: Env, checkTone: bool)
    requires LoopHead(s) && Possible(s, e)
    ensures var t := Next(s, e, checkTone);
      && t.longSpeaker - s.longSpeaker == (if LongTalk(s, e) then 1 else 0)
      && t.gummitumme - s.gummitumme == (if NotIdentified(s, e) then 1 else 0)
      && t.qso - s.qso == (if LongTalk(s, e) || Identified(s, e) then 1 else 0)
  {
  }

  /** How many passes of a run are of a kind. */
  ghost function Passes(states: seq<State>, es: seq<Env>, kind: (State, Env) -> bool): nat
    requires 0 < |states| <= |es| + 1
  {
    if |states| == 1 then 0
    else (if kind(states[0], es[0]) then 1 else 0) + Passes(states[1..], es[1..], kind)
  }

  lemma {:induction false} RunLength(s: State, es: seq<Env>, checkTone: bool)
    ensures |RunOf(s, es, checkTone)| <= |es| + 1
    decreases |es|
  {
    if es != [] && !s.stopped {
      RunLength(Next(s, es[0], checkTone), es[1..], checkTone);
    }
  }

  lemma PassesOfStep(s: State, states: seq<State>, es: seq<Env>, kind: (State, Env) -> bool)
    requires 0 < |states| <= |es|
    ensures Passes([s] + states, es, kind) == (if kind(s, es[0]) then 1 else 0) + Passes(states, es[1..], kind)
  {
    assert ([s] + states)[1..] == states;
  }

  /** The first pass of a run, and what it counts. */
  lemma FirstCounts(s: State, es: seq<Env>, checkTone: bool) returns (t: State)
    requires LoopHead(s) && !s.stopped && PossibleRun(s, es, checkTone) && es != []
    ensures RunOf(s, es, checkTone) == [s] + RunOf(t, es[1..], checkTone)
    ensures t.stopped ==> RunOf(t, es[1..], checkTone) == [t]
    ensures !t.stopped ==> LoopHead(t) && PossibleRun(t, es[1..], checkTone)
    ensures t.longSpeaker - s.longSpeaker == (if LongTalk(s, es[0]) then 1 else 0)
    ensures t.gummitumme - s.gummitumme == (if NotIdentified(s, es[0]) then 1 else 0)
    ensures t.qso - s.qso
         == (if LongTalk(s, es[0]) then 1 else 0) + (if Identified(s, es[0]) then 1 else 0)
  {
    t := Next(s, es[0], checkTone);
    NextKeepsSafe(s, es[0], checkTone);
    PassCounts(s, es[0], checkTone);
  }

  /** After every run each counter has grown by the number of the passes that it counts. */
  lemma {:induction false} CountersCount(s: State, es: seq<Env>, checkTone: bool)
    requires LoopHead(s) && !s.stopped && PossibleRun(s, es, checkTone)
    ensures |RunOf(s, es, checkTone)| <= |es| + 1
    ensures var states := RunOf(s, es, checkTone);
      && Last(states).longSpeaker - s.longSpeaker == Passes(states, es, LongTalk)
      && Last(states).gummitumme - s.gummitumme == Passes(states, es, NotIdentified)
      && Last(states).qso - s.qso == Passes(states, es, LongTalk) + Passes(states, es, Identified)
    decreases |es|
  {
    RunLength(s, es, checkTone);
    if es != [] {
      var t := FirstCounts(s, es, checkTone);
      var states := RunOf(t, es[1..], checkTone);
      RunLength(t, es[1..], checkTone);
      PassesOfStep(s, states, es, LongTalk);
      PassesOfStep(s, states, es, NotIdentified);
      PassesOfStep(s, states, es, Identified);
      SwitchesOfStep(s, states, true);
      if !t.stopped {
        CountersCount(t, es[1..], checkTone);
      }
    }
  }

  /** At every loop head of every run: the transmitter is on exactly while one of the two flags is
      set, never both are, and a running tail timer has a mark; a stopped engine is off. */
  lemma HeadsAreSafe(s: State, es: seq<Env>, checkTone: bool, i: nat)
    requires LoopHead(s) && !s.stopped && PossibleRun(s, es, checkTone) && i < |RunOf(s, es, checkTone)|
    ensures var t := RunOf(s, es, checkTone)[i];
      if t.stopped then !t.tx
      else
        && (t.tx <==> t.squelch || t.tailTimer) && !(t.squelch && t.tailTimer)
        && (t.tailTimer ==> t.lastID != 0) && (!t.squelch && !t.tailTimer ==> t.lastID == 0)
  {
    RunKeepsInvariants(s, es, checkTone);
    assert RunOf(s, es, checkTone)[i] in RunOf(s, es, checkTone);
  }

  /** After every run the openings are as many as the sessions counted, and one more if one is open. */
  lemma OpeningsAgree(s: State, es: seq<Env>, checkTone: bool)
    requires LoopHead(s) && !s.Open() && !s.stopped && PossibleRun(s, es, checkTone)
    ensures var t := Last(RunOf(s, es, checkTone));
      && t.openings - s.openings
         == (t.qso - s.qso) + (t.gummitumme - s.gummitumme) + (if t.squelch || t.tailTimer then 1 else 0)
      && 0 <= t.longSpeaker - s.longSpeaker <= t.qso - s.qso && t.gummitumme >= s.gummitumme
  {
    RunKeepsInvariants(s, es, checkTone);
  }

  // ----- whole sessions

  /** A session of one transmission whose tail runs out is no conversation, unless the repeater opens
      without a tone call and the clock was past 600 seconds. */
  lemma OneTransmission(s: State, open: Env, close: Env, end: Env, checkTone: bool)
    requires LoopHead(s) && !s.Open()
    requires SignalledPass(open) && open.pins.cts && (checkTone ==> CheckToneCall(open) == Accepted)
    requires SignalledPass(close) && !close.pins.cts && 1 < close.idTick < 0x1_0000_0000
    requires TimedOutPass(end) && end.toneWait != TimedOut && end.idTick > 1
    ensures var t := Next(Next(Next(s, open, checkTone), close, checkTone), end, checkTone);
      && t.openings == s.openings + 1 && t.longSpeaker == s.longSpeaker && !t.Open() && !t.tx
      && if checkTone || close.idTick <= 600001
         then t.gummitumme == s.gummitumme + 1 && t.qso == s.qso
         else t.gummitumme == s.gummitumme && t.qso == s.qso + 1
  {
    OpeningPass(s, open, checkTone);
    var s1 := Next(s, open, checkTone);
    ClosingPass(s1, close, checkTone);
    var s2 := Next(s1, close, checkTone);
    SessionCounted(s2, end, checkTone);
  }

  /** A session in which the repeater has identified itself is a conversation. */
  lemma IdentifiedSession(s: State, close: Env, end: Env, checkTone: bool)
    requires LoopHead(s) && s.squelch && 0 < s.lastID < 0x1_0000_0000
    requires SignalledPass(close) && !close.pins.cts && 1 < close.idTick < 0x1_0000_0000
    requires (close.idTick - s.lastID) % 0x1_0000_0000 > 600000
    requires TimedOutPass(end) && end.toneWait != TimedOut && end.idTick > 1
    ensures var t := Next(Next(s, close, checkTone), end, checkTone);
      t.qso == s.qso + 1 && t.gummitumme == s.gummitumme && t.longSpeaker == s.longSpeaker
  {
    ClosingPass(s, close, checkTone);
    SessionCounted(Next(s, close, checkTone), end, checkTone);
  }
}
