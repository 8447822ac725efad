/** One call of getopt as a function of what has been read so far, and the proof that the
    calls, made until -1 is returned, deliver what OptionSyntax reads from the arguments. */
module GetOptCall {
  import opened Common
  import opened OptionSyntax

  /** The return values: an option letter, "?", BADARG, INORDER, -1 and, internally, -2. */
  datatype Ret = Letter(c: char) | BadCh | BadArg(code: char) | InOrderArg | Finished | Dashes

  /** What a call reports: its return value, optarg and optopt. */
  datatype Report = Report(ret: Ret, optarg: Option<string>, optopt: char) {
    function Event(): Event
      requires !ret.Finished? && !ret.Dashes? && (ret.InOrderArg? ==> optarg.Some?)
    {
      match ret
      case Letter(c) => Opt(c, optarg)
      case BadCh => UnknownLetter(optopt)
      case BadArg(_) => MissingArgument(optopt)
      case InOrderArg => NonOption(optarg.value)
    }
  }

  /** What the scanner's variables say about the arguments: the words consumed, the operands
      skipped, and the words from optind on. If `place` is not empty, it is the unread part
      of the word rest[0]. */
  datatype View = View(consumed: seq<string>, skipped: seq<string>, place: string, rest: seq<string>) {
    ghost predicate Valid() { place != "" ==> rest != [] }

    /** Finish the current word, and take n more words. */
    function Take(n: nat): View
      requires n < |rest|
    {
      View(consumed + rest[..n + 1], skipped, "", rest[n + 1..])
    }
  }

  /** One call: what it reports and what is left to read. */
  datatype Call = Call(report: Report, view: View)

  // ----- the call as a function

  /** BADARG */
  function BadArgCode(options: string): char {
    if (IgnoreFirst(options) && CharAt(options, 1, ':')) || CharAt(options, 0, ':') then ':' else '?'
  }

  function TakeLetter(v: View, options: string, optopt: char): Call
    requires v.Valid() && v.place != ""
  {
    var c, rest := v.place[0], v.place[1..];
    var v' := if rest == "" then v.Take(0) else v.(place := rest);
    match KindOf(c, options)
    case Unknown => Call(Report(BadCh, None, c), v')
    case Flag => Call(Report(Letter(c), None, optopt), v')
    case OptionalArg =>
      Call(Report(Letter(c), if rest == "" then None else Some(rest), optopt), v.Take(0))
    case RequiredArg =>
      if rest != "" then Call(Report(Letter(c), Some(rest), optopt), v.Take(0))
      else if |v.rest| == 1 then Call(Report(BadArg(BadArgCode(options)), None, c), v.Take(0))
      else Call(Report(Letter(c), Some(v.rest[1]), optopt), v.Take(1))
    case LongPrefix =>
      if rest != "" then Call(Report(Finished, None, optopt), v.Take(0))
      else if |v.rest| == 1 then Call(Report(BadArg(BadArgCode(options)), None, c), v.Take(0))
      else Call(Report(Finished, None, optopt), v.Take(1))
  }

  function SkipOperands(v: View, mode: Mode): (r: View)
    ensures r.place == v.place && (v.place == "" ==> r.Valid())
    decreases |v.rest|
  {
    if mode != Permute || v.rest == [] || IsOption(v.rest[0]) then v
    else SkipOperands(v.(skipped := v.skipped + [v.rest[0]], rest := v.rest[1..]), mode)
  }

  /** A call that starts a new word, once operands have been skipped. */
  function StartWord(v: View, mode: Mode, options: string, optopt: char): Call
    requires v.place == ""
  {
    if v.rest == [] then Call(Report(Finished, None, optopt), v)
    else if !IsOption(v.rest[0]) then
      if mode == InOrder then Call(Report(InOrderArg, Some(v.rest[0]), optopt), v.Take(0))
      else Call(Report(Finished, None, optopt), v)
    else if v.rest[0][1] == '-' then Call(Report(Finished, None, optopt), v.Take(0))
    else TakeLetter(v.(place := v.rest[0][1..]), options, optopt)
  }

  function CallOnce(v: View, mode: Mode, options: string, optopt: char): Call
    requires v.Valid()
  {
    if v.place != "" then TakeLetter(v, options, optopt)
    else StartWord(SkipOperands(v, mode), mode, options, optopt)
  }

  // ----- the call meets the reading of the arguments

  /** The events still to come and the division of all the arguments that will result. */
  ghost function Outcome(v: View, mode: Mode, options: string): Parse
    requires v.Valid()
  {
    var p := if v.place == "" then ParseArgs(v.rest, mode, options)
             else ParseWord(v.place, v.rest[1..], mode, options).Consuming(v.rest[0]);
    Parse(p.events, v.consumed + p.consumed, v.skipped + p.operands)
  }

  /** A call either reports the first event of the outcome and leaves exactly the others to
      come, or reports -1 when none is left and the words lie as the outcome says. */
  ghost predicate Meets(o: Parse, c: Call, mode: Mode, options: string) {
    if c.report.ret == Finished then o == Parse([], c.view.consumed, c.view.skipped + c.view.rest)
    else
      && !c.report.ret.Dashes? && (c.report.ret.InOrderArg? ==> c.report.optarg.Some?)
      && c.view.Valid()
      && o == Outcome(c.view, mode, options).Reporting(c.report.Event())
  }

  lemma OutcomeAfterTake(v: View, n: nat, mode: Mode, options: string)
    requires n < |v.rest|
    ensures var p := ParseArgs(v.rest[n + 1..], mode, options);
      Outcome(v.Take(n), mode, options)
      == Parse(p.events, v.consumed + (v.rest[..n + 1] + p.consumed), v.skipped + p.operands)
  {
    assert (v.consumed + v.rest[..n + 1]) + ParseArgs(v.rest[n + 1..], mode, options).consumed
        == v.consumed + (v.rest[..n + 1] + ParseArgs(v.rest[n + 1..], mode, options).consumed);
  }

  lemma PlainLetterMeets(v: View, mode: Mode, options: string, optopt: char)
    requires v.Valid() && v.place != "" && KindOf(v.place[0], options) in {Unknown, Flag, OptionalArg}
    ensures Meets(Outcome(v, mode, options), TakeLetter(v, options, optopt), mode, options)
  {
    OutcomeAfterTake(v, 0, mode, options);
    assert v.rest[..1] == [v.rest[0]];
  }

  lemma ArgumentLetterMeets(v: View, mode: Mode, options: string, optopt: char)
    requires v.Valid() && v.place != "" && KindOf(v.place[0], options) == RequiredArg
    ensures Meets(Outcome(v, mode, options), TakeLetter(v, options, optopt), mode, options)
  {
    OutcomeAfterTake(v, 0, mode, options);
    assert v.rest[..1] == [v.rest[0]];
    if |v.rest| == 1 {
      assert v.rest[1..] == [];
    } else {
      OutcomeAfterTake(v, 1, mode, options);
      assert v.rest[..2] == [v.rest[0]] + [v.rest[1]];
      assert v.rest[1..][0] == v.rest[1] && v.rest[1..][1..] == v.rest[2..];
      var p := ParseArgs(v.rest[2..], mode, options);
      assert v.rest[..2] + p.consumed == [v.rest[0]] + ([v.rest[1]] + p.consumed);
    }
  }

  lemma LongPrefixMeets(v: View, mode: Mode, options: string, optopt: char)
    requires v.Valid() && v.place != "" && KindOf(v.place[0], options) == LongPrefix
    ensures Meets(Outcome(v, mode, options), TakeLetter(v, options, optopt), mode, options)
  {
    OutcomeAfterTake(v, 0, mode, options);
    assert v.rest[..1] == [v.rest[0]];
    if |v.rest| == 1 {
      assert v.rest[1..] == [];
    } else {
      assert v.rest[..2] == [v.rest[0]] + [v.rest[1]];
      assert v.rest[1..][0] == v.rest[1] && v.rest[1..][1..] == v.rest[2..];
    }
  }

  lemma LetterMeets(v: View, mode: Mode, options: string, optopt: char)
    requires v.Valid() && v.place != ""
    ensures Meets(Outcome(v, mode, options), TakeLetter(v, options, optopt), mode, options)
  {
    match KindOf(v.place[0], options)
    case RequiredArg => ArgumentLetterMeets(v, mode, options, optopt);
    case LongPrefix => LongPrefixMeets(v, mode, options, optopt);
    case _ => PlainLetterMeets(v, mode, options, optopt);
  }

  /** Skipping operands decides nothing. */
  lemma {:induction false} SkippingKeepsOutcome(v: View, mode: Mode, options: string)
    requires v.place == ""
    ensures Outcome(SkipOperands(v, mode), mode, options) == Outcome(v, mode, options)
    decreases |v.rest|
  {
    if mode == Permute && v.rest != [] && !IsOption(v.rest[0]) {
      var w, u := v.rest[0], v.(skipped := v.skipped + [v.rest[0]], rest := v.rest[1..]);
      SkippingKeepsOutcome(u, mode, options);
      var p := ParseArgs(u.rest, mode, options);
      assert (v.skipped + [w]) + p.operands == v.skipped + ([w] + p.operands);
    }
  }

  lemma StartWordMeets(v: View, mode: Mode, options: string, optopt: char)
    requires v.place == "" && (mode == Permute && v.rest != [] ==> IsOption(v.rest[0]))
    ensures Meets(Outcome(v, mode, options), StartWord(v, mode, options, optopt), mode, options)
  {
    if v.rest != [] {
      assert v.rest[..1] == [v.rest[0]];
      OutcomeAfterTake(v, 0, mode, options);
      if IsOption(v.rest[0]) && v.rest[0][1] != '-' {
        var u := v.(place := v.rest[0][1..]);
        assert Outcome(u, mode, options) == Outcome(v, mode, options);
        LetterMeets(u, mode, options, optopt);
      }
    }
  }

  lemma {:induction false} SkippedToOption(v: View, mode: Mode)
    ensures var r := SkipOperands(v, mode); mode == Permute && r.rest != [] ==> IsOption(r.rest[0])
    decreases |v.rest|
  {
    if !(mode != Permute || v.rest == [] || IsOption(v.rest[0])) {
      SkippedToOption(v.(skipped := v.skipped + [v.rest[0]], rest := v.rest[1..]), mode);
    }
  }

  /** Every call, in every mode, meets the outcome that was due before it. */
  lemma CallMeetsOutcome(v: View, mode: Mode, options: string, optopt: char)
    requires v.Valid()
    ensures Meets(Outcome(v, mode, options), CallOnce(v, mode, options, optopt), mode, options)
  {
    if v.place != "" {
      LetterMeets(v, mode, options, optopt);
    } else {
      SkippingKeepsOutcome(v, mode, options);
      SkippedToOption(v, mode);
      StartWordMeets(SkipOperands(v, mode), mode, options, optopt);
    }
  }

  lemma {:induction false} NothingSkipped(v: View, mode: Mode, options: string, optopt: char)
    requires v.Valid() && (v.skipped != [] ==> mode == Permute)
    ensures CallOnce(v, mode, options, optopt).view.skipped != [] ==> mode == Permute
  {
  }

  /** The calls made so far and the one just made, against the outcome o of all calls. */
  lemma CallsMeet(o: Parse, events: seq<Event>, p: Parse, c: Call, mode: Mode, options: string)
    requires o == p.(events := events + p.events) && Meets(p, c, mode, options)
    ensures c.report.ret == Finished ==>
              o == Parse(events, c.view.consumed, c.view.skipped + c.view.rest)
    ensures c.report.ret != Finished ==>
      var p' := Outcome(c.view, mode, options);
      && o == p'.(events := (events + [c.report.Event()]) + p'.events)
      && |p'.events| < |p.events|
  {
    if c.report.ret != Finished {
      var p' := Outcome(c.view, mode, options);
      assert events + ([c.report.Event()] + p'.events) == (events + [c.report.Event()]) + p'.events;
    }
  }
}
