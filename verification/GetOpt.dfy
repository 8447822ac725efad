/** The scanner of getopt.c: global variables that survive from call to call, and an
    argument vector that is permuted in place while it is read. */
module GetOpt {
  import opened Common
  import opened OptionSyntax
  import opened Rotation
  import opened GetOptCall

  // ----- what the scanner's variables mean

  /** optind, place, nonopt_start and nonopt_end. */
  datatype Cursor = Cursor(ind: nat, place: string, ns: int, ne: int)

  /** The operands seen so far are none (ns == -1), end at ind (ne == -1), or lie between ns
      and ne with consumed words on both sides. */
  ghost predicate ValidLayout(k: Cursor, n: nat) {
    && (k.ns == -1 ==> k.ne == -1)
    && (k.ns != -1 ==> 0 <= k.ns < k.ind <= n)
    && (k.ne != -1 ==> k.ns < k.ne <= k.ind)
  }

  ghost function Layout(k: Cursor, argv: seq<string>): (v: View)
    requires ValidLayout(k, |argv|)
  {
    var ind := if k.ind < |argv| then k.ind else |argv|;
    if k.ns == -1 then View(argv[..ind], [], k.place, argv[ind..])
    else if k.ne == -1 then View(argv[..k.ns], argv[k.ns..ind], k.place, argv[ind..])
    else View(argv[..k.ns] + argv[k.ne..ind], argv[k.ns..k.ne], k.place, argv[ind..])
  }

  /** Whenever operands have been passed over, they are non-empty, and so are the consumed
      words that follow them once a word is complete: `permute_args` gets two proper blocks. */
  ghost predicate ValidCursor(k: Cursor, n: nat) {
    && ValidLayout(k, n)
    && (k.place != "" ==> k.ind < n && (k.ns != -1 ==> k.ne != -1))
    && (k.place == "" ==> k.ne < k.ind)
  }

  // ----- steps of the scanner, on values

  /** An operand joins the operands skipped so far, after these have moved next to it. */
  lemma SkipWord(k: Cursor, argv: seq<string>, k': Cursor, argv': seq<string>)
    requires ValidCursor(k, |argv|) && k.place == "" && k.ind < |argv|
    requires k'.place == "" && k'.ne == -1 && k'.ind == k.ind + 1
    requires k.ne == -1 ==> argv' == argv && k'.ns == if k.ns == -1 then k.ind else k.ns
    requires k.ne != -1 ==>
               k'.ns == k.ind - (k.ne - k.ns) && argv' == Exchanged(argv, k.ns, k.ne, k.ind)
    ensures ValidCursor(k', |argv'|)
    ensures var v := Layout(k, argv);
      Layout(k', argv') == v.(skipped := v.skipped + [v.rest[0]], rest := v.rest[1..])
  {
    var v, v' := Layout(k, argv), Layout(k', argv');
    assert v'.rest == v.rest[1..];
    assert v'.skipped == v.skipped + [v.rest[0]];
    assert v'.consumed == v.consumed;
  }

  /** The current word and n more words are complete. */
  lemma WordsTaken(k: Cursor, argv: seq<string>, n: nat)
    requires ValidLayout(k, |argv|) && k.ind + n < |argv| && (k.ns != -1 ==> k.ne != -1)
    ensures ValidCursor(k.(place := "", ind := k.ind + n + 1), |argv|)
    ensures Layout(k.(place := "", ind := k.ind + n + 1), argv) == Layout(k, argv).Take(n)
  {
    var m := k.ind + n + 1;
    NextSlice(argv, k.ind, m);
    if k.ns == -1 {
      SlicesJoin(argv, [], 0, k.ind, m);
    } else {
      SlicesJoin(argv, argv[..k.ns], k.ne, k.ind, m);
    }
  }

  lemma NextSlice(argv: seq<string>, a: nat, m: nat)
    requires a <= m <= |argv|
    ensures argv[a..][..m - a] == argv[a..m] && argv[a..][m - a..] == argv[m..]
  {
  }

  lemma SlicesJoin(argv: seq<string>, x: seq<string>, a: nat, b: nat, c: nat)
    requires a <= b <= c <= |argv|
    ensures (x + argv[a..b]) + argv[b..c] == x + argv[a..c]
    ensures a == 0 ==> argv[..b] + argv[b..c] == argv[..c]
  {
  }

  /** The current word and its argument, the next word, are complete. */
  lemma ArgumentWord(k: Cursor, argv: seq<string>)
    requires ValidCursor(k, |argv|) && k.place != "" && k.ind + 1 < |argv|
    ensures var v := Layout(k, argv); |v.rest| > 1 && v.rest[1] == argv[k.ind + 1]
    ensures var k' := k.(place := "", ind := k.ind + 2);
      ValidCursor(k', |argv|) && Layout(k', argv) == Layout(k, argv).Take(1)
  {
    WordsTaken(k, argv, 1);
  }

  /** A long option in the rest of the current word, or in the next word, ends the scan as a
      terminator does. */
  lemma LongWordHere(k: Cursor, argv: seq<string>)
    requires ValidCursor(k, |argv|) && k.place != ""
    ensures Layout(k, argv).Take(0) == Layout(k.(place := ""), argv).Take(0)
  {
  }

  lemma LongWordNext(k: Cursor, argv: seq<string>)
    requires ValidCursor(k, |argv|) && k.place != "" && k.ind + 1 < |argv|
    ensures var v, k' := Layout(k, argv), k.(place := "", ind := k.ind + 1);
      && |v.rest| > 1 && ValidLayout(k', |argv|) && (k'.ns != -1 ==> k'.ne != -1)
      && v.Take(1) == Layout(k', argv).Take(0)
  {
    WordsTaken(k, argv, 1);
    WordsTaken(k.(place := "", ind := k.ind + 1), argv, 0);
  }

  /** A word of options ends a run of operands. */
  lemma RunEnds(k: Cursor, argv: seq<string>, place: string)
    requires ValidCursor(k, |argv|) && k.place == "" && k.ind < |argv| && place != ""
    ensures var k' := k.(place := place, ne := if k.ns != -1 && k.ne == -1 then k.ind else k.ne);
      ValidCursor(k', |argv|) && Layout(k', argv) == Layout(k, argv).(place := place)
  {
    if k.ns != -1 && k.ne == -1 {
      assert argv[..k.ns] + argv[k.ind..k.ind] == argv[..k.ns];
    }
  }

  /** Consumed words, then skipped operands, then the rest. */
  ghost predicate Arranged(v: View, ind: nat, argv: seq<string>) {
    && argv == v.consumed + (v.skipped + v.rest)
    && (ind <= |argv| ==> ind == |v.consumed|)
  }

  /** What becomes of the skipped operands when -1 is returned. */
  lemma SkippedMoveBack(k: Cursor, argv: seq<string>)
    requires ValidCursor(k, |argv|) && (k.ns != -1 && k.ne == -1 ==> k.ind == |argv|)
    ensures var v := Layout(k, argv);
      && (k.ns == -1 ==> Arranged(v, k.ind, argv))
      && (k.ns != -1 && k.ne == -1 ==> Arranged(v, k.ns, argv))
      && (k.ne != -1 ==> Arranged(v, k.ind - (k.ne - k.ns), Exchanged(argv, k.ns, k.ne, k.ind)))
  {
    var v := Layout(k, argv);
    if k.ne != -1 {
      assert Exchanged(argv, k.ns, k.ne, k.ind) == v.consumed + (v.skipped + v.rest);
    } else {
      assert argv == v.consumed + (v.skipped + v.rest);
    }
  }

  lemma TerminatorTaken(k: Cursor, argv: seq<string>)
    requires ValidLayout(k, |argv|) && k.ind < |argv| && k.place == "" && (k.ns != -1 ==> k.ne != -1)
    ensures var v := Layout(k, argv).Take(0);
      && (k.ne == -1 ==> Arranged(v, k.ind + 1, argv))
      && (k.ne != -1 ==> Arranged(v, k.ind + 1 - (k.ne - k.ns), Exchanged(argv, k.ns, k.ne, k.ind + 1)))
  {
    WordsTaken(k, argv, 0);
    SkippedMoveBack(k.(ind := k.ind + 1), argv);
  }

  /** Before the first call nothing but the program's name has been read. */
  lemma FirstOutcome(argv: seq<string>, mode: Mode, options: string)
    ensures var o := Outcome(Layout(Cursor(1, "", -1, -1), argv), mode, options);
      if argv == [] then o == Parse([], [], [])
      else var p := ParseArgs(argv[1..], mode, options);
           o == Parse(p.events, argv[..1] + p.consumed, p.operands)
  {
  }

  // ----- the program

  class Scanner {
    var optind: nat
    var optopt: char
    var optreset: bool
    var optarg: Option<string>
    var place: string
    var nonopt_start: int
    var nonopt_end: int
    /** IS_POSIXLY_CORRECT */
    const posixlyCorrect: bool

    constructor (posixlyCorrect: bool)
      ensures optind == 1 && !optreset && place == "" && nonopt_start == nonopt_end == -1
      ensures this.posixlyCorrect == posixlyCorrect
    {
      this.posixlyCorrect := posixlyCorrect;
      optind, optopt, optreset, optarg := 1, '?', false, None;
      place, nonopt_start, nonopt_end := "", -1, -1;
    }

    function ModeFor(options: string): Mode {
      ModeOf(posixlyCorrect, options)
    }

    /** The variables as the next call will take them. */
    function Cur(): Cursor
      reads this
    {
      var ind := if optind == 0 then 1 else optind;
      if optreset then Cursor(ind, "", -1, -1) else Cursor(ind, place, nonopt_start, nonopt_end)
    }

    ghost predicate Valid(nargv: array<string>)
      reads this
    {
      ValidCursor(Cur(), nargv.Length)
    }

    ghost function Now(nargv: array<string>): (v: View)
      requires Valid(nargv)
      reads this, nargv
      ensures v.Valid()
    {
      Layout(Cur(), nargv[..])
    }

    /** With optreset the next call starts afresh at optind, or at 1. */
    lemma ResetStartsAfresh(nargv: array<string>)
      requires optreset
      ensures Valid(nargv)
      ensures var ind := if optind == 0 then 1 else optind;
        Now(nargv) == if ind <= nargv.Length then View(nargv[..ind], [], "", nargv[ind..])
                      else View(nargv[..], [], "", [])
    {
    }

    /** This call, as a function. */
    ghost function Due(nargv: array<string>, options: string): Call
      requires Valid(nargv)
      reads this, nargv
    {
      CallOnce(Now(nargv), ModeFor(options), options, optopt)
    }

    /** The call c has happened: it has set the variables and, at the end, arranged argv. */
    ghost predicate Done(c: Call, ret: Ret, nargv: array<string>)
      reads this, nargv
    {
      && Report(ret, optarg, optopt) == c.report
      && if ret == Finished then Arranged(c.view, optind, nargv[..])
         else Valid(nargv) && Now(nargv) == c.view
    }

    /** `getopt_internal` has met a terminator, the word at optind; the caller of
        `getopt_internal` completes the call c. */
    ghost predicate AtTerminator(c: Call, nargv: array<string>)
      reads this, nargv
    {
      && Report(Finished, optarg, optopt) == c.report
      && var k := Cursor(optind, "", nonopt_start, nonopt_end);
         && ValidLayout(k, nargv.Length) && k.ind < nargv.Length && (k.ns != -1 ==> k.ne != -1)
         && c.view == Layout(k, nargv[..]).Take(0)
    }

    /** The body of the loop below: an operand is passed, and the options taken since the last
        operands are moved before those. */
    method SkipOperand(nargv: array<string>, ghost mode: Mode)
      requires Valid(nargv) && place == "" && !optreset && 0 < optind < nargv.Length
      requires mode == Permute && !IsOption(nargv[optind])
      modifies `optind, `nonopt_start, `nonopt_end, nargv
      ensures optind == old(optind) + 1 && Valid(nargv)
      ensures SkipOperands(Now(nargv), mode) == old(SkipOperands(Now(nargv), mode))
    {
      ghost var k, argv := Cur(), nargv[..];
      assert Now(nargv).rest[0] == nargv[optind];
      if nonopt_start == -1 {
        nonopt_start := optind;
      } else if nonopt_end != -1 {
        PermuteArgs(nonopt_start, nonopt_end, optind, nargv);
        nonopt_start := optind - (nonopt_end - nonopt_start);
        nonopt_end := -1;
      }
      optind := optind + 1;
      SkipWord(k, argv, Cur(), nargv[..]);
    }

    /** The part of `getopt_internal` that skips operands to be permuted. */
    method SkipToOption(nargv: array<string>, options: string)
      requires Valid(nargv) && place == "" && !optreset && optind > 0
      modifies `optind, `nonopt_start, `nonopt_end, nargv
      ensures optind > 0 && Valid(nargv)
      ensures Now(nargv) == old(SkipOperands(Now(nargv), ModeFor(options)))
      ensures ModeFor(options) != Permute || optind >= nargv.Length || IsOption(nargv[optind])
      ensures optind > nargv.Length ==> optind == old(optind)
      ensures ModeFor(options) != Permute ==> nonopt_start == old(nonopt_start)
    {
      ghost var mode, v0 := ModeFor(options), Now(nargv);
      while ModeFor(options) == Permute && optind < nargv.Length && !IsOption(nargv[optind])
        invariant optind > 0 && Valid(nargv) && place == ""
        invariant SkipOperands(Now(nargv), mode) == SkipOperands(v0, mode)
        invariant optind > nargv.Length ==> optind == old(optind)
        invariant ModeFor(options) != Permute ==> nonopt_start == old(nonopt_start)
        decreases nargv.Length - optind
      {
        SkipOperand(nargv, mode);
      }
      assert optind < nargv.Length ==> Now(nargv).rest[0] == nargv[optind];
    }

    /** The part of `getopt_internal` for a letter without an argument: `place` is already
        past the letter. */
    method PassLetter(nargv: array<string>, ghost k: Cursor)
      requires ValidCursor(k, nargv.Length) && k.place != ""
      requires Cur() == k.(place := k.place[1..]) && !optreset && optind > 0
      modifies `optind
      ensures 0 < optind <= nargv.Length && Valid(nargv)
      ensures var v := Layout(k, nargv[..]);
        Now(nargv) == if k.place[1..] == "" then v.Take(0) else v.(place := k.place[1..])
    {
      WordsTaken(k, nargv[..], 0);
      if place == "" {
        optind := optind + 1;
        assert Cur() == k.(place := "", ind := k.ind + 1);
      }
    }

    /** The part of `getopt_internal` for a letter with an argument. */
    method TakeArgument(nargv: array<string>, options: string, optchar: char, optional: bool, ghost k: Cursor)
      returns (ret: Ret)
      requires ValidCursor(k, nargv.Length) && k.place != "" && k.place[0] == optchar
      requires KindOf(optchar, options) == if optional then OptionalArg else RequiredArg
      requires Cur() == k.(place := k.place[1..]) && !optreset && optind > 0
      modifies this
      ensures Done(old(TakeLetter(Layout(k, nargv[..]), options, optopt)), ret, nargv)
      ensures ret != Finished && ret != Dashes && !optreset && optind <= nargv.Length
    {
      optarg := None;
      if place == "" && !optional {
        ret := TakeNextWord(nargv, options, optchar, k);
      } else {
        WordsTaken(k, nargv[..], 0);
        if place != "" {
          optarg := Some(place);
        }
        place := "";
        optind := optind + 1;
        assert Cur() == k.(place := "", ind := k.ind + 1);
        ret := Letter(optchar);
      }
    }

    /** The part of `getopt_internal` for a missing argument: there is no next word. */
    method ArgumentMissing(nargv: array<string>, options: string, optchar: char, ghost k: Cursor) returns (ret: Ret)
      requires ValidCursor(k, nargv.Length) && k.place == [optchar] && k.ind + 1 >= nargv.Length
      requires KindOf(optchar, options) == RequiredArg || (optchar == 'W' && KindOf(optchar, options) == LongPrefix)
      requires Cur() == k.(place := "", ind := k.ind + 1) && !optreset && optind > 0 && optarg == None
      modifies `place, `optopt
      ensures Done(old(TakeLetter(Layout(k, nargv[..]), options, optopt)), ret, nargv)
      ensures ret != Finished && ret != Dashes
    {
      assert |Layout(k, nargv[..]).rest| == 1;
      WordsTaken(k, nargv[..], 0);
      place := "";
      optopt := optchar;
      assert Cur() == k.(place := "", ind := k.ind + 1);
      return BadArg(BadArgCode(options));
    }

    /** The part of `getopt_internal` for an argument in the next word. */
    method TakeNextWord(nargv: array<string>, options: string, optchar: char, ghost k: Cursor) returns (ret: Ret)
      requires ValidCursor(k, nargv.Length) && k.place == [optchar]
      requires KindOf(optchar, options) == RequiredArg
      requires Cur() == k.(place := "") && !optreset && optind > 0 && optarg == None
      modifies this
      ensures Done(old(TakeLetter(Layout(k, nargv[..]), options, optopt)), ret, nargv)
      ensures ret != Finished && ret != Dashes && !optreset && optind <= nargv.Length
    {
      optind := optind + 1;
      if optind >= nargv.Length {
        ret := ArgumentMissing(nargv, options, optchar, k);
        return;
      }
      ArgumentWord(k, nargv[..]);
      optarg := Some(nargv[optind]);
      place := "";
      optind := optind + 1;
      assert Cur() == k.(place := "", ind := k.ind + 2);
      return Letter(optchar);
    }

    /** The part of `getopt_internal` for -W followed by ';' in the option string. */
    method TakeLongPrefix(nargv: array<string>, options: string, ghost k: Cursor) returns (ret: Ret)
      requires ValidCursor(k, nargv.Length) && k.place != "" && k.place[0] == 'W'
      requires KindOf('W', options) == LongPrefix
      requires Cur() == k.(place := k.place[1..]) && !optreset && optind > 0 && optarg == None
      modifies this
      ensures var c := old(TakeLetter(Layout(k, nargv[..]), options, optopt));
        if ret == Dashes then AtTerminator(c, nargv) else Done(c, ret, nargv)
      ensures ret != Finished && !optreset && optind <= nargv.Length
    {
      if place != "" {
        LongWordHere(k, nargv[..]);
        return Dashes;
      }
      optind := optind + 1;
      if optind >= nargv.Length {
        ret := ArgumentMissing(nargv, options, 'W', k);
        return;
      }
      place := nargv[optind];
      LongWordNext(k, nargv[..]);
      return Dashes;
    }

    /** The part of `getopt_internal` that takes the next letter of the current word. */
    method NextLetter(nargv: array<string>, options: string) returns (ret: Ret)
      requires Valid(nargv) && place != "" && !optreset && optind > 0 && optarg == None
      modifies this
      ensures var c := old(TakeLetter(Now(nargv), options, optopt));
        if ret == Dashes then AtTerminator(c, nargv) else Done(c, ret, nargv)
      ensures ret != Finished && !optreset && optind <= nargv.Length
    {
      ghost var k := Cur();
      var optchar := place[0];
      place := place[1..];
      match KindOf(optchar, options) {
        case Unknown =>
          PassLetter(nargv, k);
          optopt := optchar;
          ret := BadCh;
        case LongPrefix =>
          ret := TakeLongPrefix(nargv, options, k);
        case Flag =>
          PassLetter(nargv, k);
          ret := Letter(optchar);
        case kind =>
          ret := TakeArgument(nargv, options, optchar, kind == OptionalArg, k);
      }
    }

    /** The part of `getopt_internal` for the end of the argument vector. */
    method FinishScan(nargv: array<string>)
      requires Valid(nargv) && place == "" && !optreset && 0 < optind && nargv.Length <= optind
      modifies `optind, `nonopt_start, `nonopt_end, nargv
      ensures Arranged(old(Now(nargv)), optind, nargv[..])
      ensures optind > nargv.Length ==> optind == old(optind)
      ensures nonopt_start == nonopt_end == -1
    {
      SkippedMoveBack(Cur(), nargv[..]);
      if nonopt_end != -1 {
        PermuteArgs(nonopt_start, nonopt_end, optind, nargv);
        optind := optind - (nonopt_end - nonopt_start);
      } else if nonopt_start != -1 {
        optind := nonopt_start;
      }
      nonopt_start, nonopt_end := -1, -1;
    }

    /** The part of `getopt_internal` that starts at a new word. */
    method NextWord(nargv: array<string>, options: string) returns (ret: Ret)
      requires Valid(nargv) && place == "" && !optreset && optind > 0 && optarg == None
      requires nonopt_start != -1 ==> ModeFor(options) == Permute
      modifies this, nargv
      ensures var c := old(CallOnce(Now(nargv), ModeFor(options), options, optopt));
        if ret == Dashes then AtTerminator(c, nargv) else Done(c, ret, nargv)
      ensures optind <= nargv.Length || (ret == Finished && optind == old(optind))
    {
      SkipToOption(nargv, options);
      ghost var k, v := Cur(), Now(nargv);
      if optind >= nargv.Length {
        FinishScan(nargv);
        return Finished;
      }
      assert v.rest[0] == nargv[optind];
      if IsOption(nargv[optind]) {
        ret := OpenWord(nargv, options);
      } else {
        ret := StopOrReport(nargv, options);
      }
    }

    /** The part of `getopt_internal` for a word of options. */
    method OpenWord(nargv: array<string>, options: string) returns (ret: Ret)
      requires Valid(nargv) && place == "" && !optreset && 0 < optind < nargv.Length && optarg == None
      requires IsOption(nargv[optind])
      modifies this
      ensures var c := old(StartWord(Now(nargv), ModeFor(options), options, optopt));
        if ret == Dashes then AtTerminator(c, nargv) else Done(c, ret, nargv)
      ensures ret != Finished && optind <= nargv.Length
    {
      ghost var k, v := Cur(), Now(nargv);
      assert v.rest[0] == nargv[optind];
      RunEnds(k, nargv[..], nargv[optind][1..]);
      if nonopt_start != -1 && nonopt_end == -1 {
        nonopt_end := optind;
      }
      place := nargv[optind][1..];
      assert Now(nargv) == v.(place := v.rest[0][1..]);
      if place[0] == '-' {
        place := place[1..];
        assert v.Take(0) == Layout(Cursor(optind, "", nonopt_start, nonopt_end), nargv[..]).Take(0);
        return Dashes;
      }
      ret := NextLetter(nargv, options);
    }

    /** The part of `getopt_internal` for an operand that is not to be permuted. */
    method StopOrReport(nargv: array<string>, options: string) returns (ret: Ret)
      requires Valid(nargv) && place == "" && !optreset && 0 < optind < nargv.Length && optarg == None
      requires ModeFor(options) != Permute && !IsOption(nargv[optind])
      requires nonopt_start == -1
      modifies `optarg, `optind
      ensures Done(old(StartWord(Now(nargv), ModeFor(options), options, optopt)), ret, nargv)
      ensures ret != Dashes && optind <= nargv.Length
    {
      ghost var k, v := Cur(), Now(nargv);
      assert v.rest[0] == nargv[optind];
      if ModeFor(options) == InOrder {
        WordsTaken(k, nargv[..], 0);
        optarg := Some(nargv[optind]);
        optind := optind + 1;
        assert Cur() == k.(place := "", ind := k.ind + 1);
        return InOrderArg;
      }
      SkippedMoveBack(k, nargv[..]);
      return Finished;
    }

    /** Operands have been skipped only under an option string that lets them be permuted. */
    ghost predicate Consistent(nargv: array<string>, options: string)
      reads this, nargv
    {
      Valid(nargv) && (Now(nargv).skipped != [] ==> ModeFor(options) == Permute)
    }

    /** The part of `getopt_internal` that honours optreset and optind == 0. */
    method Prepare(nargv: array<string>)
      requires Valid(nargv)
      modifies this
      ensures !optreset && optind > 0 && optarg == None && optopt == old(optopt)
      ensures Cur() == old(Cur()) == Cursor(optind, place, nonopt_start, nonopt_end)
    {
      optarg := None;
      if optind == 0 {
        optind := 1;
      }
      if optreset {
        nonopt_start, nonopt_end := -1, -1;
        place := "";
        optreset := false;
      }
    }

    method GetOptInternal(nargv: array<string>, options: string) returns (ret: Ret)
      requires Consistent(nargv, options)
      modifies this, nargv
      ensures var c := old(Due(nargv, options));
        if ret == Dashes then AtTerminator(c, nargv) else Done(c, ret, nargv)
      ensures optind <= nargv.Length || (ret == Finished && optind == old(Cur().ind))
    {
      Prepare(nargv);
      assert Now(nargv) == old(Now(nargv));
      if place == "" {
        ret := NextWord(nargv, options);
      } else {
        ret := NextLetter(nargv, options);
      }
    }

    /** What `getopt` does when `getopt_internal` returns -2. */
    method PassTerminator(nargv: array<string>, ghost c: Call)
      requires AtTerminator(c, nargv)
      modifies `optind, `nonopt_start, `nonopt_end, nargv
      ensures Done(c, Finished, nargv) && optind <= nargv.Length && nonopt_start == nonopt_end == -1
    {
      ghost var argv := nargv[..];
      TerminatorTaken(Cursor(optind, "", nonopt_start, nonopt_end), argv);
      optind := optind + 1;
      if nonopt_end != -1 {
        PermuteArgs(nonopt_start, nonopt_end, optind, nargv);
        optind := optind - (nonopt_end - nonopt_start);
      }
      nonopt_start, nonopt_end := -1, -1;
    }

    /** `getopt`: one call, at the end of which argv is permuted. */
    method GetOpt(nargv: array<string>, options: string) returns (ret: Ret)
      requires Consistent(nargv, options)
      modifies this, nargv
      ensures Done(old(Due(nargv, options)), ret, nargv)
      ensures optind <= nargv.Length || (ret == Finished && optind == old(Cur().ind))
    {
      ghost var c := Due(nargv, options);
      ret := GetOptInternal(nargv, options);
      if ret == Dashes {
        PassTerminator(nargv, c);
        ret := Finished;
      }
    }

    /** The same call against what is still to be read: it reports the first event and leaves
        exactly the others, or returns -1 with argv and optind as the reading says. */
    method NextOption(nargv: array<string>, options: string) returns (ret: Ret, ghost c: Call)
      requires Consistent(nargv, options)
      modifies this, nargv
      ensures Meets(old(Outcome(Now(nargv), ModeFor(options), options)), c, ModeFor(options), options)
      ensures Done(c, ret, nargv) && (ret != Finished ==> Consistent(nargv, options))
      ensures optind <= nargv.Length || (ret == Finished && optind == old(Cur().ind))
    {
      c := Due(nargv, options);
      CallMeetsOutcome(Now(nargv), ModeFor(options), options, optopt);
      NothingSkipped(Now(nargv), ModeFor(options), options, optopt);
      ret := GetOpt(nargv, options);
    }

    /** A caller's loop: call `getopt` until it returns -1. */
    method GetAll(nargv: array<string>, options: string) returns (events: seq<Event>)
      requires optind == 1 && !optreset && place == "" && nonopt_start == nonopt_end == -1
      modifies this, nargv
      ensures nargv.Length > 0 ==>
        var p := old(ParseArgs(nargv[1..], ModeFor(options), options));
        && events == p.events
        && nargv[..] == old(nargv[..1]) + p.consumed + p.operands
        && optind == 1 + |p.consumed|
      ensures nargv.Length == 0 ==> events == []
    {
      ghost var mode, p := ModeFor(options), Outcome(Now(nargv), ModeFor(options), options);
      ghost var o := p;
      FirstOutcome(nargv[..], mode, options);
      events := [];
      while true
        invariant Consistent(nargv, options) && p == Outcome(Now(nargv), mode, options)
        invariant o == p.(events := events + p.events)
        invariant Cur().ind <= nargv.Length || Cur().ind == 1
        decreases |p.events|
      {
        var ret, c := NextOption(nargv, options);
        CallsMeet(o, events, p, c, mode, options);
        if ret == Finished {
          break;
        }
        assert Report(ret, optarg, optopt) == c.report;
        events := events + [Report(ret, optarg, optopt).Event()];
        p := Outcome(Now(nargv), mode, options);
      }
    }
  }
}
