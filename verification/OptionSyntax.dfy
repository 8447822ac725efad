/** What `getopt` is meant to find in an argument list, written without the scanner's
    state: a left-to-right reading that reports one event per option letter and divides
    the words into consumed ones (options, their arguments and a terminator) and operands. */
module OptionSyntax {
  import opened Common

  /** How words that are not options are treated. */
  datatype Mode = Permute | InOrder | StopAtFirst

  datatype Kind = Unknown | Flag | RequiredArg | OptionalArg | LongPrefix

  datatype Event =
    | Opt(letter: char, arg: Option<string>)
    | UnknownLetter(letter: char)
    | MissingArgument(letter: char)
    | NonOption(word: string)

  datatype Parse = Parse(events: seq<Event>, consumed: seq<string>, operands: seq<string>) {
    function Reporting(e: Event): Parse { this.(events := [e] + events) }
    function Consuming(w: string): Parse { this.(consumed := [w] + consumed) }
    function Skipping(w: string): Parse { this.(operands := [w] + operands) }

    /** The text ran out where an option still needed its argument. */
    ghost predicate LacksArgument() {
      events != [] && events[|events| - 1].MissingArgument?
    }
  }

  /** IGNORE_FIRST */
  predicate IgnoreFirst(options: string) {
    options != "" && (options[0] == '-' || options[0] == '+')
  }

  function ModeOf(posixlyCorrect: bool, options: string): Mode {
    if posixlyCorrect then StopAtFirst
    else if !IgnoreFirst(options) then Permute
    else if options[0] == '-' then InOrder
    else StopAtFirst
  }

  /** strchr from position `from`. */
  function FindChar(s: string, from: nat, c: char): (r: Option<nat>)
    requires from <= |s|
    ensures r.Some? ==> from <= r.value < |s|
    decreases |s| - from
  {
    if from == |s| then None
    else if s[from] == c then Some(from)
    else FindChar(s, from + 1, c)
  }

  lemma {:induction false} FindCharIsFirst(s: string, from: nat, c: char)
    requires from <= |s|
    ensures match FindChar(s, from, c)
      case Some(i) => s[i] == c && forall j :: from <= j < i ==> s[j] != c
      case None => forall j :: from <= j < |s| ==> s[j] != c
    decreases |s| - from
  {
    if from < |s| && s[from] != c {
      FindCharIsFirst(s, from + 1, c);
    }
  }

  predicate CharAt(s: string, i: nat, c: char) {
    i < |s| && s[i] == c
  }

  function KindOf(c: char, options: string): Kind {
    if c == ':' then Unknown
    else match FindChar(options, if IgnoreFirst(options) then 1 else 0, c)
      case None => Unknown
      case Some(k) =>
        if c == 'W' && CharAt(options, k + 1, ';') then LongPrefix
        else if !CharAt(options, k + 1, ':') then Flag
        else if !CharAt(options, k + 2, ':') then RequiredArg
        else OptionalArg
  }

  predicate IsOption(w: string) {
    |w| >= 2 && w[0] == '-'
  }

  function ParseArgs(args: seq<string>, mode: Mode, options: string): Parse
    decreases |args|, 0, 0
  {
    if args == [] then Parse([], [], [])
    else
      var w := args[0];
      if IsOption(w) then
        if w[1] == '-' then Parse([], [w], args[1..])
        else ParseWord(w[1..], args[1..], mode, options).Consuming(w)
      else match mode
        case Permute => ParseArgs(args[1..], mode, options).Skipping(w)
        case InOrder => ParseArgs(args[1..], mode, options).Consuming(w).Reporting(NonOption(w))
        case StopAtFirst => Parse([], [], args)
  }

  /** `place` is the unread rest of a word of option letters, `args` the words after it. */
  function ParseWord(place: string, args: seq<string>, mode: Mode, options: string): Parse
    requires place != ""
    decreases |args|, 1, |place|
  {
    var c, rest := place[0], place[1..];
    match KindOf(c, options)
    case Unknown =>
      (if rest == "" then ParseArgs(args, mode, options) else ParseWord(rest, args, mode, options))
      .Reporting(UnknownLetter(c))
    case Flag =>
      (if rest == "" then ParseArgs(args, mode, options) else ParseWord(rest, args, mode, options))
      .Reporting(Opt(c, None))
    case OptionalArg =>
      ParseArgs(args, mode, options).Reporting(Opt(c, if rest == "" then None else Some(rest)))
    case RequiredArg =>
      if rest != "" then ParseArgs(args, mode, options).Reporting(Opt(c, Some(rest)))
      else if args == [] then Parse([MissingArgument(c)], [], [])
      else ParseArgs(args[1..], mode, options).Consuming(args[0]).Reporting(Opt(c, Some(args[0])))
    case LongPrefix =>
      if rest != "" then Parse([], [], args)
      else if args == [] then Parse([MissingArgument(c)], [], [])
      else Parse([], [args[0]], args[1..])
  }

  // ----- the two groups are a stable partition of the arguments

  function Select(args: seq<string>, mask: seq<bool>, keep: bool): seq<string>
    requires |mask| == |args|
  {
    if args == [] then []
    else (if mask[0] == keep then [args[0]] else []) + Select(args[1..], mask[1..], keep)
  }

  /** a and b are the marked and the unmarked words of args, each in its original order. */
  ghost predicate IsStablePartition(args: seq<string>, a: seq<string>, b: seq<string>) {
    exists mask: seq<bool> :: |mask| == |args| && a == Select(args, mask, true) && b == Select(args, mask, false)
  }

  lemma PartitionCons(w: string, args: seq<string>, a: seq<string>, b: seq<string>)
    requires IsStablePartition(args, a, b)
    ensures IsStablePartition([w] + args, [w] + a, b)
    ensures IsStablePartition([w] + args, a, [w] + b)
  {
    var mask :| |mask| == |args| && a == Select(args, mask, true) && b == Select(args, mask, false);
    var t, f := [true] + mask, [false] + mask;
    assert ([w] + args)[1..] == args && t[1..] == mask && f[1..] == mask;
    assert [w] + a == Select([w] + args, t, true) && b == Select([w] + args, t, false);
    assert a == Select([w] + args, f, true) && [w] + b == Select([w] + args, f, false);
  }

  lemma PartitionFirst(args: seq<string>, a: seq<string>, b: seq<string>)
    requires args != [] && IsStablePartition(args[1..], a, b)
    ensures IsStablePartition(args, [args[0]] + a, b)
    ensures IsStablePartition(args, a, [args[0]] + b)
  {
    PartitionCons(args[0], args[1..], a, b);
    assert [args[0]] + args[1..] == args;
  }

  lemma {:induction false} AllUnmarked(args: seq<string>)
    ensures IsStablePartition(args, [], args)
  {
    if args == [] {
      assert Select(args, [], true) == [] == Select(args, [], false);
    } else {
      AllUnmarked(args[1..]);
      PartitionFirst(args, [], args[1..]);
      assert [args[0]] + args[1..] == args;
    }
  }

  /** Consumed words and operands are a stable partition of the arguments, in every mode
      and for every option string. */
  lemma {:induction false} ParseIsStablePartition(args: seq<string>, mode: Mode, options: string)
    ensures var p := ParseArgs(args, mode, options); IsStablePartition(args, p.consumed, p.operands)
    decreases |args|, 0, 0
  {
    if args == [] {
      AllUnmarked(args);
    } else {
      var w, tail := args[0], args[1..];
      if IsOption(w) && w[1] == '-' {
        AllUnmarked(tail);
        PartitionFirst(args, [], tail);
      } else if IsOption(w) {
        WordIsStablePartition(w[1..], tail, mode, options);
        var p := ParseWord(w[1..], tail, mode, options);
        PartitionFirst(args, p.consumed, p.operands);
      } else if mode == StopAtFirst {
        AllUnmarked(args);
      } else {
        ParseIsStablePartition(tail, mode, options);
        var p := ParseArgs(tail, mode, options);
        PartitionFirst(args, p.consumed, p.operands);
      }
    }
  }

  lemma {:induction false} WordIsStablePartition(place: string, args: seq<string>, mode: Mode, options: string)
    requires place != ""
    ensures var p := ParseWord(place, args, mode, options); IsStablePartition(args, p.consumed, p.operands)
    decreases |args|, 1, |place|
  {
    var c, rest := place[0], place[1..];
    match KindOf(c, options)
    case Unknown | Flag =>
      if rest == "" {
        ParseIsStablePartition(args, mode, options);
      } else {
        WordIsStablePartition(rest, args, mode, options);
      }
    case OptionalArg =>
      ParseIsStablePartition(args, mode, options);
    case RequiredArg =>
      if rest != "" {
        ParseIsStablePartition(args, mode, options);
      } else if args == [] {
        AllUnmarked(args);
      } else {
        ParseIsStablePartition(args[1..], mode, options);
        var p := ParseArgs(args[1..], mode, options);
        PartitionFirst(args, p.consumed, p.operands);
      }
    case LongPrefix =>
      AllUnmarked(args);
      if rest == "" && args != [] {
        AllUnmarked(args[1..]);
        PartitionFirst(args, [], args[1..]);
      }
  }

  // ----- reading the permuted arguments again

  /** Moving plain words behind the consumed ones does not change what is read, unless an
      option at the very end would now find an argument that it lacked. */
  lemma {:induction false} ReadsSamePermuted(args: seq<string>, ws: seq<string>, options: string)
    requires forall w :: w in ws ==> !IsOption(w)
    ensures var p := ParseArgs(args, Permute, options);
      SameReading(p, ParseArgs(p.consumed + (ws + p.operands), Permute, options), ws)
    decreases |args|, 0, 0
  {
    var p := ParseArgs(args, Permute, options);
    if args == [] {
      PlainWords(ws, options);
      assert p.consumed + (ws + p.operands) == ws == ws + p.operands;
    } else {
      var w, tail := args[0], args[1..];
      if IsOption(w) {
        assert (p.consumed + (ws + p.operands))[0] == w;
        if w[1] == '-' {
          assert (p.consumed + (ws + p.operands))[1..] == ws + p.operands;
        } else {
          var r := ParseWord(w[1..], tail, Permute, options);
          WordReadsSamePermuted(w[1..], tail, ws, options);
          assert (p.consumed + (ws + p.operands))[1..] == r.consumed + (ws + r.operands);
        }
      } else {
        var r := ParseArgs(tail, Permute, options);
        ReadsSamePermuted(tail, ws + [w], options);
        assert (ws + [w]) + r.operands == ws + p.operands;
      }
    }
  }

  lemma {:induction false} PlainWords(ws: seq<string>, options: string)
    requires forall w :: w in ws ==> !IsOption(w)
    ensures ParseArgs(ws, Permute, options) == Parse([], [], ws)
  {
    if ws != [] {
      PlainWords(ws[1..], options);
      assert [ws[0]] + ws[1..] == ws;
    }
  }

  /** p read the arguments first, q read them permuted, with ws moved behind. */
  ghost predicate SameReading(p: Parse, q: Parse, ws: seq<string>) {
    if p.LacksArgument() && ws + p.operands != [] then q.events != p.events
    else q == p.(operands := ws + p.operands)
  }

  lemma ReportingKeepsReading(p: Parse, q: Parse, ws: seq<string>, e: Event)
    requires SameReading(p, q, ws) && !e.MissingArgument?
    ensures SameReading(p.Reporting(e), q.Reporting(e), ws)
  {
    assert p.Reporting(e).events[1..] == p.events && q.Reporting(e).events[1..] == q.events;
  }

  lemma {:induction false} WordReadsSamePermuted(place: string, args: seq<string>, ws: seq<string>, options: string)
    requires place != "" && forall w :: w in ws ==> !IsOption(w)
    ensures var p := ParseWord(place, args, Permute, options);
      SameReading(p, ParseWord(place, p.consumed + (ws + p.operands), Permute, options), ws)
    decreases |args|, 1, |place|
  {
    var c, rest := place[0], place[1..];
    var kind := KindOf(c, options);
    if kind == LongPrefix || (kind == RequiredArg && rest == "") {
      LastLetterReadsSame(place, args, ws, options);
    } else if kind == OptionalArg || rest == "" || kind == RequiredArg {
      ReadsSamePermuted(args, ws, options);
      var r := ParseArgs(args, Permute, options);
      var r' := ParseArgs(r.consumed + (ws + r.operands), Permute, options);
      ReportingKeepsReading(r, r', ws, UnknownLetter(c));
      ReportingKeepsReading(r, r', ws, Opt(c, if rest == "" then None else Some(rest)));
    } else {
      WordReadsSamePermuted(rest, args, ws, options);
      var r := ParseWord(rest, args, Permute, options);
      var r' := ParseWord(rest, r.consumed + (ws + r.operands), Permute, options);
      ReportingKeepsReading(r, r', ws, if kind == Flag then Opt(c, None) else UnknownLetter(c));
    }
  }

  lemma {:induction false} LastLetterReadsSame(place: string, args: seq<string>, ws: seq<string>, options: string)
    requires place != "" && forall w :: w in ws ==> !IsOption(w)
    requires var kind := KindOf(place[0], options); kind == LongPrefix || (kind == RequiredArg && place[1..] == "")
    ensures var p := ParseWord(place, args, Permute, options);
      SameReading(p, ParseWord(place, p.consumed + (ws + p.operands), Permute, options), ws)
    decreases |args|, 1, |place|, 0
  {
    var p := ParseWord(place, args, Permute, options);
    var again := p.consumed + (ws + p.operands);
    if KindOf(place[0], options) == RequiredArg {
      if args != [] {
        ReadsSamePermuted(args[1..], ws, options);
        var r := ParseArgs(args[1..], Permute, options);
        var back := r.consumed + (ws + r.operands);
        assert again == [args[0]] + back;
        ReportingKeepsReading(r, ParseArgs(back, Permute, options), ws, Opt(place[0], Some(args[0])));
      }
    } else if place[1..] != "" {
      assert again == ws + p.operands;
    } else if args != [] {
      assert again == [args[0]] + (ws + p.operands);
    }
  }

  /** Permuting is idempotent exactly when no option at the end of the list lacks its
      argument while operands were moved behind it. */
  lemma PermutingIsIdempotent(args: seq<string>, options: string)
    ensures var p := ParseArgs(args, Permute, options);
      ParseArgs(p.consumed + p.operands, Permute, options) == p
      <==> !(p.LacksArgument() && p.operands != [])
  {
    var p := ParseArgs(args, Permute, options);
    ReadsSamePermuted(args, [], options);
    assert [] + p.operands == p.operands;
  }

  /** An option without its argument at the end finds one when the arguments are read again. */
  lemma RereadingMayDiffer()
    ensures ParseArgs(["x", "-a"], Permute, "a:") == Parse([MissingArgument('a')], ["-a"], ["x"])
    ensures ParseArgs(["-a", "x"], Permute, "a:") == Parse([Opt('a', Some("x"))], ["-a", "x"], [])
  {
    assert KindOf('a', "a:") == RequiredArg;
    assert "-a"[1..] == "a" && ["x", "-a"][1..] == ["-a"] && ["-a", "x"][1..] == ["x"];
  }
}
