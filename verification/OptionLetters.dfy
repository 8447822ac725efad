/** getopt.c, the option string: what its letters, the characters behind them and its first
    characters mean for the reading of the arguments. */
module OptionLetters {
  import opened Common
  import opened OptionSyntax
  import opened GetOptCall

  /** An option string in two parts: '+', '-' or nothing, and the letters. */
  ghost predicate Splits(lead: string, letters: string) {
    lead == "+" || lead == "-" || (lead == "" && (letters == "" || (letters[0] != '+' && letters[0] != '-')))
  }

  lemma FirstIsIgnored(lead: string, letters: string)
    requires Splits(lead, letters)
    ensures IgnoreFirst(lead + letters) <==> |lead| == 1
  {
    if lead == "" {
      assert lead + letters == letters;
    }
  }

  /** Where a letter is found in the option string, and what follows it. */
  lemma LetterAt(lead: string, pre: string, c: char, post: string, options: string)
    requires options == lead + (pre + [c] + post) && c !in pre
    ensures FindChar(options, |lead|, c) == Some(|lead| + |pre|)
    ensures CharAt(options, |lead| + |pre| + 1, ';') <==> post != "" && post[0] == ';'
    ensures CharAt(options, |lead| + |pre| + 1, ':') <==> post != "" && post[0] == ':'
    ensures CharAt(options, |lead| + |pre| + 2, ':') <==> |post| > 1 && post[1] == ':'
  {
    var k := |lead| + |pre|;
    assert options[k] == c;
    assert forall j :: |lead| <= j < k ==> options[j] == pre[j - |lead|];
    assert forall j :: k < j < |options| ==> options[j] == post[j - k - 1];
    FindCharIsFirst(options, |lead|, c);
  }

  lemma KindOfLetter(lead: string, pre: string, c: char, post: string, options: string)
    requires options == lead + (pre + [c] + post) && Splits(lead, pre + [c] + post) && c !in pre && c != ':'
    ensures KindOf(c, options) ==
      if c == 'W' && post != "" && post[0] == ';' then LongPrefix
      else if post == "" || post[0] != ':' then Flag
      else if |post| == 1 || post[1] != ':' then RequiredArg
      else OptionalArg
  {
    FirstIsIgnored(lead, pre + [c] + post);
    LetterAt(lead, pre, c, post, options);
  }

  /** A letter in front of "::" takes the rest of its word, and never another word. */
  lemma TwoColons(lead: string, pre: string, c: char, post: string, rest: string, args: seq<string>, mode: Mode)
    requires Splits(lead, pre + [c] + ("::" + post)) && c !in pre && c != ':'
    ensures var options := lead + (pre + [c] + ("::" + post));
      var r := ParseArgs(args, mode, options);
      ParseWord([c] + rest, args, mode, options)
      == Parse([Opt(c, if rest == "" then None else Some(rest))] + r.events, r.consumed, r.operands)
  {
    KindOfLetter(lead, pre, c, "::" + post, lead + (pre + [c] + ("::" + post)));
    assert ([c] + rest)[1..] == rest;
  }

  /** A letter in front of one ":" takes the rest of its word, or the next word, or lacks its
      argument. */
  lemma OneColon(lead: string, pre: string, c: char, post: string, rest: string, args: seq<string>, mode: Mode)
    requires Splits(lead, pre + [c] + (":" + post)) && c !in pre && c != ':'
    requires post == "" || post[0] != ':'
    ensures var options := lead + (pre + [c] + (":" + post));
      ParseWord([c] + rest, args, mode, options)
      == if rest != "" then
           var r := ParseArgs(args, mode, options);
           Parse([Opt(c, Some(rest))] + r.events, r.consumed, r.operands)
         else if args == [] then Parse([MissingArgument(c)], [], [])
         else
           var r := ParseArgs(args[1..], mode, options);
           Parse([Opt(c, Some(args[0]))] + r.events, [args[0]] + r.consumed, r.operands)
  {
    KindOfLetter(lead, pre, c, ":" + post, lead + (pre + [c] + (":" + post)));
    assert ([c] + rest)[1..] == rest;
  }

  /** How the reading goes on behind a letter that takes no argument. */
  function Further(rest: string, args: seq<string>, mode: Mode, options: string): Parse {
    if rest == "" then ParseArgs(args, mode, options) else ParseWord(rest, args, mode, options)
  }

  /** Any other letter of the option string takes no argument: the word goes on behind it. */
  lemma NoColon(lead: string, pre: string, c: char, post: string, rest: string, args: seq<string>, mode: Mode)
    requires Splits(lead, pre + [c] + post) && c !in pre && c != ':'
    requires post == "" || (post[0] != ':' && !(c == 'W' && post[0] == ';'))
    ensures var options := lead + (pre + [c] + post);
      var r := Further(rest, args, mode, options);
      ParseWord([c] + rest, args, mode, options) == Parse([Opt(c, None)] + r.events, r.consumed, r.operands)
  {
    KindOfLetter(lead, pre, c, post, lead + (pre + [c] + post));
    assert ([c] + rest)[1..] == rest;
  }

  /** A letter that is not in the option string, and ':', is unknown: the word goes on behind it. */
  lemma NotListed(lead: string, letters: string, c: char, rest: string, args: seq<string>, mode: Mode)
    requires Splits(lead, letters) && (c !in letters || c == ':')
    ensures var options := lead + letters;
      var r := Further(rest, args, mode, options);
      ParseWord([c] + rest, args, mode, options) == Parse([UnknownLetter(c)] + r.events, r.consumed, r.operands)
  {
    var options := lead + letters;
    FirstIsIgnored(lead, letters);
    FindCharIsFirst(options, |lead|, c);
    assert forall j :: |lead| <= j < |options| ==> options[j] == letters[j - |lead|];
    assert ([c] + rest)[1..] == rest;
  }

  /** 'W' in front of ';' ends the reading: with the rest of its word, or with the next word. */
  lemma LongOption(lead: string, pre: string, post: string, rest: string, args: seq<string>, mode: Mode)
    requires Splits(lead, pre + "W" + (";" + post)) && 'W' !in pre
    ensures ParseWord("W" + rest, args, mode, lead + (pre + "W" + (";" + post)))
      == if rest != "" then Parse([], [], args)
         else if args == [] then Parse([MissingArgument('W')], [], [])
         else Parse([], [args[0]], args[1..])
  {
    KindOfLetter(lead, pre, 'W', ";" + post, lead + (pre + "W" + (";" + post)));
    assert ("W" + rest)[1..] == rest;
  }

  // ----- words

  /** A word of options is consumed; a word that begins with "--" is, and ends the reading. */
  lemma OptionWord(place: string, args: seq<string>, mode: Mode, options: string)
    requires place != ""
    ensures ParseArgs(["-" + place] + args, mode, options)
      == if place[0] == '-' then Parse([], ["-" + place], args)
         else
           var r := ParseWord(place, args, mode, options);
           Parse(r.events, ["-" + place] + r.consumed, r.operands)
  {
    var w := "-" + place;
    assert w[1..] == place && ([w] + args)[1..] == args;
  }

  /** Any other word is an operand, "-" and the empty word included. With a '+' at the beginning
      of the option string it ends the reading, with a '-' it is reported, else it is moved. */
  lemma OperandWord(w: string, args: seq<string>, posixlyCorrect: bool, lead: string, letters: string)
    requires (|w| < 2 || w[0] != '-') && Splits(lead, letters)
    ensures var options := lead + letters;
      var mode := ModeOf(posixlyCorrect, options);
      var r := ParseArgs(args, mode, options);
      ParseArgs([w] + args, mode, options)
      == if posixlyCorrect || lead == "+" then Parse([], [], [w] + args)
         else if lead == "-" then Parse([NonOption(w)] + r.events, [w] + r.consumed, r.operands)
         else Parse(r.events, r.consumed, [w] + r.operands)
  {
    FirstIsIgnored(lead, letters);
    assert ([w] + args)[1..] == args;
  }

  // ----- what the calls report besides

  lemma MissingHasCode(v: View, mode: Mode, options: string, optopt: char)
    requires v.Valid()
    ensures var r := CallOnce(v, mode, options, optopt).report.ret;
      r.BadArg? ==> r.code == BadArgCode(options)
  {
  }

  lemma CodeIsColon(lead: string, letters: string)
    requires Splits(lead, letters)
    ensures BadArgCode(lead + letters) == if letters != "" && letters[0] == ':' then ':' else '?'
  {
    FirstIsIgnored(lead, letters);
    if lead == "" {
      assert lead + letters == letters;
    }
  }

  /** A missing argument is reported by ':' exactly if the letters begin with ':'. */
  lemma CodeOfMissing(v: View, mode: Mode, lead: string, letters: string, optopt: char)
    requires v.Valid() && Splits(lead, letters)
    ensures var r := CallOnce(v, mode, lead + letters, optopt).report.ret;
      r.BadArg? ==> r.code == if letters != "" && letters[0] == ':' then ':' else '?'
  {
    CodeIsColon(lead, letters);
    MissingHasCode(v, mode, lead + letters, optopt);
  }

  /** optarg is set for arguments and reported words only, and optopt for errors only. */
  lemma VariablesOfCall(v: View, mode: Mode, options: string, optopt: char)
    requires v.Valid()
    ensures var r := CallOnce(v, mode, options, optopt).report;
      && (r.ret.BadCh? || r.ret.BadArg? || r.ret.Finished? ==> r.optarg == None)
      && (r.ret.Letter? || r.ret.InOrderArg? || r.ret.Finished? ==> r.optopt == optopt)
  {
  }
}
