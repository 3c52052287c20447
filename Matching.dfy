/** The declaration grammar run the way the PEG library runs it. The action
    attached to a rule fires as soon as that rule matches and is not undone
    when a later part of the enclosing rule fails or when ordered choice
    moves on; a repetition whose body matches without consuming input never
    returns. The rules are run over two sets of tables: the ones the grammar
    lists (`AsWritten`) and the corrected ones the recognizers of `Lexical`
    use (`Corrected`). */
module Matching {
  import opened Wrappers
  import opened Lexical
  import Grammar

  /** How a run of a rule ends: it matched up to `end`, it failed, or it
      never returns. */
  datatype Finish = Matched(end: nat) | Failed | Spins

  /** A run of a rule: how it ended, and the captures of the actions that
      fired on the way, in firing order. */
  datatype Attempt = Attempt(finish: Finish, fired: seq<Capture>)

  /** The two forms of `text`: the written one, whose `text_char` may match
      nothing; and the corrected one, one character per step, with "$end"
      right after the keyword's whitespace closing an empty body. */
  datatype TextForm = WrittenText | CorrectedText

  /** The time-number table, the var-type table and the text form a grammar
      is built from. */
  datatype Rules = Rules(numbers: seq<string>, types: seq<string>, text: TextForm)

  /** The grammar as `VCDLexical.hpp` writes it. */
  const AsWritten := Rules(TimeNumbersAsWritten, VarTypesAsWritten, WrittenText)
  /** The grammar with the three corrections. */
  const Corrected := Rules(TimeNumbers, VarTypes, CorrectedText)

  /** Every time number among the captures comes from the table `numbers`. */
  predicate NumbersFrom(numbers: seq<string>, caps: seq<Capture>) {
    forall k :: 0 <= k < |caps| && caps[k].TimeNumberText? ==> caps[k].text in numbers
  }

  lemma NumbersFromAppend(numbers: seq<string>, a: seq<Capture>, b: seq<Capture>)
    requires NumbersFrom(numbers, a) && NumbersFrom(numbers, b)
    ensures NumbersFrom(numbers, a + b)
  {
    forall k | 0 <= k < |a + b| && (a + b)[k].TimeNumberText?
      ensures (a + b)[k].text in numbers
    {
      if k >= |a| {
        assert (a + b)[k] == b[k - |a|];
      }
    }
  }

  // ---------------------------------------------------------------------
  // The written `text`

  /** Where the written `text` stops, if it does. Its steps go where the
      one-character steps of `Text` go, and it stops only where the closing
      lookahead matches; when `Text` halts at the end of the input or at a
      character that is not text instead, the next step matches nothing and
      the repetition goes on for ever. */
  function WrittenTextEnd(s: string, i: nat): (r: Option<nat>)
    requires i <= |s|
    ensures r.Some? ==> i <= r.value <= |s| && EndAhead(s, r.value)
  {
    var t := Text(s, i);
    if EndAhead(s, t) then Some(t) else None
  }

  /** `WrittenTextEnd` is the written repetition: where it stops, the
      repetition stops there within one step per character; where it does
      not, no number of steps makes the repetition stop. */
  lemma WrittenTextStops(s: string, i: nat)
    requires i <= |s|
    ensures WrittenTextEnd(s, i).Some? ==> TextAsWritten(s, i, |s| - i + 1) == WrittenTextEnd(s, i)
    ensures WrittenTextEnd(s, i).None? ==> forall fuel :: TextAsWritten(s, i, fuel) == None
  {
    if WrittenTextEnd(s, i).Some? {
      WrittenTextReached(s, i, |s| - i + 1);
    } else {
      forall fuel
        ensures TextAsWritten(s, i, fuel) == None
      {
        if TextAsWritten(s, i, fuel).Some? {
          Grammar.TextAsWrittenAgrees(s, i, fuel);
          TextAsWrittenStopsAhead(s, i, fuel);
        }
      }
    }
  }

  /** The written repetition stops only where the closing lookahead matches. */
  lemma {:induction false} TextAsWrittenStopsAhead(s: string, i: nat, fuel: nat)
    requires i <= |s| && TextAsWritten(s, i, fuel).Some?
    ensures EndAhead(s, TextAsWritten(s, i, fuel).value)
    decreases fuel
  {
    if !EndAhead(s, i) {
      TextAsWrittenStopsAhead(s, TextCharAsWritten(s, i), fuel - 1);
    }
  }

  /** When `Text` halts at a closing lookahead, the written repetition gets
      there too, given one step per remaining character. */
  lemma {:induction false} WrittenTextReached(s: string, i: nat, fuel: nat)
    requires i <= |s| && EndAhead(s, Text(s, i)) && fuel >= |s| - i + 1
    ensures TextAsWritten(s, i, fuel) == Some(Text(s, i))
    decreases |s| - i
  {
    if !EndAhead(s, i) {
      var c := TextCharAsWritten(s, i);
      if ' ' <= s[i] <= '~' {
        assert Text(s, i) == Text(s, i + 1);
        WrittenTextReached(s, i + 1, fuel - 1);
      } else {
        Grammar.TextOverRun(s, i);
        WrittenTextReached(s, c, fuel - 1);
      }
    }
  }

  // ---------------------------------------------------------------------
  // Commands

  /** The seven alternatives of `declaration_command`, in the grammar's order. */
  datatype Command = Comment | Date | Scope | Timescale | Upscope | Var | Version

  const Commands: seq<Command> := [Comment, Date, Scope, Timescale, Upscope, Var, Version]

  function Keyword(c: Command): string {
    match c
    case Comment => "$comment"
    case Date => "$date"
    case Scope => "$scope"
    case Timescale => "$timescale"
    case Upscope => "$upscope"
    case Var => "$var"
    case Version => "$version"
  }

  /** The capture of a text command's action. */
  function TextCapture(c: Command, t: string): Capture {
    match c
    case Comment => CommentText(t)
    case Date => DateText(t)
    case _ => VersionText(t)
  }

  /** `command_comment`, `command_date` and `command_version`: the keyword
      and whitespace, the text, whitespace and "$end". The text's action
      fires once `text` has matched, whether or not the closing follows. */
  function TextCommandRun(rules: Rules, c: Command, s: string, i: nat): (r: Attempt)
    requires i <= |s|
    ensures r.finish.Matched? ==> i < r.finish.end <= |s|
    ensures (r.finish.Failed? && r.fired == []) || At(s, i, Keyword(c))
    ensures rules.text == CorrectedText ==> !r.finish.Spins?
    ensures NumbersFrom(rules.numbers, r.fired)
  {
    match KeywordThenSpace(Keyword(c), s, i)
    case None => Attempt(Failed, [])
    case Some(a) =>
      if rules.text == WrittenText then
        match WrittenTextEnd(s, a)
        case None => Attempt(Spins, [])
        case Some(t) => Attempt(Matched(MandatorySpace(s, t).value + 4), [TextCapture(c, s[a..t])])
      else if KwEnd(s, a).Some? then Attempt(Matched(a + 4), [TextCapture(c, "")])
      else
        var t := Text(s, a);
        var fired := [TextCapture(c, s[a..t])];
        match SpaceThenEnd(s, t)
        case None => Attempt(Failed, fired)
        case Some(e) => Attempt(Matched(e), fired)
  }

  /** `command_scope`: the scope type's action fires once the type is read,
      the identifier's once the identifier is read, whatever follows. */
  function ScopeRun(s: string, i: nat): (r: Attempt)
    requires i <= |s|
    ensures r.finish.Matched? ==> i < r.finish.end <= |s|
    ensures (r.finish.Failed? && r.fired == []) || At(s, i, "$scope")
    ensures !r.finish.Spins? && NumbersFrom([], r.fired)
  {
    match KeywordThenSpace("$scope", s, i)
    case None => Attempt(Failed, [])
    case Some(a) =>
      match Choice(ScopeTypes, s, a)
      case None => Attempt(Failed, [])
      case Some(c) =>
        var kind := [ScopeTypeText(s[a..c])];
        match MandatorySpace(s, c)
        case None => Attempt(Failed, kind)
        case Some(d) =>
          match Identifier(s, d)
          case None => Attempt(Failed, kind)
          case Some(e) =>
            var both := kind + [ScopeIdentifierText(s[d..e])];
            match SpaceThenEnd(s, e)
            case None => Attempt(Failed, both)
            case Some(f) => Attempt(Matched(f), both)
  }

  /** `command_timescale` over the table `numbers`: the number's action
      fires once a number is read, the unit's once a unit is read, whatever
      follows. */
  function TimescaleRun(numbers: seq<string>, s: string, i: nat): (r: Attempt)
    requires i <= |s|
    ensures r.finish.Matched? ==> i < r.finish.end <= |s|
    ensures (r.finish.Failed? && r.fired == []) || At(s, i, "$timescale")
    ensures !r.finish.Spins? && NumbersFrom(numbers, r.fired)
  {
    match KeywordThenSpace("$timescale", s, i)
    case None => Attempt(Failed, [])
    case Some(a) =>
      match Choice(numbers, s, a)
      case None => Attempt(Failed, [])
      case Some(c) =>
        Grammar.ChoiceReadsAKeyword(numbers, s, a);
        var number := [TimeNumberText(s[a..c])];
        var d := Whitespaces(s, c);
        match Choice(TimeUnits, s, d)
        case None => Attempt(Failed, number)
        case Some(e) =>
          var both := number + [TimeUnitText(s[d..e])];
          match SpaceThenEnd(s, e)
          case None => Attempt(Failed, both)
          case Some(f) => Attempt(Matched(f), both)
  }

  /** One alternative of `declaration_command` under `rules`. `$upscope`
      fires its action only when the whole command has matched, and `$var`
      carries no action. */
  function CommandRun(rules: Rules, c: Command, s: string, i: nat): (r: Attempt)
    requires i <= |s|
    ensures r.finish.Matched? ==> i < r.finish.end <= |s|
    ensures (r.finish.Failed? && r.fired == []) || At(s, i, Keyword(c))
    ensures rules.text == CorrectedText ==> !r.finish.Spins?
    ensures NumbersFrom(rules.numbers, r.fired)
  {
    match c
    case Scope => ScopeRun(s, i)
    case Timescale => TimescaleRun(rules.numbers, s, i)
    case Upscope =>
      (match CommandUpscope(s, i)
       case None => Attempt(Failed, [])
       case Some(p) => Attempt(Matched(p.end), p.caps))
    case Var =>
      (match CommandVarWith(rules.types, s, i)
       case None => Attempt(Failed, [])
       case Some(p) => Attempt(Matched(p.end), []))
    case _ => TextCommandRun(rules, c, s, i)
  }

  /** Some command keyword starts at `i`. */
  predicate CommandAt(s: string, i: nat) {
    exists c: Command :: At(s, i, Keyword(c))
  }

  /** Ordered choice among commands: each alternative in turn until one
      does not fail. The captures fired by the alternatives that failed
      stay fired. */
  function FirstRun(rules: Rules, cs: seq<Command>, s: string, i: nat): (r: Attempt)
    requires i <= |s|
    ensures r.finish.Matched? ==> i < r.finish.end <= |s|
    ensures (r.finish.Failed? && r.fired == []) || CommandAt(s, i)
    ensures rules.text == CorrectedText ==> !r.finish.Spins?
    ensures NumbersFrom(rules.numbers, r.fired)
    decreases |cs|
  {
    if cs == [] then Attempt(Failed, [])
    else
      var a := CommandRun(rules, cs[0], s, i);
      if a.finish.Failed? then
        var rest := FirstRun(rules, cs[1..], s, i);
        NumbersFromAppend(rules.numbers, a.fired, rest.fired);
        Attempt(rest.finish, a.fired + rest.fired)
      else a
  }

  /** `declaration_command`. */
  function DeclarationCommandRun(rules: Rules, s: string, i: nat): (r: Attempt)
    requires i <= |s|
    ensures r.finish.Matched? ==> i < r.finish.end <= |s|
    ensures (r.finish.Failed? && r.fired == []) || CommandAt(s, i)
    ensures rules.text == CorrectedText ==> !r.finish.Spins?
    ensures NumbersFrom(rules.numbers, r.fired)
  {
    FirstRun(rules, Commands, s, i)
  }

  // ---------------------------------------------------------------------
  // Sections

  /** `header_section`: (whitespace, command, whitespace) groups for as
      long as they match. The repetition itself never fails: a group whose
      command fails ends it where the group started, but what the failed
      command fired stays fired. */
  function HeaderSectionRun(rules: Rules, s: string, i: nat): (r: Attempt)
    requires i <= |s|
    ensures r.finish.Matched? ==> i <= r.finish.end <= |s|
    ensures !r.finish.Failed?
    ensures rules.text == CorrectedText ==> !r.finish.Spins?
    ensures NumbersFrom(rules.numbers, r.fired)
    decreases |s| - i
  {
    var a := DeclarationCommandRun(rules, s, Whitespaces(s, i));
    match a.finish
    case Failed => Attempt(Matched(i), a.fired)
    case Spins => a
    case Matched(e) =>
      var rest := HeaderSectionRun(rules, s, Whitespaces(s, e));
      NumbersFromAppend(rules.numbers, a.fired, rest.fired);
      Attempt(rest.finish, a.fired + rest.fired)
  }

  /** `declaration_section`: the commands, then "$enddefinitions" and
      "$end", with whitespace around it. */
  function DeclarationSectionRun(rules: Rules, s: string, i: nat): (r: Attempt)
    requires i <= |s|
    ensures r.finish.Matched? ==> i < r.finish.end <= |s|
    ensures rules.text == CorrectedText ==> !r.finish.Spins?
    ensures NumbersFrom(rules.numbers, r.fired)
  {
    var h := HeaderSectionRun(rules, s, i);
    match h.finish
    case Matched(e) =>
      (match CommandEnddefinitions(s, Whitespaces(s, e))
       case None => Attempt(Failed, h.fired)
       case Some(f) => Attempt(Matched(Whitespaces(s, f)), h.fired))
    case _ => h
  }

  // ---------------------------------------------------------------------
  // The corrected run and the recognizers

  /** The recognizer of `Lexical` for one command. */
  function CommandMatch(c: Command, s: string, i: nat): Option<Parsed>
    requires i <= |s|
  {
    match c
    case Comment => CommandComment(s, i)
    case Date => CommandDate(s, i)
    case Scope => CommandScope(s, i)
    case Timescale => CommandTimescale(s, i)
    case Upscope => CommandUpscope(s, i)
    case Var => CommandVar(s, i)
    case Version => CommandVersion(s, i)
  }

  /** With the corrected tables a command's run matches exactly when its
      recognizer does, at the same end and with the same captures. */
  lemma CommandRunAgrees(c: Command, s: string, i: nat)
    requires i <= |s|
    ensures var r := CommandRun(Corrected, c, s, i); var m := CommandMatch(c, s, i);
      (r.finish.Matched? <==> m.Some?) && (m.Some? ==> m.value == Parsed(r.finish.end, r.fired))
  {
    match c
    case Scope => ScopeRunAgrees(s, i);
    case Timescale => TimescaleRunAgrees(s, i);
    case Upscope =>
    case Var =>
    case _ => TextCommandRunAgrees(c, s, i);
  }

  lemma TextCommandRunAgrees(c: Command, s: string, i: nat)
    requires i <= |s| && (c == Comment || c == Date || c == Version)
    ensures var r := TextCommandRun(Corrected, c, s, i); var m := TextCommand(Keyword(c), s, i);
      (r.finish.Matched? <==> m.Some?) && (m.Some? ==> r.finish.end == m.value.0 && r.fired == [TextCapture(c, m.value.1)])
  {
  }

  lemma ScopeRunAgrees(s: string, i: nat)
    requires i <= |s|
    ensures var r := ScopeRun(s, i); var m := CommandScope(s, i);
      (r.finish.Matched? <==> m.Some?) && (m.Some? ==> m.value == Parsed(r.finish.end, r.fired))
  {
  }

  lemma TimescaleRunAgrees(s: string, i: nat)
    requires i <= |s|
    ensures var r := TimescaleRun(TimeNumbers, s, i); var m := CommandTimescale(s, i);
      (r.finish.Matched? <==> m.Some?) && (m.Some? ==> m.value == Parsed(r.finish.end, r.fired))
  {
  }

  /** No two command keywords start at the same place. */
  lemma KeywordsExclusive(c1: Command, c2: Command, s: string, i: nat)
    requires At(s, i, Keyword(c1)) && At(s, i, Keyword(c2))
    ensures c1 == c2
  {
    var k1, k2 := Keyword(c1), Keyword(c2);
    assert s[i..i + |k1|][1] == k1[1] && s[i..i + |k1|][2] == k1[2];
    assert s[i..i + |k2|][1] == k2[1] && s[i..i + |k2|][2] == k2[2];
  }

  /** No command keyword starts where "$enddefinitions" does. */
  lemma NoCommandAtEnddefinitions(s: string, i: nat)
    requires At(s, i, "$enddefinitions")
    ensures !CommandAt(s, i)
  {
    assert s[i..i + 15][1] == 'e';
    forall c: Command
      ensures !At(s, i, Keyword(c))
    {
    }
  }

  /** A recognizer matches only where its keyword starts. */
  lemma RecognizerNeedsKeyword(c: Command, s: string, i: nat)
    requires i <= |s| && CommandMatch(c, s, i).Some?
    ensures At(s, i, Keyword(c))
  {
    CommandRunAgrees(c, s, i);
  }

  /** Where the keyword of `c` starts, every other recognizer fails. */
  lemma OthersFail(c: Command, s: string, i: nat)
    requires i <= |s| && At(s, i, Keyword(c))
    ensures forall d: Command :: d != c ==> CommandMatch(d, s, i) == None
  {
    forall d: Command | d != c
      ensures CommandMatch(d, s, i) == None
    {
      if CommandMatch(d, s, i).Some? {
        RecognizerNeedsKeyword(d, s, i);
        KeywordsExclusive(c, d, s, i);
      }
    }
  }

  /** Where every recognizer but that of `c` fails, `declaration_command`
      in `Lexical` is the recognizer of `c`. */
  lemma DeclarationCommandIs(c: Command, s: string, i: nat)
    requires i <= |s| && forall d: Command :: d != c ==> CommandMatch(d, s, i) == None
    ensures DeclarationCommand(s, i) == CommandMatch(c, s, i)
  {
    assert CommandComment(s, i) == CommandMatch(Comment, s, i);
    assert CommandDate(s, i) == CommandMatch(Date, s, i);
    assert CommandScope(s, i) == CommandMatch(Scope, s, i);
    assert CommandTimescale(s, i) == CommandMatch(Timescale, s, i);
    assert CommandUpscope(s, i) == CommandMatch(Upscope, s, i);
    assert CommandVar(s, i) == CommandMatch(Var, s, i);
    assert CommandVersion(s, i) == CommandMatch(Version, s, i);
  }

  /** Where no command keyword starts, every recognizer fails. */
  lemma AllFail(s: string, i: nat)
    requires i <= |s| && !CommandAt(s, i)
    ensures forall d: Command :: CommandMatch(d, s, i) == None
  {
    forall d: Command
      ensures CommandMatch(d, s, i) == None
    {
      if CommandMatch(d, s, i).Some? {
        RecognizerNeedsKeyword(d, s, i);
      }
    }
  }

  /** Where every recognizer fails, `declaration_command` in `Lexical`
      fails. */
  lemma NoDeclarationCommand(s: string, i: nat)
    requires i <= |s| && forall d: Command :: CommandMatch(d, s, i) == None
    ensures DeclarationCommand(s, i) == None
  {
    DeclarationCommandIs(Version, s, i);
  }

  /** With the corrected tables the run of `declaration_command` matches
      exactly when the recognizer does, at the same end and with the same
      captures. */
  lemma DeclarationCommandAgrees(s: string, i: nat)
    requires i <= |s|
    ensures var r := DeclarationCommandRun(Corrected, s, i); var m := DeclarationCommand(s, i);
      (r.finish.Matched? <==> m.Some?) && (m.Some? ==> m.value == Parsed(r.finish.end, r.fired))
  {
    if CommandAt(s, i) {
      var c: Command :| At(s, i, Keyword(c));
      DeclarationCommandOf(Corrected, c, s, i);
      OthersFail(c, s, i);
      DeclarationCommandIs(c, s, i);
      CommandRunAgrees(c, s, i);
    } else {
      AllFail(s, i);
      NoDeclarationCommand(s, i);
      NoneRuns(Corrected, Commands, s, i);
    }
  }

  lemma ConcatAssociates(a: seq<Capture>, b: seq<Capture>, c: seq<Capture>)
    ensures a + (b + c) == (a + b) + c
  {
  }

  /** With the corrected tables the run of `header_section` ends where the
      recognizer does; it fires the recognizer's captures and then those of
      the command that failed and ended the repetition. */
  lemma {:induction false} HeaderSectionAgrees(s: string, i: nat)
    requires i <= |s|
    ensures var r := HeaderSectionRun(Corrected, s, i); var h := HeaderSection(s, i);
      r.finish == Matched(h.end) &&
      r.fired == h.caps + DeclarationCommandRun(Corrected, s, Whitespaces(s, h.end)).fired
    decreases |s| - i
  {
    var w := Whitespaces(s, i);
    DeclarationCommandAgrees(s, w);
    var a := DeclarationCommandRun(Corrected, s, w);
    if a.finish.Matched? {
      var p := DeclarationCommand(s, w).value;
      var j := Whitespaces(s, p.end);
      HeaderSectionAgrees(s, j);
      var h := HeaderSection(s, j);
      var tail := DeclarationCommandRun(Corrected, s, Whitespaces(s, h.end)).fired;
      ConcatAssociates(p.caps, h.caps, tail);
    }
  }

  /** With the corrected tables the run of `declaration_section` matches
      exactly when the recognizer does, at the same end and with the same
      captures: a command that fails in front of "$enddefinitions" failed at
      its keyword and fired nothing. */
  lemma DeclarationSectionAgrees(s: string, i: nat)
    requires i <= |s|
    ensures var r := DeclarationSectionRun(Corrected, s, i); var d := DeclarationSection(s, i);
      (r.finish.Matched? <==> d.Some?) && (d.Some? ==> d.value == Parsed(r.finish.end, r.fired))
  {
    HeaderSectionAgrees(s, i);
    var h := HeaderSection(s, i);
    var x := Whitespaces(s, h.end);
    if CommandEnddefinitions(s, x).Some? {
      NoCommandAtEnddefinitions(s, x);
      assert h.caps + [] == h.caps;
    }
  }

  // ---------------------------------------------------------------------
  // Which alternative runs

  /** Where no keyword of the listed commands starts, ordered choice fails
      and fires nothing. */
  lemma {:induction false} NoneRuns(rules: Rules, cs: seq<Command>, s: string, i: nat)
    requires i <= |s| && forall k :: 0 <= k < |cs| ==> !At(s, i, Keyword(cs[k]))
    ensures FirstRun(rules, cs, s, i) == Attempt(Failed, [])
    decreases |cs|
  {
    if cs != [] {
      NoneRuns(rules, cs[1..], s, i);
    }
  }

  /** Where the keyword of `c` starts, ordered choice over distinct commands
      is the run of `c`: every other alternative fails at its keyword and
      fires nothing. */
  lemma {:induction false} OnlyCommandRuns(rules: Rules, cs: seq<Command>, c: Command, s: string, i: nat)
    requires i <= |s| && At(s, i, Keyword(c)) && c in cs
    requires forall j, k :: 0 <= j < k < |cs| ==> cs[j] != cs[k]
    ensures FirstRun(rules, cs, s, i) == CommandRun(rules, c, s, i)
    decreases |cs|
  {
    forall k | 0 <= k < |cs| && cs[k] != c
      ensures !At(s, i, Keyword(cs[k]))
    {
      if At(s, i, Keyword(cs[k])) {
        KeywordsExclusive(c, cs[k], s, i);
      }
    }
    if cs[0] == c {
      NoneRuns(rules, cs[1..], s, i);
      assert CommandRun(rules, c, s, i).fired + [] == CommandRun(rules, c, s, i).fired;
    } else {
      OnlyCommandRuns(rules, cs[1..], c, s, i);
    }
  }

  /** `declaration_command` where the keyword of `c` starts. */
  lemma DeclarationCommandOf(rules: Rules, c: Command, s: string, i: nat)
    requires i <= |s| && At(s, i, Keyword(c))
    ensures DeclarationCommandRun(rules, s, i) == CommandRun(rules, c, s, i)
  {
    OnlyCommandRuns(rules, Commands, c, s, i);
  }

  /** In front of "$enddefinitions" the header section stops at once,
      having fired nothing. */
  lemma HeaderSectionAtEnddefinitions(rules: Rules, s: string, i: nat)
    requires i <= |s| && At(s, Whitespaces(s, i), "$enddefinitions")
    ensures HeaderSectionRun(rules, s, i) == Attempt(Matched(i), [])
  {
    NoCommandAtEnddefinitions(s, Whitespaces(s, i));
    NoneRuns(rules, Commands, s, Whitespaces(s, i));
  }

  /** A section whose first command fails, and which does not start with
      "$enddefinitions" either, fails with what that command fired. */
  lemma SectionAfterFailedCommand(rules: Rules, s: string, i: nat)
    requires i <= |s|
    requires DeclarationCommandRun(rules, s, Whitespaces(s, i)).finish.Failed?
    requires CommandEnddefinitions(s, Whitespaces(s, i)) == None
    ensures DeclarationSectionRun(rules, s, i) ==
      Attempt(Failed, DeclarationCommandRun(rules, s, Whitespaces(s, i)).fired)
  {
  }

  /** A header of one command followed by "$enddefinitions": the header
      section ends in front of "$enddefinitions", having fired what the
      command fired. */
  lemma HeaderOfOneCommand(rules: Rules, s: string, i: nat, e: nat)
    requires i <= |s| && DeclarationCommandRun(rules, s, Whitespaces(s, i)).finish == Matched(e)
    requires At(s, Whitespaces(s, e), "$enddefinitions")
    ensures HeaderSectionRun(rules, s, i) ==
      Attempt(Matched(Whitespaces(s, e)), DeclarationCommandRun(rules, s, Whitespaces(s, i)).fired)
  {
    var w := Whitespaces(s, e);
    Grammar.WhitespacesIsMaximalRun(s, e);
    Grammar.WhitespacesOfRun(s, w, w);
    HeaderSectionAtEnddefinitions(rules, s, w);
    var a := DeclarationCommandRun(rules, s, Whitespaces(s, i));
    assert a.fired + [] == a.fired;
  }

  /** "$enddefinitions $end" and a line break, closing the input. */
  lemma ClosingLine(s: string, i: nat)
    requires |s| == i + 21 && At(s, i, "$enddefinitions") && s[i + 15] == ' '
    requires At(s, i + 16, "$end") && s[i + 20] == '\n'
    ensures CommandEnddefinitions(s, i) == Some(i + 20) && Whitespaces(s, i + 20) == |s|
  {
    assert s[i + 16] == "$end"[0];
    Grammar.KeywordThenSpaceOf("$enddefinitions", s, i, i + 16);
    Grammar.WhitespacesOfRun(s, i + 20, i + 21);
  }

  /** One group of the header section that matched: what its command
      fired, then what the rest of the section fires. */
  lemma HeaderStep(rules: Rules, s: string, i: nat, e: nat)
    requires i <= |s| && DeclarationCommandRun(rules, s, Whitespaces(s, i)).finish == Matched(e)
    ensures e <= |s|
    ensures var rest := HeaderSectionRun(rules, s, Whitespaces(s, e));
      HeaderSectionRun(rules, s, i) ==
      Attempt(rest.finish, DeclarationCommandRun(rules, s, Whitespaces(s, i)).fired + rest.fired)
  {
  }

  /** A header section closed by "$enddefinitions $end". */
  lemma SectionOfHeader(rules: Rules, s: string, i: nat, e: nat, f: nat)
    requires i <= |s| && HeaderSectionRun(rules, s, i).finish == Matched(e)
    requires e <= |s| && CommandEnddefinitions(s, Whitespaces(s, e)) == Some(f)
    ensures DeclarationSectionRun(rules, s, i) ==
      Attempt(Matched(Whitespaces(s, f)), HeaderSectionRun(rules, s, i).fired)
  {
  }

  /** A section of one command, then "$enddefinitions" and "$end". */
  lemma SectionOfOneCommand(rules: Rules, s: string, i: nat, e: nat, f: nat)
    requires i <= |s| && DeclarationCommandRun(rules, s, Whitespaces(s, i)).finish == Matched(e)
    requires At(s, Whitespaces(s, e), "$enddefinitions")
    requires CommandEnddefinitions(s, Whitespaces(s, e)) == Some(f)
    ensures DeclarationSectionRun(rules, s, i) ==
      Attempt(Matched(Whitespaces(s, f)), DeclarationCommandRun(rules, s, Whitespaces(s, i)).fired)
  {
    var w := Whitespaces(s, e);
    HeaderOfOneCommand(rules, s, i, e);
    Grammar.WhitespacesIsMaximalRun(s, e);
    Grammar.WhitespacesOfRun(s, w, w);
    SectionOfHeader(rules, s, i, w, f);
  }

  /** A word of printable characters other than the blank. */
  lemma PrintableWord(s: string, i: nat, w: string)
    requires At(s, i, w) && forall k :: 0 <= k < |w| ==> ' ' < w[k] <= '~'
    ensures forall k :: i <= k < i + |w| ==> ' ' < s[k] <= '~'
  {
    forall k | i <= k < i + |w|
      ensures ' ' < s[k] <= '~'
    {
      assert s[k] == s[i..i + |w|][k - i];
    }
  }

  /** The first two characters of "$enddefinitions" are not those of a
      word starting with '$' and then another letter than 'e'. */
  lemma NoEnddefinitionsAt(s: string, i: nat)
    requires i + 1 < |s| && s[i + 1] != 'e'
    ensures CommandEnddefinitions(s, i) == None
  {
    assert "$enddefinitions"[1] == 'e';
    Grammar.KeywordAbsent("$enddefinitions", s, i);
  }

  // ---------------------------------------------------------------------
  // Headers on which the written and the corrected grammar differ

  /** Where the parts of "$timescale 10 ns $end" and "$enddefinitions $end"
      lie. */
  predicate TimescaleTenLayout(s: string) {
    |s| == 43 && At(s, 0, "$timescale") && s[10] == ' ' && At(s, 11, "1") && At(s, 11, "10")
    && s[12] == '0' && s[13] == ' ' && At(s, 14, "ns") && s[16] == ' ' && At(s, 17, "$end")
    && s[21] == '\n' && At(s, 22, "$enddefinitions") && s[37] == ' ' && At(s, 38, "$end")
    && s[42] == '\n' && s[0] == '$' && s[1] == 't' && s[11] == '1' && s[22] == '$'
  }

  lemma TimescaleTenLaidOut(s: string)
    requires s == "$timescale 10 ns $end\n" + "$enddefinitions $end\n"
    ensures TimescaleTenLayout(s)
  {
    var first, last := "$timescale 10 ns $end\n", "$enddefinitions $end\n";
    assert s[0..10] == first[0..10] && s[11..12] == first[11..12] && s[11..13] == first[11..13];
    assert s[14..16] == first[14..16] && s[17..21] == first[17..21];
    assert s[22..37] == last[0..15] && s[38..42] == last[16..20];
    assert s[0] == first[0] && s[1] == first[1] && s[11] == first[11] && s[22] == last[0];
  }

  /** The whitespace and the closing line of that input. */
  lemma TimescaleTenPlaces(s: string)
    requires TimescaleTenLayout(s)
    ensures Whitespaces(s, 0) == 0 && CommandEnddefinitions(s, 0) == None
    ensures Whitespaces(s, 21) == 22 && At(s, 22, "$enddefinitions")
    ensures CommandEnddefinitions(s, 22) == Some(42) && Whitespaces(s, 42) == |s|
  {
    NoEnddefinitionsAt(s, 0);
    Grammar.WhitespacesOfRun(s, 21, 22);
    ClosingLine(s, 22);
  }

  /** As written, "$timescale" reads the number "1" and then finds no unit
      at "0". */
  lemma TimescaleTenAsWritten(s: string)
    requires TimescaleTenLayout(s)
    ensures DeclarationCommandRun(AsWritten, s, 0) == Attempt(Failed, [TimeNumberText("1")])
  {
    Grammar.KeywordThenSpaceOf("$timescale", s, 0, 11);
    assert Choice(TimeNumbersAsWritten, s, 11) == Some(12) by {
      Grammar.ChoiceOfFirstFound(TimeNumbersAsWritten, s, 11, 0);
    }
    assert s[11..12] == "1";
    assert Whitespaces(s, 12) == 12;
    assert Choice(TimeUnits, s, 12) == None by {
      forall k | 0 <= k < |TimeUnits|
        ensures !At(s, 12, TimeUnits[k])
      {
        assert TimeUnits[k][0] != '0';
      }
      Grammar.ChoiceReadsAKeyword(TimeUnits, s, 12);
    }
    DeclarationCommandOf(AsWritten, Timescale, s, 0);
  }

  /** The corrected grammar reads the number 10 and the unit "ns". */
  lemma TimescaleTenCorrected(s: string)
    requires TimescaleTenLayout(s)
    ensures DeclarationCommandRun(Corrected, s, 0) ==
      Attempt(Matched(21), [TimeNumberText("10"), TimeUnitText("ns")])
  {
    Grammar.TimescaleReadsNumberAndUnit(s, 0, 11, 1, 14, 3, 17);
    TimescaleRunAgrees(s, 0);
    DeclarationCommandOf(Corrected, Timescale, s, 0);
  }

  /** "$timescale 10 ns": as written, "1" is read and its action fires
      before the unit fails at "0", so the section fails having fired that
      number; the corrected grammar reads 10 and "ns". */
  lemma TimescaleTenRun(s: string)
    requires s == "$timescale 10 ns $end\n" + "$enddefinitions $end\n"
    ensures DeclarationSectionRun(AsWritten, s, 0) == Attempt(Failed, [TimeNumberText("1")])
    ensures DeclarationSectionRun(Corrected, s, 0) ==
      Attempt(Matched(|s|), [TimeNumberText("10"), TimeUnitText("ns")])
  {
    TimescaleTenLaidOut(s);
    TimescaleTenPlaces(s);
    TimescaleTenAsWritten(s);
    TimescaleTenCorrected(s);
    SectionAfterFailedCommand(AsWritten, s, 0);
    SectionOfOneCommand(Corrected, s, 0, 21, 42);
  }

  /** Where the parts of "$comment $end", "$date x $end" and
      "$enddefinitions $end" lie. */
  predicate CommentThenDateLayout(s: string) {
    |s| == 48 && At(s, 0, "$comment") && s[8] == ' ' && At(s, 9, "$end") && s[13] == '\n'
    && At(s, 14, "$date") && s[19] == ' ' && s[20] == 'x' && s[21] == ' ' && At(s, 22, "$end")
    && s[26] == '\n' && At(s, 27, "$enddefinitions") && s[42] == ' ' && At(s, 43, "$end")
    && s[47] == '\n' && s[0] == '$' && s[9] == '$' && s[14] == '$' && s[15] == 'd'
    && s[22] == '$' && s[27] == '$' && s[9..21] == "$end\n$date x" && s[20..21] == "x"
  }

  lemma CommentThenDateLaidOut(s: string)
    requires s == "$comment $end\n" + "$date x $end\n" + "$enddefinitions $end\n"
    ensures CommentThenDateLayout(s)
  {
    var first, second, last := "$comment $end\n", "$date x $end\n", "$enddefinitions $end\n";
    assert s[0..8] == first[0..8] && s[9..13] == first[9..13];
    assert s[14..19] == second[0..5] && s[22..26] == second[8..12];
    assert s[27..42] == last[0..15] && s[43..47] == last[16..20];
    assert s[0] == first[0] && s[9] == first[9] && s[14] == second[0] && s[15] == second[1];
    assert s[22] == second[8] && s[27] == last[0];
    assert s[9..21] == first[9..] + second[..7];
    assert s[20..21] == second[6..7];
  }

  /** The whitespace and the closing line of that input. */
  lemma CommentThenDatePlaces(s: string)
    requires CommentThenDateLayout(s)
    ensures Whitespaces(s, 0) == 0 && Whitespaces(s, 13) == 14
    ensures Whitespaces(s, 26) == 27 && At(s, 27, "$enddefinitions")
    ensures CommandEnddefinitions(s, 27) == Some(47) && Whitespaces(s, 47) == |s|
  {
    Grammar.WhitespacesOfRun(s, 13, 14);
    Grammar.WhitespacesOfRun(s, 26, 27);
    ClosingLine(s, 27);
  }

  /** The text after "$comment " runs up to the blank in front of the
      date's "$end": neither the line break in front of "$date" nor the
      blanks around "x" are followed by "$end". */
  lemma CommentThenDateText(s: string)
    requires CommentThenDateLayout(s)
    ensures Whitespaces(s, 21) == 22 && EndAhead(s, 21) && Text(s, 20) == 21 && Text(s, 9) == 21
    ensures SpaceThenEnd(s, 21) == Some(26)
  {
    Grammar.WhitespacesOfRun(s, 21, 22);
    Grammar.SpaceThenEndOf(s, 21, 22);
    assert Text(s, 20) == 21 by {
      assert Whitespaces(s, 20) == 20;
    }
    assert Text(s, 19) == 21 by {
      Grammar.WhitespacesOfRun(s, 19, 20);
      assert KwEnd(s, 20) == None;
    }
    PrintableWord(s, 14, "$date");
    Grammar.TextOverWord(s, 14, 19);
    assert Text(s, 13) == 21 by {
      Grammar.WhitespacesOfRun(s, 13, 14);
      assert "$end"[1] == 'e';
      assert KwEnd(s, 14) == None;
    }
    PrintableWord(s, 9, "$end");
    Grammar.TextOverWord(s, 9, 13);
  }

  /** As written, the comment's text runs over the date. */
  lemma CommentThenDateAsWritten(s: string)
    requires CommentThenDateLayout(s)
    ensures DeclarationCommandRun(AsWritten, s, 0) == Attempt(Matched(26), [CommentText("$end\n$date x")])
  {
    Grammar.KeywordThenSpaceOf("$comment", s, 0, 9);
    CommentThenDateText(s);
    DeclarationCommandOf(AsWritten, Comment, s, 0);
  }

  /** The corrected comment is empty. */
  lemma CommentThenDateEmptyComment(s: string)
    requires CommentThenDateLayout(s)
    ensures DeclarationCommandRun(Corrected, s, 0) == Attempt(Matched(13), [CommentText("")])
  {
    Grammar.KeywordThenSpaceOf("$comment", s, 0, 9);
    DeclarationCommandOf(Corrected, Comment, s, 0);
  }

  /** The corrected grammar then reads the date "x". */
  lemma CommentThenDateDate(s: string)
    requires CommentThenDateLayout(s)
    ensures DeclarationCommandRun(Corrected, s, 14) == Attempt(Matched(26), [DateText("x")])
  {
    Grammar.KeywordThenSpaceOf("$date", s, 14, 20);
    CommentThenDateText(s);
    DeclarationCommandOf(Corrected, Date, s, 14);
  }

  /** "$comment $end" followed by a date: as written, the comment's text
      runs over the "$end" and the date up to the date's closing, so the
      comment is "$end", the line break and "$date x", and no date is set;
      the corrected grammar reads an empty comment and the date "x". */
  lemma CommentThenDateRun(s: string)
    requires s == "$comment $end\n" + "$date x $end\n" + "$enddefinitions $end\n"
    ensures DeclarationSectionRun(AsWritten, s, 0) ==
      Attempt(Matched(|s|), [CommentText("$end\n$date x")])
    ensures DeclarationSectionRun(Corrected, s, 0) ==
      Attempt(Matched(|s|), [CommentText(""), DateText("x")])
  {
    CommentThenDateLaidOut(s);
    CommentThenDatePlaces(s);
    CommentThenDateAsWritten(s);
    SectionOfOneCommand(AsWritten, s, 0, 26, 47);
    CommentThenDateEmptyComment(s);
    CommentThenDateDate(s);
    HeaderOfOneCommand(Corrected, s, 13, 26);
    HeaderStep(Corrected, s, 0, 13);
    SectionOfHeader(Corrected, s, 0, 27, 47);
  }

  /** Where the parts of "$var realtime" lie. */
  predicate RealtimeLayout(s: string) {
    |s| > 13 && At(s, 0, "$var") && s[4] == ' ' && At(s, 5, VarTypesAsWritten[4]) && s[1] == 'v'
  }

  lemma RealtimeLaidOut(s: string)
    requires s == "$var realtime 1 ! t $end\n" + "$enddefinitions $end\n"
    ensures RealtimeLayout(s)
  {
    var first := "$var realtime 1 ! t $end\n";
    assert s[0..4] == first[0..4] && s[5..13] == first[5..13];
    assert s[1] == first[1] && s[4] == first[4];
  }

  /** As written, "$var" reads "real" and fails, firing nothing. */
  lemma RealtimeAsWritten(s: string)
    requires RealtimeLayout(s)
    ensures DeclarationCommandRun(AsWritten, s, 0) == Attempt(Failed, [])
  {
    Grammar.VarAsWrittenRefusesLongerKinds(s, 0, 5, 4);
    DeclarationCommandOf(AsWritten, Var, s, 0);
  }

  /** "$var realtime": as written, "real" is read and the declaration
      fails, firing nothing, so the section fails. */
  lemma RealtimeRun(s: string)
    requires s == "$var realtime 1 ! t $end\n" + "$enddefinitions $end\n"
    ensures DeclarationSectionRun(AsWritten, s, 0) == Attempt(Failed, [])
  {
    RealtimeLaidOut(s);
    assert Whitespaces(s, 0) == 0 by {
      assert s[0] == "$var"[0];
    }
    NoEnddefinitionsAt(s, 0);
    RealtimeAsWritten(s);
    SectionAfterFailedCommand(AsWritten, s, 0);
  }

  /** "$comment ", then a character `x` that is neither printable ASCII
      nor whitespace. */
  predicate NonTextCommentLayout(s: string, x: char) {
    |s| > 9 && At(s, 0, "$comment") && s[0] == '$' && s[1] == 'c' && s[8] == ' ' && s[9] == x
    && !IsTextChar(x)
  }

  /** As written, the comment's `text` stops nowhere. */
  lemma NonTextCommentAsWritten(s: string, x: char)
    requires NonTextCommentLayout(s, x)
    ensures DeclarationCommandRun(AsWritten, s, 0) == Attempt(Spins, [])
  {
    Grammar.KeywordThenSpaceOf("$comment", s, 0, 9);
    assert Whitespaces(s, 9) == 9 && Text(s, 9) == 9;
    DeclarationCommandOf(AsWritten, Comment, s, 0);
  }

  /** The corrected comment reads empty text and then finds no closing. */
  lemma NonTextCommentCorrected(s: string, x: char)
    requires NonTextCommentLayout(s, x)
    ensures DeclarationCommandRun(Corrected, s, 0) == Attempt(Failed, [CommentText("")])
  {
    Grammar.KeywordThenSpaceOf("$comment", s, 0, 9);
    assert Whitespaces(s, 9) == 9 && Text(s, 9) == 9;
    assert KwEnd(s, 9) == None by {
      assert x != "$end"[0];
    }
    DeclarationCommandOf(Corrected, Comment, s, 0);
  }

  /** A comment holding a character that is neither printable ASCII nor
      whitespace: as written, `text` reaches it, matches nothing there and
      never returns; the corrected grammar stops in front of it, fires an
      empty comment and fails. */
  lemma NonTextCommentRun(s: string, x: char)
    requires !IsTextChar(x)
    requires s == "$comment " + [x] + " $end\n" + "$enddefinitions $end\n"
    ensures DeclarationSectionRun(AsWritten, s, 0) == Attempt(Spins, [])
    ensures DeclarationSectionRun(Corrected, s, 0) == Attempt(Failed, [CommentText("")])
  {
    var first := "$comment ";
    assert s[0..8] == first[0..8] && s[0] == first[0] && s[1] == first[1] && s[8] == first[8];
    assert s[9] == x;
    assert Whitespaces(s, 0) == 0;
    NoEnddefinitionsAt(s, 0);
    NonTextCommentAsWritten(s, x);
    NonTextCommentCorrected(s, x);
    SectionAfterFailedCommand(Corrected, s, 0);
  }
}
