/** The PEG of the VCD declaration section (VCDLexical.hpp), one recognizer
    per rule. A recognizer is applied to the whole input `s` at a position
    `i` and answers the position where its match ends, or `None` when the
    rule fails. Ordered choice commits to the first alternative that
    matches, and repetition is greedy, exactly as in a PEG. Commands also
    report the text their action-carrying sub-rules matched, in the order
    the actions fire. From the text commands up, the recognizers are those
    of the corrected grammar: the longest time number and the longer kinds
    are tried first, and `text` takes one character per step, with an empty
    body allowed. `Matching` runs the grammar as written. */
module Lexical {
  import opened Wrappers
  import Decimal

  // ---------------------------------------------------------------------
  // Characters

  predicate IsSpace(c: char) { c == ' ' || c == '\t' }
  predicate IsNewline(c: char) { c == '\n' || c == '\r' }
  predicate IsWhitespace(c: char) { IsSpace(c) || IsNewline(c) }

  /** Every character of `s` from `i` up to `j` is whitespace. */
  predicate WhitespaceBetween(s: string, i: nat, j: nat)
    requires i <= j <= |s|
  {
    forall k :: i <= k < j ==> IsWhitespace(s[k])
  }

  /** `whitespaces`: the end of the longest run of blanks and line breaks
      starting at `i`. */
  function Whitespaces(s: string, i: nat): (j: nat)
    requires i <= |s|
    ensures i <= j <= |s|
    decreases |s| - i
  {
    if i == |s| || !IsWhitespace(s[i]) then i else Whitespaces(s, i + 1)
  }

  /** `mandatory_space`: at least one blank or line break, as many as there are. */
  function MandatorySpace(s: string, i: nat): (r: Option<nat>)
    requires i <= |s|
    ensures r.Some? ==> i < r.value <= |s|
  {
    var j := Whitespaces(s, i);
    if j == i then None else Some(j)
  }

  /** `s` holds `w` at position `i`. */
  predicate At(s: string, i: nat, w: string) {
    i + |w| <= |s| && s[i..i + |w|] == w
  }

  /** A literal string. */
  function Literal(w: string, s: string, i: nat): (r: Option<nat>)
    requires i <= |s|
    ensures r.Some? <==> At(s, i, w)
    ensures r.Some? ==> r.value == i + |w| <= |s|
  {
    if At(s, i, w) then Some(i + |w|) else None
  }

  /** `kw_end`: the bare literal "$end", with no word boundary after it. */
  function KwEnd(s: string, i: nat): (r: Option<nat>)
    requires i <= |s|
    ensures r.Some? ==> r.value == i + 4 <= |s|
  {
    Literal("$end", s, i)
  }

  // ---------------------------------------------------------------------
  // Ordered choice among literals

  /** The index of the first alternative, from the `k`-th on, found at `i`. */
  function FirstMatch(ws: seq<string>, s: string, i: nat, k: nat): (r: Option<nat>)
    requires k <= |ws|
    ensures r.Some? ==> k <= r.value < |ws|
    decreases |ws| - k
  {
    if k == |ws| then None
    else if At(s, i, ws[k]) then Some(k)
    else FirstMatch(ws, s, i, k + 1)
  }

  /** `sor` of literal alternatives: the end of the first one that matches. */
  function Choice(ws: seq<string>, s: string, i: nat): (r: Option<nat>)
    requires i <= |s|
    ensures r.Some? ==> i <= r.value <= |s|
  {
    var k :- FirstMatch(ws, s, i, 0);
    Literal(ws[k], s, i)
  }

  // ---------------------------------------------------------------------
  // Identifiers, symbols, numbers

  predicate IsIdentStart(c: char) { 'a' <= c <= 'z' || 'A' <= c <= 'Z' || c == '_' }
  predicate IsIdentChar(c: char) { IsIdentStart(c) || Decimal.IsDigit(c) }
  predicate IsSymbolChar(c: char) { '!' <= c <= '~' }

  /** The end of the longest run of identifier characters from `i`. */
  function IdentRun(s: string, i: nat): (j: nat)
    requires i <= |s|
    ensures i <= j <= |s|
    decreases |s| - i
  {
    if i == |s| || !IsIdentChar(s[i]) then i else IdentRun(s, i + 1)
  }

  /** `identifier`: a letter or underscore, then letters, digits and underscores. */
  function Identifier(s: string, i: nat): (r: Option<nat>)
    requires i <= |s|
    ensures r.Some? <==> i < |s| && IsIdentStart(s[i])
    ensures r.Some? ==> i < r.value <= |s|
  {
    if i < |s| && IsIdentStart(s[i]) then Some(IdentRun(s, i + 1)) else None
  }

  /** The end of the longest run of visible characters from `i`. */
  function SymbolRun(s: string, i: nat): (j: nat)
    requires i <= |s|
    ensures i <= j <= |s|
    decreases |s| - i
  {
    if i == |s| || !IsSymbolChar(s[i]) then i else SymbolRun(s, i + 1)
  }

  /** `symbol` (a signal's hash): one or more characters in '!'..'~'. */
  function Symbol(s: string, i: nat): (r: Option<nat>)
    requires i <= |s|
    ensures r.Some? <==> i < |s| && IsSymbolChar(s[i])
    ensures r.Some? ==> i < r.value <= |s|
  {
    var j := SymbolRun(s, i);
    if j == i then None else Some(j)
  }

  /** The end of the longest run of decimal digits from `i`. */
  function DigitRun(s: string, i: nat): (j: nat)
    requires i <= |s|
    ensures i <= j <= |s|
    decreases |s| - i
  {
    if i == |s| || !Decimal.IsDigit(s[i]) then i else DigitRun(s, i + 1)
  }

  /** `number`: one or more decimal digits. */
  function Number(s: string, i: nat): (r: Option<nat>)
    requires i <= |s|
    ensures r.Some? <==> i < |s| && Decimal.IsDigit(s[i])
    ensures r.Some? ==> i < r.value <= |s|
  {
    var j := DigitRun(s, i);
    if j == i then None else Some(j)
  }

  // ---------------------------------------------------------------------
  // Keyword tables

  /** A table in which no keyword is a prefix of a later one, so that ordered
      choice never stops at a shorter keyword while a longer one follows. */
  predicate Unshadowed(ws: seq<string>) {
    forall i, j :: 0 <= j < i < |ws| ==> !At(ws[i], 0, ws[j])
  }

  /** `time_number` as listed in the grammar: "1" comes first and so wins
      over "10" and "100". */
  const TimeNumbersAsWritten: seq<string> := ["1", "10", "100"]
  /** The same keywords, longest first; the model's grammar uses this order. */
  const TimeNumbers: seq<string> := ["100", "10", "1"]

  const TimeUnits: seq<string> := ["s", "ms", "us", "ns", "ps", "fs"]
  const ScopeTypes: seq<string> := ["begin", "fork", "function", "module", "task"]

  /** `var_type` as listed in the grammar: "real" comes before "realtime" and
      "tri" before "triand", "trior", "trireg", "tri0" and "tri1". */
  const VarTypesAsWritten: seq<string> := [
    "event", "integer", "parameter", "real", "realtime", "reg", "supply0", "supply1",
    "time", "tri", "triand", "trior", "trireg", "tri0", "tri1", "wand", "wire", "wor"]
  /** The same keywords with every longer one ahead of its prefixes; the
      model's grammar uses this order. */
  const VarTypes: seq<string> := [
    "event", "integer", "parameter", "realtime", "real", "reg", "supply0", "supply1",
    "time", "triand", "trior", "trireg", "tri0", "tri1", "tri", "wand", "wire", "wor"]

  // ---------------------------------------------------------------------
  // Free text

  /** Characters `text` may consume: printable ASCII or whitespace. */
  predicate IsTextChar(c: char) { ' ' <= c <= '~' || IsWhitespace(c) }

  /** The lookahead `text` refuses to step over: whitespace followed by
      "$end" (which also matches the start of "$enddefinitions"). */
  predicate EndAhead(s: string, i: nat)
    requires i <= |s|
  {
    var m := MandatorySpace(s, i);
    m.Some? && KwEnd(s, m.value).Some?
  }

  /** `text`: characters up to the first position where whitespace and
      "$end" follow, one character per step; it stops at a character that is
      neither printable nor whitespace, and at the end of the input. */
  function Text(s: string, i: nat): (j: nat)
    requires i <= |s|
    ensures i <= j <= |s|
    decreases |s| - i
  {
    if i == |s| || EndAhead(s, i) || !IsTextChar(s[i]) then i else Text(s, i + 1)
  }

  /** One step of `text_char` as the grammar writes it: a printable character,
      or else a run of whitespace of any length, including none. */
  function TextCharAsWritten(s: string, i: nat): (j: nat)
    requires i <= |s|
    ensures i <= j <= |s|
  {
    if i < |s| && ' ' <= s[i] <= '~' then i + 1 else Whitespaces(s, i)
  }

  /** `text` as the grammar writes it, run for at most `fuel` repetitions:
      `None` means the repetition had not stopped. A step that consumes
      nothing leaves the position where it was, so the repetition goes on. */
  function TextAsWritten(s: string, i: nat, fuel: nat): (r: Option<nat>)
    requires i <= |s|
    ensures r.Some? ==> i <= r.value <= |s|
    decreases fuel
  {
    if fuel == 0 then None
    else if EndAhead(s, i) then Some(i)
    else TextAsWritten(s, TextCharAsWritten(s, i), fuel - 1)
  }

  // ---------------------------------------------------------------------
  // Bit selects and variable references

  /** `bit_index_seq`: "[", a number, "]", with optional whitespace inside. */
  function BitIndexSeq(s: string, i: nat): (r: Option<nat>)
    requires i <= |s|
    ensures r.Some? ==> i < r.value <= |s|
  {
    var a :- Literal("[", s, i);
    var b :- Number(s, Whitespaces(s, a));
    Literal("]", s, Whitespaces(s, b))
  }

  /** `bit_range_seq`: "[", a number, ":", a number, "]", with optional
      whitespace between the parts. */
  function BitRangeSeq(s: string, i: nat): (r: Option<nat>)
    requires i <= |s|
    ensures r.Some? ==> i < r.value <= |s|
  {
    var a :- Literal("[", s, i);
    var b :- Number(s, Whitespaces(s, a));
    var c :- Literal(":", s, Whitespaces(s, b));
    var d :- Number(s, Whitespaces(s, c));
    Literal("]", s, Whitespaces(s, d))
  }

  /** `var_reference`: a name, optionally followed (after optional
      whitespace) by `[n]` or, when that fails, `[m:n]`. */
  function VarReference(s: string, i: nat): (r: Option<nat>)
    requires i <= |s|
    ensures r.Some? ==> i < r.value <= |s|
  {
    var n :- Identifier(s, i);
    var w := Whitespaces(s, n);
    if BitIndexSeq(s, w).Some? then BitIndexSeq(s, w)
    else if BitRangeSeq(s, w).Some? then BitRangeSeq(s, w)
    else Some(n)
  }

  // ---------------------------------------------------------------------
  // Commands

  /** The text an action-carrying rule matched, in firing order. */
  datatype Capture =
    | CommentText(text: string)
    | DateText(text: string)
    | VersionText(text: string)
    | TimeNumberText(text: string)
    | TimeUnitText(text: string)
    | ScopeTypeText(text: string)
    | ScopeIdentifierText(text: string)
    | UpscopeCommand

  /** A successful match: where it ends and the captures of its actions. */
  datatype Parsed = Parsed(end: nat, caps: seq<Capture>)

  /** A command keyword and the whitespace after it. */
  function KeywordThenSpace(keyword: string, s: string, i: nat): (r: Option<nat>)
    requires i <= |s|
    ensures r.Some? ==> i + |keyword| < r.value <= |s|
  {
    var a :- Literal(keyword, s, i);
    MandatorySpace(s, a)
  }

  /** The closing of every command: whitespace, then "$end". */
  function SpaceThenEnd(s: string, i: nat): (r: Option<nat>)
    requires i <= |s|
    ensures r.Some? ==> i + 4 < r.value <= |s|
  {
    var b :- MandatorySpace(s, i);
    KwEnd(s, b)
  }

  /** `$comment`, `$date` and `$version` as the grammar writes them:
      keyword, whitespace, text, whitespace, "$end". The text between the two
      whitespace runs is captured. */
  function TextCommandAsWritten(keyword: string, s: string, i: nat): (r: Option<(nat, string)>)
    requires i <= |s|
    ensures r.Some? ==> i < r.value.0 <= |s|
  {
    var a :- KeywordThenSpace(keyword, s, i);
    var t := Text(s, a);
    var e :- SpaceThenEnd(s, t);
    Some((e, s[a..t]))
  }

  /** The same commands with an empty body allowed: "$end" right after the
      keyword's whitespace closes the command with empty text. The model's
      grammar uses this form. */
  function TextCommand(keyword: string, s: string, i: nat): (r: Option<(nat, string)>)
    requires i <= |s|
    ensures r.Some? ==> i < r.value.0 <= |s|
  {
    var a :- KeywordThenSpace(keyword, s, i);
    if KwEnd(s, a).Some? then Some((a + 4, ""))
    else
      var t := Text(s, a);
      var e :- SpaceThenEnd(s, t);
      Some((e, s[a..t]))
  }

  /** The corrected `command_comment`, `command_date` and `command_version`,
      each capturing its text for its action. */
  function CommandComment(s: string, i: nat): (r: Option<Parsed>)
    requires i <= |s|
    ensures r.Some? ==> i < r.value.end <= |s|
  {
    var (e, t) :- TextCommand("$comment", s, i);
    Some(Parsed(e, [CommentText(t)]))
  }

  function CommandDate(s: string, i: nat): (r: Option<Parsed>)
    requires i <= |s|
    ensures r.Some? ==> i < r.value.end <= |s|
  {
    var (e, t) :- TextCommand("$date", s, i);
    Some(Parsed(e, [DateText(t)]))
  }

  function CommandVersion(s: string, i: nat): (r: Option<Parsed>)
    requires i <= |s|
    ensures r.Some? ==> i < r.value.end <= |s|
  {
    var (e, t) :- TextCommand("$version", s, i);
    Some(Parsed(e, [VersionText(t)]))
  }

  /** `command_enddefinition`: "$enddefinitions", whitespace, "$end". */
  function CommandEnddefinitions(s: string, i: nat): (r: Option<nat>)
    requires i <= |s|
    ensures r.Some? ==> i < r.value <= |s|
  {
    var a :- KeywordThenSpace("$enddefinitions", s, i);
    KwEnd(s, a)
  }

  /** The part of `command_scope` after its scope type: whitespace, the
      scope identifier, whitespace, "$end". Answers the end and the
      identifier. */
  function ScopeIdentifierThenEnd(s: string, i: nat): (r: Option<(nat, string)>)
    requires i <= |s|
    ensures r.Some? ==> i < r.value.0 <= |s|
  {
    var d :- MandatorySpace(s, i);
    var e :- Identifier(s, d);
    var f :- SpaceThenEnd(s, e);
    Some((f, s[d..e]))
  }

  /** `command_scope`: "$scope", a scope type, a scope identifier, "$end",
      separated by whitespace. */
  function CommandScope(s: string, i: nat): (r: Option<Parsed>)
    requires i <= |s|
    ensures r.Some? ==> i < r.value.end <= |s|
  {
    var a :- KeywordThenSpace("$scope", s, i);
    var c :- Choice(ScopeTypes, s, a);
    var (e, name) :- ScopeIdentifierThenEnd(s, c);
    Some(Parsed(e, [ScopeTypeText(s[a..c]), ScopeIdentifierText(name)]))
  }

  /** The part of `command_timescale` after its number: optional whitespace,
      the time unit, whitespace, "$end". Answers the end and the unit. */
  function UnitThenEnd(s: string, i: nat): (r: Option<(nat, string)>)
    requires i <= |s|
    ensures r.Some? ==> i < r.value.0 <= |s|
  {
    var d := Whitespaces(s, i);
    var e :- Choice(TimeUnits, s, d);
    var f :- SpaceThenEnd(s, e);
    Some((f, s[d..e]))
  }

  /** `command_timescale`: "$timescale", whitespace, a time number from the
      table `numbers`, optional whitespace, a time unit, whitespace, "$end". */
  function CommandTimescaleWith(numbers: seq<string>, s: string, i: nat): (r: Option<Parsed>)
    requires i <= |s|
    ensures r.Some? ==> i < r.value.end <= |s|
  {
    var a :- KeywordThenSpace("$timescale", s, i);
    var c :- Choice(numbers, s, a);
    var (e, unit) :- UnitThenEnd(s, c);
    Some(Parsed(e, [TimeNumberText(s[a..c]), TimeUnitText(unit)]))
  }

  function CommandTimescale(s: string, i: nat): (r: Option<Parsed>)
    requires i <= |s|
    ensures r.Some? ==> i < r.value.end <= |s|
  {
    CommandTimescaleWith(TimeNumbers, s, i)
  }

  /** `command_upscope`: "$upscope", whitespace, "$end". */
  function CommandUpscope(s: string, i: nat): (r: Option<Parsed>)
    requires i <= |s|
    ensures r.Some? ==> i < r.value.end <= |s|
  {
    var a :- KeywordThenSpace("$upscope", s, i);
    var e :- KwEnd(s, a);
    Some(Parsed(e, [UpscopeCommand]))
  }

  /** The end of `command_var`: whitespace, the reference, whitespace, "$end". */
  function ReferenceThenEnd(s: string, i: nat): (r: Option<nat>)
    requires i <= |s|
    ensures r.Some? ==> i < r.value <= |s|
  {
    var h :- MandatorySpace(s, i);
    var m :- VarReference(s, h);
    SpaceThenEnd(s, m)
  }

  /** The part of `command_var` after its var type: a size, a hash symbol,
      a reference, "$end", each after whitespace. */
  function VarOperands(s: string, i: nat): (r: Option<nat>)
    requires i <= |s|
    ensures r.Some? ==> i < r.value <= |s|
  {
    var d :- MandatorySpace(s, i);
    var e :- Number(s, d);
    var f :- MandatorySpace(s, e);
    var g :- Symbol(s, f);
    ReferenceThenEnd(s, g)
  }

  /** `command_var`: "$var", whitespace, a var type from the table `types`,
      then its operands. No action is attached to its parts. */
  function CommandVarWith(types: seq<string>, s: string, i: nat): (r: Option<Parsed>)
    requires i <= |s|
    ensures r.Some? ==> i < r.value.end <= |s| && r.value.caps == []
  {
    var a :- KeywordThenSpace("$var", s, i);
    var c :- Choice(types, s, a);
    var e :- VarOperands(s, c);
    Some(Parsed(e, []))
  }

  function CommandVar(s: string, i: nat): (r: Option<Parsed>)
    requires i <= |s|
    ensures r.Some? ==> i < r.value.end <= |s| && r.value.caps == []
  {
    CommandVarWith(VarTypes, s, i)
  }

  /** The corrected `declaration_command`: the first of the seven corrected
      commands that matches. */
  function DeclarationCommand(s: string, i: nat): (r: Option<Parsed>)
    requires i <= |s|
    ensures r.Some? ==> i < r.value.end <= |s|
  {
    if CommandComment(s, i).Some? then CommandComment(s, i)
    else if CommandDate(s, i).Some? then CommandDate(s, i)
    else if CommandScope(s, i).Some? then CommandScope(s, i)
    else if CommandTimescale(s, i).Some? then CommandTimescale(s, i)
    else if CommandUpscope(s, i).Some? then CommandUpscope(s, i)
    else if CommandVar(s, i).Some? then CommandVar(s, i)
    else CommandVersion(s, i)
  }

  // ---------------------------------------------------------------------
  // Sections

  /** The corrected `header_section`: as many (whitespace, command,
      whitespace) groups as match; a group whose command fails is not
      consumed. */
  function HeaderSection(s: string, i: nat): (r: Parsed)
    requires i <= |s|
    ensures i <= r.end <= |s|
    decreases |s| - i
  {
    match DeclarationCommand(s, Whitespaces(s, i))
    case None => Parsed(i, [])
    case Some(p) =>
      var rest := HeaderSection(s, Whitespaces(s, p.end));
      Parsed(rest.end, p.caps + rest.caps)
  }

  /** The corrected `declaration_section`: the commands, then the mandatory
      "$enddefinitions ... $end", with whitespace around it. */
  function DeclarationSection(s: string, i: nat): (r: Option<Parsed>)
    requires i <= |s|
    ensures r.Some? ==> i < r.value.end <= |s|
  {
    var h := HeaderSection(s, i);
    var e :- CommandEnddefinitions(s, Whitespaces(s, h.end));
    Some(Parsed(Whitespaces(s, e), h.caps))
  }

  /** The corrected `vcd_file`: whitespace, the declaration section,
      whitespace, and the end of the input. */
  function VcdFile(s: string): (r: Option<Parsed>)
    ensures r.Some? ==> r.value.end == |s|
  {
    var d :- DeclarationSection(s, Whitespaces(s, 0));
    if Whitespaces(s, d.end) == |s| then Some(Parsed(|s|, d.caps)) else None
  }
}
