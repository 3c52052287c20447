/** The streaming driver (VCDParser.cpp): the header is read line by line up
    to the line holding "$enddefinitions" and handed to the grammar; the
    rest of the input is read in fixed-size chunks, stitched back into lines
    at every '\n' or '\r', and each line is dispatched. The input stream is
    modelled as a string and the chunk size as a parameter. */
module Parser {
  import opened Wrappers
  import Decimal
  import Lexical
  import Actions
  import Files
  import Grammar
  import Matching

  // -----------------------------------------------------------------------
  // Searching text, as `std::string::find` does

  /** `find` for one character: the first position at or after `start`
      holding `c`, or none (`npos`). */
  function FindChar(s: string, c: char, start: nat): (r: Option<nat>)
    ensures r.Some? ==> start <= r.value < |s| && s[r.value] == c
    decreases |s| - start
  {
    if start >= |s| then None
    else if s[start] == c then Some(start)
    else FindChar(s, c, start + 1)
  }

  /** `c` does not occur between `start` and what `find` answers. */
  lemma {:induction false} FindCharIsFirst(s: string, c: char, start: nat)
    ensures var r := FindChar(s, c, start);
      forall k :: start <= k < |s| && (r.None? || k < r.value) ==> s[k] != c
    decreases |s| - start
  {
    if start < |s| && s[start] != c {
      FindCharIsFirst(s, c, start + 1);
    }
  }

  /** `find` for a word: the first position at or after `from` where `w`
      occurs, or none. */
  function FindText(s: string, w: string, from: nat): (r: Option<nat>)
    ensures r.Some? ==> from <= r.value && Lexical.At(s, r.value, w)
    decreases |s| - from
  {
    if from + |w| > |s| then None
    else if Lexical.At(s, from, w) then Some(from)
    else FindText(s, w, from + 1)
  }

  /** `w` does not occur between `from` and what `find` answers. */
  lemma {:induction false} FindTextIsFirst(s: string, w: string, from: nat)
    ensures var r := FindText(s, w, from);
      forall k :: from <= k && (r.None? || k < r.value) ==> !Lexical.At(s, k, w)
    decreases |s| - from
  {
    if from + |w| <= |s| && !Lexical.At(s, from, w) {
      FindTextIsFirst(s, w, from + 1);
    }
  }

  /** `s.find(w) != npos`. */
  predicate Contains(s: string, w: string) {
    FindText(s, w, 0).Some?
  }

  /** Any occurrence of `w` is found. */
  lemma OccurrenceIsFound(s: string, w: string, k: nat)
    requires Lexical.At(s, k, w)
    ensures Contains(s, w)
  {
    FindTextIsFirst(s, w, 0);
  }

  // -----------------------------------------------------------------------
  // Cutting the body into lines

  /** `findNextLine`: the position of the first '\n' and that of the first
      '\r' at or after `start` are looked up separately and the smaller one
      is answered; none when neither occurs. */
  function FindNextLine(chunk: string, start: nat): (r: Option<nat>)
    ensures r.Some? ==> start <= r.value < |chunk| && Lexical.IsNewline(chunk[r.value])
  {
    var lf := FindChar(chunk, '\n', start);
    var cr := FindChar(chunk, '\r', start);
    if lf.None? && cr.None? then None
    else if lf.None? then cr
    else if cr.None? then lf
    else Some(if lf.value < cr.value then lf.value else cr.value)
  }

  /** No break occurs between `start` and the break found. */
  lemma FindNextLineIsFirst(chunk: string, start: nat)
    ensures var r := FindNextLine(chunk, start);
      forall k :: start <= k < |chunk| && (r.None? || k < r.value) ==> !Lexical.IsNewline(chunk[k])
  {
    FindCharIsFirst(chunk, '\n', start);
    FindCharIsFirst(chunk, '\r', start);
  }

  predicate NoBreak(s: string) {
    forall k :: 0 <= k < |s| ==> !Lexical.IsNewline(s[k])
  }

  /** The body cut at every line break, '\n' and '\r' alike; a final
      remainder without a break is the last line. */
  function Lines(s: string): seq<string>
    decreases |s|
  {
    match FindNextLine(s, 0)
    case None => if s == [] then [] else [s]
    case Some(p) => [s[..p]] + Lines(s[p + 1..])
  }

  /** The line breaks of `s`, in order. */
  function Breaks(s: string): seq<char> {
    if s == [] then [] else (if Lexical.IsNewline(s[0]) then [s[0]] else []) + Breaks(s[1..])
  }

  /** Lines put back together, each followed by its break while breaks
      remain. */
  function Rebuild(ls: seq<string>, bs: seq<char>): string
    decreases |ls|
  {
    if ls == [] then []
    else if bs == [] then ls[0] + Rebuild(ls[1..], [])
    else ls[0] + [bs[0]] + Rebuild(ls[1..], bs[1..])
  }

  lemma {:induction false} BreaksAppend(a: string, b: string)
    ensures Breaks(a + b) == Breaks(a) + Breaks(b)
  {
    if a != [] {
      assert (a + b)[1..] == a[1..] + b;
      BreaksAppend(a[1..], b);
    } else {
      assert a + b == b;
    }
  }

  lemma {:induction false} BreaksOfNoBreak(s: string)
    requires NoBreak(s)
    ensures Breaks(s) == []
  {
    if s != [] {
      BreaksOfNoBreak(s[1..]);
    }
  }

  /** The line at the first break of `s` is everything before it. */
  lemma LinesAtBreak(s: string, k: nat)
    requires k < |s| && Lexical.IsNewline(s[k])
    requires forall j :: 0 <= j < k ==> !Lexical.IsNewline(s[j])
    ensures Lines(s) == [s[..k]] + Lines(s[k + 1..])
  {
    FindNextLineIsFirst(s, 0);
  }

  /** Text without breaks is one line, or none when empty. */
  lemma LinesOfNoBreak(s: string)
    requires NoBreak(s)
    ensures Lines(s) == if s == [] then [] else [s]
  {
    assert FindNextLine(s, 0).None?;
  }

  /** The breaks of `s` from its first one on. */
  lemma BreaksAtBreak(s: string, p: nat)
    requires p < |s| && Lexical.IsNewline(s[p]) && NoBreak(s[..p])
    ensures Breaks(s) == [s[p]] + Breaks(s[p + 1..])
  {
    assert s == s[..p] + ([s[p]] + s[p + 1..]);
    BreaksAppend(s[..p], [s[p]] + s[p + 1..]);
    BreaksOfNoBreak(s[..p]);
    assert ([s[p]] + s[p + 1..])[1..] == s[p + 1..];
  }

  /** No line holds a break. */
  lemma {:induction false} LinesHaveNoBreak(s: string)
    ensures forall k :: 0 <= k < |Lines(s)| ==> NoBreak(Lines(s)[k])
    decreases |s|
  {
    FindNextLineIsFirst(s, 0);
    match FindNextLine(s, 0)
    case None =>
    case Some(p) =>
      LinesHaveNoBreak(s[p + 1..]);
      NoBreakBefore(s, p);
  }

  /** The text before the first break has none. */
  lemma NoBreakBefore(s: string, p: nat)
    requires p <= |s| && forall j :: 0 <= j < p ==> !Lexical.IsNewline(s[j])
    ensures NoBreak(s[..p])
  {
    assert forall j :: 0 <= j < p ==> s[..p][j] == s[j];
  }

  /** The lines with the breaks between them are the text again: every
      character lands in exactly one line or is a break. */
  lemma {:induction false} LinesRebuild(s: string)
    ensures Rebuild(Lines(s), Breaks(s)) == s
    decreases |s|
  {
    FindNextLineIsFirst(s, 0);
    match FindNextLine(s, 0)
    case None =>
      BreaksOfNoBreak(s);
      if s != [] {
        assert Rebuild([s], []) == s + Rebuild([], []);
      }
    case Some(p) =>
      var rest := s[p + 1..];
      LinesRebuild(rest);
      NoBreakBefore(s, p);
      BreaksAtBreak(s, p);
      RebuildStep(s[..p], Lines(rest), s[p], Breaks(rest));
      assert s == s[..p] + [s[p]] + rest;
  }

  lemma RebuildStep(line: string, ls: seq<string>, b: char, bs: seq<char>)
    ensures Rebuild([line] + ls, [b] + bs) == line + [b] + Rebuild(ls, bs)
  {
    assert ([line] + ls)[1..] == ls && ([b] + bs)[1..] == bs;
  }

  /** "\r\n" ends a line and then an empty one; "\n\r" too. */
  lemma CrLfMakesEmptyLine(a: string, b: string)
    requires NoBreak(a) && NoBreak(b) && b != []
    ensures Lines(a + "\r\n" + b) == [a, "", b]
  {
    var s := a + "\r\n" + b;
    LinesAtBreak(s, |a|);
    var t := s[|a| + 1..];
    LinesAtBreak(t, 0);
    LinesOfNoBreak(b);
    assert s[..|a|] == a && t[..0] == "" && t[1..] == b;
  }


  // -----------------------------------------------------------------------
  // One body line

  /** What `std::stoull` throws. */
  datatype ConversionError = InvalidArgument | OutOfRange

  /** 2^64: the values of `uint64_t`. */
  const Word: nat := 0x1_0000_0000_0000_0000

  /** The characters `std::isspace` accepts in the "C" locale. */
  predicate IsCSpace(c: char) {
    c == ' ' || c == '\t' || c == '\n' || c == '\r' || c == 11 as char || c == 12 as char
  }

  function SkipCSpaces(s: string, i: nat): (j: nat)
    requires i <= |s|
    ensures i <= j <= |s| && (j < |s| ==> !IsCSpace(s[j]))
    decreases |s| - i
  {
    if i == |s| || !IsCSpace(s[i]) then i else SkipCSpaces(s, i + 1)
  }

  /** `std::stoull` in base 10: leading white space, an optional sign, then
      at least one digit, or `invalid_argument`; a magnitude past 64 bits is
      `out_of_range`; a minus sign negates modulo 2^64. */
  function Stoull(s: string): (r: Result<nat, ConversionError>)
    ensures r.Ok? ==> r.value < Word
  {
    var i := SkipCSpaces(s, 0);
    var signed := i < |s| && (s[i] == '+' || s[i] == '-');
    var j := if signed then i + 1 else i;
    if j == |s| || !Decimal.IsDigit(s[j]) then Err(InvalidArgument)
    else
      var v := Decimal.LeadingValue(s[j..]);
      if v >= Word then Err(OutOfRange)
      else if signed && s[i] == '-' then Ok(if v == 0 then 0 else Word - v)
      else Ok(v)
  }

  /** A printed 64-bit number is read back, whatever non-digit follows. */
  lemma StoullReadsPrinted(n: nat, rest: string)
    requires n < Word && (rest == [] || !Decimal.IsDigit(rest[0]))
    ensures Stoull(Decimal.NatToDecimal(n) + rest) == Ok(n)
  {
    var s := Decimal.NatToDecimal(n) + rest;
    assert Decimal.IsDigit(s[0]);
    Decimal.PrintedNumberIsRead(n, rest);
    assert s[0..] == s;
  }

  /** What `parseValueChangeLine` does with a line. */
  datatype LineEffect = Ignore | Stamp(time: nat) | Throw(error: ConversionError)

  /** Empty lines and lines starting with '$' are skipped; a line starting
      with '#' gives the number after it as a timestamp, or the exception
      `stoull` throws; every other line is ignored. */
  function LineEffectOf(line: string): (e: LineEffect)
    ensures !e.Ignore? <==> |line| > 0 && line[0] == '#' && line[0] != '$'
    ensures e.Stamp? ==> e.time < Word
  {
    if line == [] || line[0] == '$' then Ignore
    else if line[0] == '#' then
      match Stoull(line[1..])
      case Ok(t) => Stamp(t)
      case Err(err) => Throw(err)
    else Ignore
  }

  /** A '#' line holding a printed number stamps that number. */
  lemma TimestampLine(n: nat)
    requires n < Word
    ensures LineEffectOf("#" + Decimal.NatToDecimal(n)) == Stamp(n)
  {
    var line := "#" + Decimal.NatToDecimal(n);
    StoullReadsPrinted(n, "");
    assert line[1..] == Decimal.NatToDecimal(n) + "";
  }

  /** The lines dispatched in order: the timestamps they append before the
      first exception, and that exception. */
  function Run(lines: seq<string>): (seq<nat>, Option<ConversionError>) {
    if lines == [] then ([], None)
    else match LineEffectOf(lines[0])
      case Ignore => Run(lines[1..])
      case Stamp(t) => ([t] + Run(lines[1..]).0, Run(lines[1..]).1)
      case Throw(err) => ([], Some(err))
  }

  /** Running two batches of lines: the second runs only if the first threw
      nothing. */
  lemma {:induction false} RunAppend(a: seq<string>, b: seq<string>)
    ensures Run(a + b) ==
      if Run(a).1.Some? then Run(a) else (Run(a).0 + Run(b).0, Run(b).1)
  {
    if a == [] {
      assert a + b == b && [] + Run(b).0 == Run(b).0;
    } else {
      assert (a + b)[0] == a[0] && (a + b)[1..] == a[1..] + b;
      RunAppend(a[1..], b);
      match LineEffectOf(a[0])
      case Ignore =>
      case Stamp(t) =>
        assert [t] + Run(a[1..]).0 + Run(b).0 == [t] + (Run(a[1..]).0 + Run(b).0);
      case Throw(_) =>
    }
  }

  /** Every appended timestamp is a 64-bit value stamped by some line. */
  lemma {:induction false} RunStampsFromLines(lines: seq<string>)
    ensures forall t :: t in Run(lines).0 ==> t < Word && exists k :: 0 <= k < |lines| && LineEffectOf(lines[k]) == Stamp(t)
  {
    if lines != [] {
      RunStampsFromLines(lines[1..]);
      forall t | t in Run(lines).0
        ensures t < Word && exists k :: 0 <= k < |lines| && LineEffectOf(lines[k]) == Stamp(t)
      {
        if LineEffectOf(lines[0]) == Stamp(t) {
        } else {
          var k :| 0 <= k < |lines[1..]| && LineEffectOf(lines[1..][k]) == Stamp(t);
          assert lines[k + 1] == lines[1..][k];
        }
      }
    }
  }

  // -----------------------------------------------------------------------
  // The header lines

  const EnddefinitionsKeyword := "$enddefinitions"
  const EndKeyword := "$end"
  const MissingEndMessage := "Parse error: Missing $end after $enddefinitions"
  const InternalErrorMessage := "Internal parse error..."

  /** `getline`: the end of the line starting at `i`, the position of the
      next '\n' or the end of the input. */
  function LineEnd(s: string, i: nat): (e: nat)
    requires i <= |s|
    ensures i <= e <= |s| && (e < |s| ==> s[e] == '\n')
  {
    match FindChar(s, '\n', i)
    case None => |s|
    case Some(e) => e
  }

  /** A line holds no '\n'. */
  lemma LineEndIsFirst(s: string, i: nat)
    requires i <= |s|
    ensures forall k :: i <= k < LineEnd(s, i) ==> s[k] != '\n'
  {
    FindCharIsFirst(s, '\n', i);
  }

  /** Where reading goes on after the line starting at `i`: past its '\n',
      or at the end of the input. */
  function NextLine(s: string, i: nat): (n: nat)
    requires i < |s|
    ensures i < n <= |s|
  {
    var e := LineEnd(s, i);
    if e < |s| then e + 1 else |s|
  }

  /** What the header loop leaves: the header buffer, how much input it
      consumed, and whether it found the end of the definitions. */
  datatype HeaderScan = HeaderScan(header: string, consumed: nat, foundEnd: bool)

  /** A line read before the rest of a scan. */
  function Prepend(text: string, r: HeaderScan): HeaderScan {
    HeaderScan(text + r.header, r.consumed, r.foundEnd)
  }

  lemma PrependTwice(a: string, b: string, r: HeaderScan)
    ensures Prepend(a, Prepend(b, r)) == Prepend(a + b, r)
  {
    assert a + (b + r.header) == (a + b) + r.header;
  }

  /** `parseHeader`'s loop as written: every line goes into the buffer
      followed by '\n', and the loop stops after the first line holding
      "$enddefinitions", which also holds "$end". */
  function ScanHeader(s: string, i: nat): (r: HeaderScan)
    requires i <= |s|
    ensures i <= r.consumed <= |s|
    decreases |s| - i
  {
    if i == |s| then HeaderScan("", |s|, false)
    else
      var line := s[i..LineEnd(s, i)];
      if Contains(line, EnddefinitionsKeyword) then HeaderScan(line + "\n", NextLine(s, i), true)
      else
        Prepend(line + "\n", ScanHeader(s, NextLine(s, i)))
  }

  /** The buffer is exactly the consumed input, with a '\n' added when the
      last line read had none. */
  lemma {:induction false} HeaderIsConsumedInput(s: string, i: nat)
    requires i <= |s|
    ensures var r := ScanHeader(s, i);
      if i == |s| then r.header == ""
      else i < r.consumed && r.header == s[i..r.consumed] + (if s[r.consumed - 1] == '\n' then "" else "\n")
    decreases |s| - i
  {
    if i < |s| {
      var next := NextLine(s, i);
      LineSpan(s, i);
      if !Contains(s[i..LineEnd(s, i)], EnddefinitionsKeyword) {
        HeaderIsConsumedInput(s, next);
        if next < |s| {
          SliceSplit(s, i, next, ScanHeader(s, next).consumed);
        }
      }
    }
  }

  /** The input from the start of a line to where reading goes on is the
      line and its '\n', if it has one. */
  lemma LineSpan(s: string, i: nat)
    requires i < |s|
    ensures var e, next := LineEnd(s, i), NextLine(s, i);
      if e < |s| then s[i..e] + "\n" == s[i..next] && s[next - 1] == '\n'
      else s[i..e] == s[i..next] && s[next - 1] != '\n'
  {
    LineEndIsFirst(s, i);
  }

  lemma SliceSplit(s: string, i: nat, j: nat, k: nat)
    requires i <= j <= k <= |s|
    ensures s[i..k] == s[i..j] + s[j..k]
  {
  }

  /** The keyword inside a line is the keyword in the input. */
  lemma AtWithinLine(s: string, i: nat, e: nat, k: nat, w: string)
    requires i <= e <= |s| && i + k + |w| <= e
    ensures Lexical.At(s[i..e], k, w) <==> Lexical.At(s, i + k, w)
  {
    var t := s[i..e];
    var x, y := t[k..k + |w|], s[i + k..i + k + |w|];
    forall m | 0 <= m < |w|
      ensures x[m] == y[m]
    {
      assert x[m] == t[k + m];
    }
    assert x == y;
  }

  /** An occurrence of "$enddefinitions" at or after the start of a line
      that does not hold it lies past that line: the keyword holds no '\n'. */
  lemma KeywordPastLine(s: string, i: nat, v: nat)
    requires i <= v && Lexical.At(s, v, EnddefinitionsKeyword)
    requires !Contains(s[i..LineEnd(s, i)], EnddefinitionsKeyword)
    ensures NextLine(s, i) <= v
  {
    var kw := EnddefinitionsKeyword;
    var e := LineEnd(s, i);
    if v + |kw| <= e {
      AtWithinLine(s, i, e, v - i, kw);
      OccurrenceIsFound(s[i..e], kw, v - i);
    } else if v <= e {
      assert false;
    }
  }

  /** The header ends as soon as "$enddefinitions" has been read: the loop
      finds the end exactly when the keyword occurs in the input. */
  lemma {:induction false} ScanFindsKeyword(s: string, i: nat)
    requires i <= |s|
    ensures ScanHeader(s, i).foundEnd <==> FindText(s, EnddefinitionsKeyword, i).Some?
    decreases |s| - i
  {
    var kw := EnddefinitionsKeyword;
    if i < |s| {
      var e := LineEnd(s, i);
      var next := NextLine(s, i);
      var line := s[i..e];
      FindTextIsFirst(s, kw, i);
      if Contains(line, kw) {
        var k := FindText(line, kw, 0).value;
        AtWithinLine(s, i, e, k, kw);
      } else {
        ScanFindsKeyword(s, next);
        FindTextIsFirst(s, kw, next);
        var f := FindText(s, kw, i);
        if f.Some? {
          KeywordPastLine(s, i, f.value);
        }
        var g := FindText(s, kw, next);
        if g.Some? {
          assert Lexical.At(s, g.value, kw);
        }
      }
    }
  }

  /** The scan the comment in `parseHeader` describes ("find end following
      $enddefinitions"): once "$enddefinitions" has been read, the header
      goes on up to the first "$end" after it, later on that line or on a
      later line. `seen` says the keyword was on an earlier line. */
  function ScanHeaderIntended(s: string, i: nat, seen: bool): (r: HeaderScan)
    requires i <= |s|
    ensures i <= r.consumed <= |s|
    decreases |s| - i
  {
    if i == |s| then HeaderScan("", |s|, false)
    else
      var line := s[i..LineEnd(s, i)];
      if EndsHeader(line, seen) then
        HeaderScan(line + "\n", NextLine(s, i), true)
      else
        Prepend(line + "\n", ScanHeaderIntended(s, NextLine(s, i), EndSearchStart(line, seen).Some?))
  }

  /** Whether a line ends the intended loop: "$end" occurs where
      `EndSearchStart` says to look. */
  predicate EndsHeader(line: string, seen: bool) {
    var from := EndSearchStart(line, seen);
    from.Some? && FindText(line, EndKeyword, from.value).Some?
  }

  /** Where to look for "$end" on a line: anywhere once the keyword was
      seen earlier, right after the keyword on the line holding it, and
      nowhere before it. */
  function EndSearchStart(line: string, seen: bool): (r: Option<nat>)
    ensures !seen ==> (r.Some? <==> Contains(line, EnddefinitionsKeyword))
  {
    if seen then Some(0)
    else match FindText(line, EnddefinitionsKeyword, 0)
      case None => None
      case Some(k) => Some(k + |EnddefinitionsKeyword|)
  }

  /** Text occurring in a part occurs in the whole. */
  lemma AtShift(x: string, y: string, b: nat, w: string)
    ensures Lexical.At(x, b, w) ==> Lexical.At(x + y, b, w)
    ensures Lexical.At(y, b, w) ==> Lexical.At(x + y, |x| + b, w)
  {
    if Lexical.At(x, b, w) {
      assert (x + y)[b..b + |w|] == x[b..b + |w|];
    }
    if Lexical.At(y, b, w) {
      assert (x + y)[|x| + b..|x| + b + |w|] == y[b..b + |w|];
    }
  }

  /** Once the keyword has been seen, a header that ends holds "$end". */
  lemma {:induction false} IntendedSeenEnds(s: string, i: nat)
    requires i <= |s|
    ensures var r := ScanHeaderIntended(s, i, true);
      r.foundEnd ==> exists b: nat :: Lexical.At(r.header, b, EndKeyword)
    decreases |s| - i
  {
    var r := ScanHeaderIntended(s, i, true);
    if i < |s| && r.foundEnd {
      var line := s[i..LineEnd(s, i)];
      var f := FindText(line, EndKeyword, 0);
      if f.Some? {
        AtShift(line, "\n", f.value, EndKeyword);
      } else {
        IntendedSeenEnds(s, NextLine(s, i));
        var rest := ScanHeaderIntended(s, NextLine(s, i), true);
        var b: nat :| Lexical.At(rest.header, b, EndKeyword);
        AtShift(line + "\n", rest.header, b, EndKeyword);
      }
    }
  }

  /** The intended scan stops only after a "$end" that follows
      "$enddefinitions" and is not the keyword's own first four letters. */
  lemma {:induction false} IntendedEndFollowsKeyword(s: string, i: nat)
    requires i <= |s|
    ensures var r := ScanHeaderIntended(s, i, false);
      r.foundEnd ==> (exists a: nat, b: nat :: a + |EnddefinitionsKeyword| <= b &&
                       Lexical.At(r.header, a, EnddefinitionsKeyword) && Lexical.At(r.header, b, EndKeyword))
    decreases |s| - i
  {
    var kw := EnddefinitionsKeyword;
    var r := ScanHeaderIntended(s, i, false);
    if i < |s| && r.foundEnd {
      var line := s[i..LineEnd(s, i)];
      var from := EndSearchStart(line, false);
      var x := line + "\n";
      if from.Some? {
        var a := FindText(line, kw, 0).value;
        AtShift(line, "\n", a, kw);
        if FindText(line, EndKeyword, from.value).Some? {
          var b := FindText(line, EndKeyword, from.value).value;
          AtShift(line, "\n", b, EndKeyword);
        } else {
          IntendedSeenEnds(s, NextLine(s, i));
          var rest := ScanHeaderIntended(s, NextLine(s, i), true);
          var b: nat :| Lexical.At(rest.header, b, EndKeyword);
          AtShift(x, rest.header, a, kw);
          AtShift(x, rest.header, b, EndKeyword);
        }
      } else {
        IntendedEndFollowsKeyword(s, NextLine(s, i));
        var rest := ScanHeaderIntended(s, NextLine(s, i), false);
        var a: nat, b: nat :| a + |kw| <= b && Lexical.At(rest.header, a, kw) && Lexical.At(rest.header, b, EndKeyword);
        AtShift(x, rest.header, a, kw);
        AtShift(x, rest.header, b, EndKeyword);
      }
    }
  }

  /** Without "$enddefinitions" in the input the intended scan never ends
      the header. */
  lemma {:induction false} IntendedNeedsKeyword(s: string, i: nat, seen: bool)
    requires i <= |s| && FindText(s, EnddefinitionsKeyword, i).None? && !seen
    ensures !ScanHeaderIntended(s, i, seen).foundEnd
    decreases |s| - i
  {
    var kw := EnddefinitionsKeyword;
    if i < |s| {
      var e := LineEnd(s, i);
      var line := s[i..e];
      FindTextIsFirst(s, kw, i);
      if Contains(line, kw) {
        var k := FindText(line, kw, 0).value;
        AtWithinLine(s, i, e, k, kw);
        assert false;
      }
      var next := NextLine(s, i);
      IntendedNeedsKeyword(s, next, false);
    }
  }

  /** Every line holding "$enddefinitions" holds "$end": the first four
      letters of the one are the other. */
  lemma EnddefinitionsHoldsEnd(line: string)
    requires Contains(line, EnddefinitionsKeyword)
    ensures Contains(line, EndKeyword)
  {
    var k := FindText(line, EnddefinitionsKeyword, 0).value;
    assert line[k..k + 4] == line[k..k + 15][..4];
    OccurrenceIsFound(line, EndKeyword, k);
  }

  // -----------------------------------------------------------------------
  // The header loop

  /** `getline`: the text from `pos` up to the next '\n' or the end of the
      input, and where reading goes on, past that '\n'. */
  method GetLine(input: string, pos: nat) returns (line: string, next: nat)
    requires pos < |input|
    ensures next == NextLine(input, pos) && pos < next
    ensures line == input[pos..LineEnd(input, pos)]
    ensures forall k :: 0 <= k < |line| ==> line[k] != '\n'
    ensures next == |input| || (next == pos + |line| + 1 && input[pos + |line|] == '\n')
  {
    var e := LineEnd(input, pos);
    LineEndIsFirst(input, pos);
    line := input[pos..e];
    next := NextLine(input, pos);
  }

  /** One turn of the loop of `parseHeader` as written: the line read
      with `getline` goes into the buffer followed by '\n'; a line holding
      "$enddefinitions" raises the first flag, and the loop breaks when the
      line holds "$end" with that flag up. The first flag is always down
      when a line is read, since the loop stops on the line that raises it. */
  method ReadHeaderLine(input: string, pos: nat, header: string, ghost target: HeaderScan)
    returns (extended: string, next: nat, foundEnd: bool)
    requires pos < |input|
    requires target == Prepend(header, ScanHeader(input, pos))
    ensures pos < next <= |input|
    ensures foundEnd ==> target == HeaderScan(extended, next, true)
    ensures !foundEnd ==> target == Prepend(extended, ScanHeader(input, next))
  {
    var line;
    line, next := GetLine(input, pos);
    extended := header + line + "\n";
    var foundEnddefinitions := false;
    if Contains(line, EnddefinitionsKeyword) {
      foundEnddefinitions := true;
      EnddefinitionsHoldsEnd(line);
    }
    foundEnd := foundEnddefinitions && Contains(line, EndKeyword);
    PrependTwice(header, line + "\n", ScanHeader(input, next));
  }

  /** The loop of `parseHeader` as written, over the whole input. */
  method ReadHeader(input: string) returns (r: HeaderScan)
    ensures r == ScanHeader(input, 0)
    ensures r.foundEnd <==> FindText(input, EnddefinitionsKeyword, 0).Some?
  {
    ghost var target := ScanHeader(input, 0);
    assert target == Prepend("", ScanHeader(input, 0));
    var header := "";
    var pos: nat := 0;
    var foundEnd := false;
    while pos < |input| && !foundEnd
      invariant pos <= |input|
      invariant foundEnd ==> target == HeaderScan(header, pos, true)
      invariant !foundEnd ==> target == Prepend(header, ScanHeader(input, pos))
      decreases |input| - pos
    {
      header, pos, foundEnd := ReadHeaderLine(input, pos, header, target);
    }
    r := HeaderScan(header, pos, foundEnd);
    if !foundEnd {
      assert header + "" == header;
    }
    ScanFindsKeyword(input, 0);
  }

  /** One turn of the loop the comment in `parseHeader` describes: the
      line goes into the buffer; "$end" is looked for anywhere on the line
      once "$enddefinitions" has been seen, right after "$enddefinitions"
      on the line holding it, and not at all before. */
  method ReadHeaderLineIntended(input: string, pos: nat, header: string, seen: bool, ghost target: HeaderScan)
    returns (extended: string, next: nat, nowSeen: bool, foundEnd: bool)
    requires pos < |input|
    requires target == Prepend(header, ScanHeaderIntended(input, pos, seen))
    ensures pos < next <= |input|
    ensures foundEnd ==> target == HeaderScan(extended, next, true)
    ensures !foundEnd ==> target == Prepend(extended, ScanHeaderIntended(input, next, nowSeen))
  {
    var line;
    line, next := GetLine(input, pos);
    extended := header + line + "\n";
    nowSeen := EndSearchStart(line, seen).Some?;
    foundEnd := EndsHeader(line, seen);
    PrependTwice(header, line + "\n", ScanHeaderIntended(input, next, nowSeen));
  }

  /** The intended loop over the whole input. */
  method ReadHeaderIntended(input: string) returns (r: HeaderScan)
    ensures r == ScanHeaderIntended(input, 0, false)
  {
    ghost var target := ScanHeaderIntended(input, 0, false);
    assert target == Prepend("", ScanHeaderIntended(input, 0, false));
    var header := "";
    var pos: nat := 0;
    var foundEnddefinitions := false;
    var foundEnd := false;
    while pos < |input| && !foundEnd
      invariant pos <= |input|
      invariant foundEnd ==> target == HeaderScan(header, pos, true)
      invariant !foundEnd ==> target == Prepend(header, ScanHeaderIntended(input, pos, foundEnddefinitions))
      decreases |input| - pos
    {
      header, pos, foundEnddefinitions, foundEnd :=
        ReadHeaderLineIntended(input, pos, header, foundEnddefinitions, target);
    }
    r := HeaderScan(header, pos, foundEnd);
    if !foundEnd {
      assert header + "" == header;
    }
  }

  // -----------------------------------------------------------------------
  // Results

  /** What a parse reports: a success flag and the error messages, in
      order. */
  datatype Report = Report(success: bool, errors: seq<string>)

  /** A cleared report. */
  const Cleared := Report(true, [])

  /** The run of `declaration_section`, under the grammar `rules`, over
      the header buffer the loop has built. */
  function HeaderRun(rules: Matching.Rules, scan: HeaderScan): Matching.Attempt {
    Matching.DeclarationSectionRun(rules, scan.header, 0)
  }

  /** Whether `parseHeader` returns at all: it does not when the loop found
      the end and the grammar's `text` repetition then spins. */
  predicate HeaderReturns(rules: Matching.Rules, scan: HeaderScan) {
    !scan.foundEnd || !HeaderRun(rules, scan).finish.Spins?
  }

  /** What the rest of `parseHeader` adds to the report once the loop is
      done, under the grammar `rules`: the missing-end message when the loop
      found no end (the flag is left as it is), a failure and the
      internal-error message when the grammar fails on the header buffer,
      and nothing otherwise. With the corrected grammar the report is left
      as it was exactly when the recognizer accepts the buffer. */
  function HeaderReport(rules: Matching.Rules, scan: HeaderScan, start: Report): (r: Report)
    ensures !scan.foundEnd ==> r == start.(errors := start.errors + [MissingEndMessage])
    ensures scan.foundEnd ==> (r == start <==> !HeaderRun(rules, scan).finish.Failed?)
    ensures scan.foundEnd && r != start ==> r == Report(false, start.errors + [InternalErrorMessage])
    ensures scan.foundEnd && rules == Matching.Corrected ==>
      (r == start <==> Lexical.DeclarationSection(scan.header, 0).Some?)
  {
    Matching.DeclarationSectionAgrees(scan.header, 0);
    if !scan.foundEnd then start.(errors := start.errors + [MissingEndMessage])
    else if HeaderRun(rules, scan).finish.Failed? then
      Report(false, start.errors + [InternalErrorMessage])
    else start
  }

  /** Captures whose time numbers come from a table of readable numbers
      have runnable actions. */
  lemma FiredWellFormed(numbers: seq<string>, caps: seq<Lexical.Capture>)
    requires Matching.NumbersFrom(numbers, caps) && forall t :: t in numbers ==> Actions.Readable(t)
    ensures Actions.AllWellFormed(caps)
  {
  }

  /** The captures whose actions run on the file: every action the grammar
      fired before it stopped, including those of a command that failed
      part-way, and none when the grammar is not run. With the corrected
      grammar, a buffer it accepts fires the recognizer's captures. */
  function HeaderCaptures(rules: Matching.Rules, scan: HeaderScan): (caps: seq<Lexical.Capture>)
    requires forall t :: t in rules.numbers ==> Actions.Readable(t)
    ensures Actions.AllWellFormed(caps)
    ensures !scan.foundEnd ==> caps == []
    ensures scan.foundEnd && rules == Matching.Corrected ==>
      var h := Lexical.HeaderSection(scan.header, 0);
      caps == h.caps + Matching.DeclarationCommandRun(rules, scan.header, Lexical.Whitespaces(scan.header, h.end)).fired
    ensures scan.foundEnd && rules == Matching.Corrected && Lexical.DeclarationSection(scan.header, 0).Some? ==>
      caps == Lexical.DeclarationSection(scan.header, 0).value.caps
  {
    if scan.foundEnd then
      var run := HeaderRun(rules, scan);
      Matching.HeaderSectionAgrees(scan.header, 0);
      Matching.DeclarationSectionAgrees(scan.header, 0);
      FiredWellFormed(rules.numbers, run.fired);
      run.fired
    else []
  }

  /** A header the recognizer accepts is reported as nothing by the
      corrected grammar, and the actions that run are the recognizer's. */
  lemma AcceptedHeaderReportsNothing(scan: HeaderScan, start: Report)
    requires scan.foundEnd && Lexical.VcdFile(scan.header).Some?
    requires scan.header == [] || !Lexical.IsWhitespace(scan.header[0])
    ensures HeaderReport(Matching.Corrected, scan, start) == start
    ensures HeaderReturns(Matching.Corrected, scan)
    ensures (Actions.NumbersReadable();
      HeaderCaptures(Matching.Corrected, scan) == Lexical.VcdFile(scan.header).value.caps)
  {
    Grammar.WhitespacesOfRun(scan.header, 0, 0);
    Actions.NumbersReadable();
  }

  // -----------------------------------------------------------------------
  // Line handling on the file

  /** `parseValueChangeLine`: a timestamp line appends its time to the
      file; a '#' line whose number cannot be read throws and appends
      nothing; every other line changes nothing. */
  method ParseValueChangeLine(file: Files.VcdFile, line: string) returns (thrown: Option<ConversionError>)
    modifies file`times
    ensures thrown == (if LineEffectOf(line).Throw? then Some(LineEffectOf(line).error) else None)
    ensures file.times == old(file.times) + (if LineEffectOf(line).Stamp? then [LineEffectOf(line).time] else [])
  {
    thrown := None;
    if line == [] || line[0] == '$' {
      return;
    }
    if line[0] == '#' {
      match Stoull(line[1..])
      case Ok(t) =>
        file.AddTimestamp(t);
      case Err(err) =>
        thrown := Some(err);
    }
  }

  /** One line run after others that threw nothing. */
  lemma RunOneMore(done: seq<string>, line: string)
    requires Run(done).1 == None
    ensures Run(done + [line]).0 ==
      Run(done).0 + (if LineEffectOf(line).Stamp? then [LineEffectOf(line).time] else [])
    ensures Run(done + [line]).1 ==
      (if LineEffectOf(line).Throw? then Some(LineEffectOf(line).error) else None)
  {
    RunAppend(done, [line]);
    assert [line][1..] == [];
  }

  lemma Associative<T>(a: seq<T>, b: seq<T>, c: seq<T>)
    ensures a + (b + c) == (a + b) + c
  {
  }

  /** Cutting a line off the front of the text still to be split. */
  lemma LinesFrom(chunk: string, start: nat, p: nat, tail: string)
    requires start <= p < |chunk| && Lexical.IsNewline(chunk[p])
    requires forall k :: start <= k < p ==> !Lexical.IsNewline(chunk[k])
    ensures Lines(chunk[start..] + tail) == [chunk[start..p]] + Lines(chunk[p + 1..] + tail)
  {
    var t := chunk[start..] + tail;
    var k := p - start;
    assert t[..k] == chunk[start..p];
    assert t[k] == chunk[p];
    assert t[k + 1..] == chunk[p + 1..] + tail;
    LinesAtBreak(t, k);
  }

  /** The end of a chunk with no break left is the carried-over line. */
  lemma NoBreakLeft(chunk: string, start: nat)
    requires start <= |chunk|
    requires forall k :: start <= k < |chunk| ==> !Lexical.IsNewline(chunk[k])
    ensures NoBreak(chunk[start..])
  {
    forall k | 0 <= k < |chunk[start..]|
      ensures !Lexical.IsNewline(chunk[start..][k])
    {
      assert chunk[start..][k] == chunk[start + k];
    }
  }

  /** The inner loop of `parseValueChange`: every complete line of the
      chunk is dispatched in order, and the incomplete rest is answered, to
      be carried over; an exception from a line ends the loop. `tail` is the
      input still unread, which only the proof looks at. */
  method DispatchChunk(file: Files.VcdFile, chunk: string, ghost tail: string)
    returns (rest: string, thrown: Option<ConversionError>, ghost sent: seq<string>)
    modifies file`times
    ensures Lines(chunk + tail) == sent + Lines(rest + tail)
    ensures file.times == old(file.times) + Run(sent).0 && thrown == Run(sent).1
    ensures thrown.None? ==> NoBreak(rest)
  {
    var lineStart: nat := 0;
    var next := FindNextLine(chunk, 0);
    sent := [];
    thrown := None;
    assert chunk[0..] == chunk;
    while next.Some?
      invariant lineStart <= |chunk| && next == FindNextLine(chunk, lineStart)
      invariant Lines(chunk + tail) == sent + Lines(chunk[lineStart..] + tail)
      invariant Run(sent).1 == None && thrown == None
      invariant file.times == old(file.times) + Run(sent).0
      decreases |chunk| - lineStart
    {
      var p := next.value;
      var line := chunk[lineStart..p];
      FindNextLineIsFirst(chunk, lineStart);
      LinesFrom(chunk, lineStart, p, tail);
      RunOneMore(sent, line);
      Associative(old(file.times), Run(sent).0, if LineEffectOf(line).Stamp? then [LineEffectOf(line).time] else []);
      thrown := ParseValueChangeLine(file, line);
      ghost var before := sent;
      sent := sent + [line];
      lineStart := p + 1;
      Associative(before, [line], Lines(chunk[lineStart..] + tail));
      if thrown.Some? {
        rest := chunk[lineStart..];
        return;
      }
      next := FindNextLine(chunk, lineStart);
    }
    FindNextLineIsFirst(chunk, lineStart);
    NoBreakLeft(chunk, lineStart);
    rest := "";
    if lineStart < |chunk| {
      rest := chunk[lineStart..];
    }
    assert rest == chunk[lineStart..];
  }

  /** Reading is under way: the lines of the body are the lines dispatched
      so far, then the lines of the carried-over text (which holds no break)
      and of the body from `pos` on; the dispatched lines threw nothing and
      appended their timestamps to `base`. */
  ghost predicate Progress(body: string, base: seq<nat>, times: seq<nat>, done: seq<string>, carried: string, pos: nat)
    requires pos <= |body|
  {
    Lines(body) == done + Lines(carried + body[pos..]) && NoBreak(carried) &&
    Run(done).1 == None && times == base + Run(done).0
  }

  /** Reading has stopped on an exception: the dispatched lines run as the
      whole body does. */
  ghost predicate Stopped(body: string, base: seq<nat>, times: seq<nat>, done: seq<string>, thrown: Option<ConversionError>)
  {
    Run(Lines(body)) == Run(done) && thrown == Run(done).1 && thrown.Some? && times == base + Run(done).0
  }

  /** One more chunk cut and dispatched: reading goes on past it, or has
      stopped. */
  lemma ChunkStep(body: string, base: seq<nat>, pos: nat, next: nat, leftover: string, chunk: string,
                  emitted: seq<string>, sent: seq<string>, rest: string, thrown: Option<ConversionError>,
                  before: seq<nat>, after: seq<nat>)
    requires pos <= next <= |body| && chunk == leftover + body[pos..next]
    requires Progress(body, base, before, emitted, leftover, pos)
    requires Lines(chunk + body[next..]) == sent + Lines(rest + body[next..])
    requires after == before + Run(sent).0 && thrown == Run(sent).1
    requires thrown.None? ==> NoBreak(rest)
    ensures thrown.None? ==> Progress(body, base, after, emitted + sent, rest, next)
    ensures thrown.Some? ==> Stopped(body, base, after, emitted + sent, thrown)
  {
    ChunkLines(body, pos, next, leftover, chunk, emitted, sent, rest);
    RunAppend(emitted, sent);
    Associative(base, Run(emitted).0, Run(sent).0);
    if thrown.Some? {
      StopsWhole(Lines(body), emitted + sent, Lines(rest + body[next..]));
    }
  }

  /** The lines of the body, after one more chunk has been cut. */
  lemma ChunkLines(body: string, pos: nat, next: nat, leftover: string, chunk: string,
                   emitted: seq<string>, sent: seq<string>, rest: string)
    requires pos <= next <= |body| && chunk == leftover + body[pos..next]
    requires Lines(body) == emitted + Lines(leftover + body[pos..])
    requires Lines(chunk + body[next..]) == sent + Lines(rest + body[next..])
    ensures Lines(body) == (emitted + sent) + Lines(rest + body[next..])
  {
    assert chunk + body[next..] == leftover + body[pos..];
    Associative(emitted, sent, Lines(rest + body[next..]));
  }

  /** Once a line has thrown, the lines after it do not matter. */
  lemma StopsWhole(whole: seq<string>, done: seq<string>, later: seq<string>)
    requires whole == done + later && Run(done).1.Some?
    ensures Run(whole) == Run(done)
  {
    RunAppend(done, later);
  }

  /** The carried-over line is the last line of the body. */
  lemma LastLine(body: string, base: seq<nat>, times: seq<nat>, emitted: seq<string>, leftover: string)
    requires Progress(body, base, times, emitted, leftover, |body|)
    ensures leftover == [] ==> Run(Lines(body)) == Run(emitted)
    ensures leftover != [] ==> Run(Lines(body)) == Run(emitted + [leftover])
  {
    assert leftover + body[|body|..] == leftover;
    LinesOfNoBreak(leftover);
    if leftover == [] {
      assert Lines(body) == emitted;
    }
  }

  /** One pass of the outer loop of `parseValueChange`: the next `count`
      characters, after the line carried over, are cut into lines and
      dispatched, and the incomplete rest is answered. `base` is the file's
      timestamps before the body, which only the proof looks at. */
  method ReadChunk(file: Files.VcdFile, body: string, pos: nat, count: nat, leftover: string,
                   ghost emitted: seq<string>, ghost base: seq<nat>)
    returns (rest: string, thrown: Option<ConversionError>, ghost done: seq<string>, next: nat)
    requires pos + count <= |body| && Progress(body, base, file.times, emitted, leftover, pos)
    modifies file`times
    ensures next == pos + count
    ensures thrown.None? ==> Progress(body, base, file.times, done, rest, next)
    ensures thrown.Some? ==> Stopped(body, base, file.times, done, thrown)
  {
    next := pos + count;
    var chunk := leftover + body[pos..next];
    ghost var sent;
    ghost var before := file.times;
    rest, thrown, sent := DispatchChunk(file, chunk, body[next..]);
    ChunkStep(body, base, pos, next, leftover, chunk, emitted, sent, rest, thrown, before, file.times);
    done := emitted + sent;
  }

  /** The outer loop of `parseValueChange`: the body is read `bufferSize`
      characters at a time, as above. An exception from a line ends the
      loop; otherwise the rest of the last chunk is answered, and the lines
      dispatched and that rest are the lines of the body. */
  method ReadChunks(file: Files.VcdFile, body: string, bufferSize: nat)
    returns (leftover: string, thrown: Option<ConversionError>, ghost emitted: seq<string>)
    requires bufferSize > 0
    modifies file`times
    ensures thrown.None? ==> Progress(body, old(file.times), file.times, emitted, leftover, |body|)
    ensures thrown.Some? ==> Stopped(body, old(file.times), file.times, emitted, thrown)
  {
    leftover := "";
    var pos: nat := 0;
    emitted := [];
    thrown := None;
    assert leftover + body[pos..] == body;
    while pos < |body|
      invariant pos <= |body| && thrown == None
      invariant Progress(body, old(file.times), file.times, emitted, leftover, pos)
      decreases |body| - pos
    {
      var count := if |body| - pos < bufferSize then |body| - pos else bufferSize;
      leftover, thrown, emitted, pos := ReadChunk(file, body, pos, count, leftover, emitted, old(file.times));
      if thrown.Some? {
        return;
      }
    }
  }

  /** `parseValueChange` after clearing the report: the chunks, then the
      line carried over from the last one, if not empty. The lines
      dispatched are exactly the lines of the body, whatever the chunk
      size. */
  method ScanBody(file: Files.VcdFile, body: string, bufferSize: nat) returns (thrown: Option<ConversionError>)
    requires bufferSize > 0
    modifies file`times
    ensures file.times == old(file.times) + Run(Lines(body)).0
    ensures thrown == Run(Lines(body)).1
  {
    var leftover;
    ghost var emitted;
    leftover, thrown, emitted := ReadChunks(file, body, bufferSize);
    if thrown.Some? {
      return;
    }
    LastLine(body, old(file.times), file.times, emitted, leftover);
    if leftover != [] {
      RunOneMore(emitted, leftover);
      thrown := ParseValueChangeLine(file, leftover);
    }
  }

  // -----------------------------------------------------------------------
  // Where the header ends

  /** A line ends at the first '\n' after its start. */
  lemma LineEndAt(s: string, i: nat, k: nat)
    requires i <= k < |s| && s[k] == '\n'
    requires forall j :: i <= j < k ==> s[j] != '\n'
    ensures LineEnd(s, i) == k && NextLine(s, i) == k + 1
  {
    FindCharIsFirst(s, '\n', i);
  }

  /** As written, "$end" on the line after "$enddefinitions" is left out of
      the header buffer: the loop stops on the keyword's own line, and the
      grammar, which needs the "$end", rejects the buffer. */
  lemma EndOnNextLineAsWritten(s: string)
    requires s == "$enddefinitions\n$end\n"
    ensures ScanHeader(s, 0) == HeaderScan("$enddefinitions\n", 16, true)
    ensures HeaderReport(Matching.AsWritten, ScanHeader(s, 0), Cleared) == Report(false, [InternalErrorMessage])
  {
    var kw := EnddefinitionsKeyword;
    assert forall j :: 0 <= j < 15 ==> s[j] != '\n';
    LineEndAt(s, 0, 15);
    var line := s[0..15];
    assert line == kw;
    OccurrenceIsFound(line, kw, 0);
    var h := "$enddefinitions\n";
    assert ScanHeader(s, 0) == HeaderScan(h, 16, true) by {
      assert h == line + "\n";
    }
    assert HeaderRun(Matching.AsWritten, HeaderScan(h, 16, true)).finish.Failed? by {
      assert Lexical.Whitespaces(h, 0) == 0;
      Matching.HeaderSectionAtEnddefinitions(Matching.AsWritten, h, 0);
      Grammar.WhitespacesOfRun(h, 15, 16);
      assert Lexical.CommandEnddefinitions(h, 0) == None;
    }
  }

  /** The first line of the input below, read by the intended scan: the
      keyword is seen, and no "$end" follows it on that line. */
  lemma IntendedFirstLine(s: string)
    requires s == "$enddefinitions\n$end\n"
    ensures ScanHeaderIntended(s, 0, false) == Prepend(s[..16], ScanHeaderIntended(s, 16, true))
  {
    var kw := EnddefinitionsKeyword;
    assert forall j :: 0 <= j < 15 ==> s[j] != '\n';
    LineEndAt(s, 0, 15);
    var line := s[0..15];
    assert line == kw;
    assert FindText(line, kw, 0) == Some(0);
    assert EndSearchStart(line, false) == Some(15);
    assert FindText(line, EndKeyword, 15) == None;
    assert s[..16] == line + "\n";
  }

  /** The second line: "$end" ends the header. */
  lemma IntendedSecondLine(s: string)
    requires s == "$enddefinitions\n$end\n"
    ensures ScanHeaderIntended(s, 16, true) == HeaderScan(s[16..], |s|, true)
  {
    assert forall j :: 16 <= j < 20 ==> s[j] != '\n';
    LineEndAt(s, 16, 20);
    var second := s[16..20];
    assert second == EndKeyword;
    assert FindText(second, EndKeyword, 0) == Some(0);
    assert s[16..] == second + "\n";
  }

  /** With the scan the comment describes, the same input is read up to the
      "$end" on the next line; `EndOnNextLineAccepted` shows the grammar
      then accepts the buffer. */
  lemma EndOnNextLineIntended(s: string)
    requires s == "$enddefinitions\n$end\n"
    ensures ScanHeaderIntended(s, 0, false) == HeaderScan(s, |s|, true)
  {
    IntendedFirstLine(s);
    IntendedSecondLine(s);
    assert s[..16] + s[16..] == s;
  }

  /** The grammar accepts the whole of that input, so a header buffer
      holding all of it is reported as nothing. */
  lemma EndOnNextLineAccepted(s: string)
    requires s == "$enddefinitions\n$end\n"
    ensures Lexical.VcdFile(s) == Some(Lexical.Parsed(|s|, []))
    ensures HeaderReport(Matching.Corrected, HeaderScan(s, |s|, true), Cleared) == Cleared
  {
    assert Lexical.At(s, 0, "$enddefinitions") && Lexical.At(s, 16, "$end");
    Grammar.MinimalHeader(s, 0, 16);
    AcceptedHeaderReportsNothing(HeaderScan(s, |s|, true), Cleared);
  }

  /** Without "$enddefinitions" the header step reports the missing end,
      and leaves the success flag up. An empty input is such a case. */
  lemma MissingEndReported(s: string)
    requires FindText(s, EnddefinitionsKeyword, 0).None?
    ensures HeaderReport(Matching.AsWritten, ScanHeader(s, 0), Cleared) == Report(true, [MissingEndMessage])
    ensures ScanHeader(s, 0).consumed == |s|
  {
    ScanFindsKeyword(s, 0);
    NoEndConsumesAll(s, 0);
  }

  /** The same holds of the intended scan. */
  lemma MissingEndReportedIntended(s: string)
    requires FindText(s, EnddefinitionsKeyword, 0).None?
    ensures HeaderReport(Matching.Corrected, ScanHeaderIntended(s, 0, false), Cleared) == Report(true, [MissingEndMessage])
  {
    IntendedNeedsKeyword(s, 0, false);
  }

  /** A header buffer with "$timescale 10 ns": as written, the action of
      the number "1" sets the resolution to 1 and the grammar then fails,
      so the report carries the internal error; the corrected grammar
      accepts it with resolution 10 in nanoseconds. */
  lemma TimescaleTenReported(s: string, st: Actions.HeaderState)
    requires s == "$timescale 10 ns $end\n" + "$enddefinitions $end\n" && Actions.Linked(st)
    ensures var scan := HeaderScan(s, |s|, true);
      HeaderReturns(Matching.AsWritten, scan) &&
      HeaderReport(Matching.AsWritten, scan, Cleared) == Report(false, [InternalErrorMessage]) &&
      (Actions.NumbersReadable();
       Actions.Fold(st, HeaderCaptures(Matching.AsWritten, scan)) == st.(timeResolution := 1))
    ensures var scan := HeaderScan(s, |s|, true);
      HeaderReport(Matching.Corrected, scan, Cleared) == Cleared &&
      (Actions.NumbersReadable();
       Actions.Fold(st, HeaderCaptures(Matching.Corrected, scan)) ==
         st.(timeResolution := 10, timeUnits := Actions.TimeUnitOf("ns")))
  {
    Matching.TimescaleTenRun(s);
    Actions.NumbersReadable();
    var scan := HeaderScan(s, |s|, true);
    assert HeaderCaptures(Matching.AsWritten, scan) == [Lexical.TimeNumberText("1")];
    assert HeaderCaptures(Matching.Corrected, scan) == [Lexical.TimeNumberText("10"), Lexical.TimeUnitText("ns")];
    TimescaleActions(st);
  }

  /** The actions of the captures above. */
  lemma TimescaleActions(st: Actions.HeaderState)
    requires Actions.Linked(st)
    ensures Actions.Fold(st, [Lexical.TimeNumberText("1")]) == st.(timeResolution := 1)
    ensures Actions.Fold(st, [Lexical.TimeNumberText("10"), Lexical.TimeUnitText("ns")]) ==
      st.(timeResolution := 10, timeUnits := Actions.TimeUnitOf("ns"))
  {
    TimeNumberOneAction(st);
    TimeNumberTenAction(st);
  }

  lemma TimeNumberOneAction(st: Actions.HeaderState)
    requires Actions.Linked(st)
    ensures Actions.Fold(st, [Lexical.TimeNumberText("1")]) == st.(timeResolution := 1)
  {
    Actions.TimeResolutionsFit();
    Actions.FoldOne(st, Lexical.TimeNumberText("1"));
  }

  lemma TimeNumberTenAction(st: Actions.HeaderState)
    requires Actions.Linked(st)
    ensures Actions.Fold(st, [Lexical.TimeNumberText("10"), Lexical.TimeUnitText("ns")]) ==
      st.(timeResolution := 10, timeUnits := Actions.TimeUnitOf("ns"))
  {
    Actions.TimeResolutionsFit();
    Actions.FoldTwo(st, Lexical.TimeNumberText("10"), Lexical.TimeUnitText("ns"));
  }

  /** A header buffer with "$comment $end" and then a date: as written,
      the comment's text runs over the date, so the comment is
      "$end $date x" and the date is left as it was; the corrected grammar
      gives an empty comment and the date "x". */
  lemma CommentThenDateReported(s: string, st: Actions.HeaderState)
    requires s == "$comment $end\n" + "$date x $end\n" + "$enddefinitions $end\n" && Actions.Linked(st)
    ensures var scan := HeaderScan(s, |s|, true);
      HeaderReport(Matching.AsWritten, scan, Cleared) == Cleared &&
      (Actions.NumbersReadable();
       Actions.Fold(st, HeaderCaptures(Matching.AsWritten, scan)) == st.(comment := "$end $date x"))
    ensures var scan := HeaderScan(s, |s|, true);
      HeaderReport(Matching.Corrected, scan, Cleared) == Cleared &&
      (Actions.NumbersReadable();
       Actions.Fold(st, HeaderCaptures(Matching.Corrected, scan)) == st.(comment := "", date := "x"))
  {
    Matching.CommentThenDateRun(s);
    Actions.NumbersReadable();
    var scan := HeaderScan(s, |s|, true);
    assert HeaderCaptures(Matching.AsWritten, scan) == [Lexical.CommentText("$end\n$date x")];
    assert HeaderCaptures(Matching.Corrected, scan) == [Lexical.CommentText(""), Lexical.DateText("x")];
    CommentThenDateActions(st);
  }

  /** The actions of the captures above. */
  lemma CommentThenDateActions(st: Actions.HeaderState)
    requires Actions.Linked(st)
    ensures Actions.Fold(st, [Lexical.CommentText("$end\n$date x")]) == st.(comment := "$end $date x")
    ensures Actions.Fold(st, [Lexical.CommentText(""), Lexical.DateText("x")]) == st.(comment := "", date := "x")
  {
    Actions.SwallowedDateComment("$end\n$date x");
    Actions.BlankNormalizesToEmpty("");
    Actions.FoldOne(st, Lexical.CommentText("$end\n$date x"));
    Actions.FoldTwo(st, Lexical.CommentText(""), Lexical.DateText("x"));
  }

  /** A header buffer declaring a `realtime` variable: as written, the
      grammar fails and the report carries the internal error. */
  lemma RealtimeReported(s: string)
    requires s == "$var realtime 1 ! t $end\n" + "$enddefinitions $end\n"
    ensures HeaderReport(Matching.AsWritten, HeaderScan(s, |s|, true), Cleared) == Report(false, [InternalErrorMessage])
  {
    Matching.RealtimeRun(s);
  }

  /** A header buffer whose comment holds a character that is neither
      printable ASCII nor whitespace: as written, `parseHeader` never
      returns; the corrected grammar fails on it and reports the internal
      error. */
  lemma NonTextCommentHangs(s: string, x: char)
    requires !Lexical.IsTextChar(x)
    requires s == "$comment " + [x] + " $end\n" + "$enddefinitions $end\n"
    ensures !HeaderReturns(Matching.AsWritten, HeaderScan(s, |s|, true))
    ensures HeaderReport(Matching.Corrected, HeaderScan(s, |s|, true), Cleared) == Report(false, [InternalErrorMessage])
  {
    Matching.NonTextCommentRun(s, x);
  }

  /** A scan that finds no end has read the whole input. */
  lemma {:induction false} NoEndConsumesAll(s: string, i: nat)
    requires i <= |s| && !ScanHeader(s, i).foundEnd
    ensures ScanHeader(s, i).consumed == |s|
    decreases |s| - i
  {
    if i < |s| {
      NoEndConsumesAll(s, NextLine(s, i));
    }
  }

  // -----------------------------------------------------------------------
  // The parser object

  /** `VCDParser`: the parse report is the state it keeps between calls.
      The file the actions write into is passed to each operation instead
      of being held in a field. */
  class VcdParser {
    var result: Report

    constructor ()
      ensures result == Cleared
    {
      result := Cleared;
    }

    /** Lines 39 to 53 of `parseHeader`, under the grammar `rules`: report
        a missing end, or run the grammar over the buffer with the actions on
        the file. Every action the grammar fires runs, even when the grammar
        fails further on. When the grammar spins, `returned` is false: the
        actions fired before it have run, and the report is never added
        to. */
    method FinishHeader(file: Files.VcdFile, rules: Matching.Rules, scan: HeaderScan) returns (returned: bool)
      requires file.Valid() && forall t :: t in rules.numbers ==> Actions.Readable(t)
      modifies this, file
      ensures returned == HeaderReturns(rules, scan)
      ensures result == if returned then HeaderReport(rules, scan, old(result)) else old(result)
      ensures file.Valid() && Actions.Linked(old(Actions.HeaderOf(file)))
      ensures Actions.HeaderOf(file) == Actions.Fold(old(Actions.HeaderOf(file)), HeaderCaptures(rules, scan))
      ensures Actions.Tree(old(Actions.HeaderOf(file))) ==> Actions.Tree(Actions.HeaderOf(file))
      ensures file.signals == old(file.signals) && file.times == old(file.times) && file.values == old(file.values)
    {
      if !scan.foundEnd {
        result := result.(errors := result.errors + [MissingEndMessage]);
        Actions.ApplyAll(file, []);
        return true;
      }
      var run := HeaderRun(rules, scan);
      Actions.ApplyAll(file, HeaderCaptures(rules, scan));
      returned := !run.finish.Spins?;
      if run.finish.Failed? {
        result := Report(false, result.errors + [InternalErrorMessage]);
      }
    }

    /** `parseHeader`: clears the report, reads the header lines and
        finishes as above with the grammar as written; answers how much of
        the input it consumed, where the value changes start, and whether
        it returns at all. */
    method ParseHeader(file: Files.VcdFile, input: string) returns (consumed: nat, returned: bool)
      requires file.Valid()
      modifies this, file
      ensures consumed == ScanHeader(input, 0).consumed <= |input|
      ensures returned == HeaderReturns(Matching.AsWritten, ScanHeader(input, 0))
      ensures result == if returned then HeaderReport(Matching.AsWritten, ScanHeader(input, 0), Cleared) else Cleared
      ensures file.Valid() && Actions.Linked(old(Actions.HeaderOf(file)))
      ensures (Actions.NumbersReadable();
        Actions.HeaderOf(file) == Actions.Fold(old(Actions.HeaderOf(file)), HeaderCaptures(Matching.AsWritten, ScanHeader(input, 0))))
      ensures Actions.Tree(old(Actions.HeaderOf(file))) ==> Actions.Tree(Actions.HeaderOf(file))
      ensures file.signals == old(file.signals) && file.times == old(file.times) && file.values == old(file.values)
    {
      result := Cleared;
      var scan := ReadHeader(input);
      Actions.NumbersReadable();
      returned := FinishHeader(file, Matching.AsWritten, scan);
      consumed := scan.consumed;
    }

    /** `parseValueChange`: clears the report and dispatches the lines of
        the rest of the input. */
    method ParseValueChange(file: Files.VcdFile, body: string, bufferSize: nat) returns (thrown: Option<ConversionError>)
      requires bufferSize > 0
      modifies this, file`times
      ensures result == Cleared
      ensures file.times == old(file.times) + Run(Lines(body)).0
      ensures thrown == Run(Lines(body)).1
    {
      result := Cleared;
      thrown := ScanBody(file, body, bufferSize);
    }

    /** `parse` as written: the header, then the value changes from where
        the header stopped. The second step clears the report, so whatever
        the header reported is lost. When the header's grammar spins, the
        value changes are never read. */
    method Parse(file: Files.VcdFile, input: string, bufferSize: nat) returns (returned: bool, thrown: Option<ConversionError>)
      requires file.Valid() && bufferSize > 0
      modifies this, file
      ensures result == Cleared
      ensures var scan := ScanHeader(input, 0);
        returned == HeaderReturns(Matching.AsWritten, scan) &&
        (Actions.NumbersReadable();
         Actions.HeaderOf(file) == Actions.Fold(old(Actions.HeaderOf(file)), HeaderCaptures(Matching.AsWritten, scan))) &&
        (returned ==> (file.times == old(file.times) + Run(Lines(input[scan.consumed..])).0 &&
          thrown == Run(Lines(input[scan.consumed..])).1)) &&
        (!returned ==> file.times == old(file.times) && thrown == None)
      ensures file.signals == old(file.signals) && file.values == old(file.values)
    {
      result := Cleared;
      var consumed;
      consumed, returned := ParseHeader(file, input);
      if !returned {
        return returned, None;
      }
      thrown := ParseValueChange(file, input[consumed..], bufferSize);
    }

    /** `parseHeader` with the loop its comment describes and the corrected
        grammar, which always returns. */
    method ParseHeaderIntended(file: Files.VcdFile, input: string) returns (consumed: nat)
      requires file.Valid()
      modifies this, file
      ensures consumed == ScanHeaderIntended(input, 0, false).consumed <= |input|
      ensures result == HeaderReport(Matching.Corrected, ScanHeaderIntended(input, 0, false), Cleared)
      ensures file.Valid()
      ensures (Actions.NumbersReadable();
        Actions.HeaderOf(file) == Actions.Fold(old(Actions.HeaderOf(file)), HeaderCaptures(Matching.Corrected, ScanHeaderIntended(input, 0, false))))
      ensures file.signals == old(file.signals) && file.times == old(file.times) && file.values == old(file.values)
    {
      result := Cleared;
      var scan := ReadHeaderIntended(input);
      Actions.NumbersReadable();
      var returned := FinishHeader(file, Matching.Corrected, scan);
      consumed := scan.consumed;
    }

    /** `parse` as evidently intended: the report is cleared once, so the
        header's errors survive the value changes. */
    method ParseIntended(file: Files.VcdFile, input: string, bufferSize: nat) returns (thrown: Option<ConversionError>)
      requires file.Valid() && bufferSize > 0
      modifies this, file
      ensures result == HeaderReport(Matching.Corrected, ScanHeaderIntended(input, 0, false), Cleared)
      ensures var scan := ScanHeaderIntended(input, 0, false);
        (Actions.NumbersReadable();
         Actions.HeaderOf(file) == Actions.Fold(old(Actions.HeaderOf(file)), HeaderCaptures(Matching.Corrected, scan))) &&
        file.times == old(file.times) + Run(Lines(input[scan.consumed..])).0 &&
        thrown == Run(Lines(input[scan.consumed..])).1
      ensures file.signals == old(file.signals) && file.values == old(file.values)
    {
      var consumed := ParseHeaderIntended(file, input);
      thrown := ScanBody(file, input[consumed..], bufferSize);
    }
  }
}
