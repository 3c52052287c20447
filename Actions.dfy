/** The grammar actions (VCDActions.hpp): what each captured piece of the
    header does to the file. The header-relevant part of the file is also
    described as a value, `HeaderState`, so that a whole sequence of
    captures can be reasoned about with `Fold`. */
module Actions {
  import opened Wrappers
  import opened Types
  import Decimal
  import Utils
  import Lexical
  import Grammar
  import Files

  // -----------------------------------------------------------------------
  // NormalizeSpaces

  /** The characters a stream's `>>` treats as separators: blank, tab, line
      feed, vertical tab, form feed, carriage return. */
  predicate IsStreamSpace(c: char) {
    c == ' ' || c == '\t' || c == '\n' || c == '\r' || c as int == 11 || c as int == 12
  }

  /** The end of the run of separators starting at `i`. */
  function SkipSpaces(s: string, i: nat): (j: nat)
    requires i <= |s|
    ensures i <= j <= |s|
    ensures j < |s| ==> !IsStreamSpace(s[j])
    decreases |s| - i
  {
    if i == |s| || !IsStreamSpace(s[i]) then i else SkipSpaces(s, i + 1)
  }

  /** Everything skipped is a separator. */
  lemma {:induction false} SkippedAreSpaces(s: string, i: nat)
    requires i <= |s|
    ensures forall k :: i <= k < SkipSpaces(s, i) ==> IsStreamSpace(s[k])
    decreases |s| - i
  {
    if i < |s| && IsStreamSpace(s[i]) {
      SkippedAreSpaces(s, i + 1);
    }
  }

  /** The end of the run of non-separators starting at `i`. */
  function WordEnd(s: string, i: nat): (j: nat)
    requires i <= |s|
    ensures i <= j <= |s|
    ensures j < |s| ==> IsStreamSpace(s[j])
    decreases |s| - i
  {
    if i == |s| || IsStreamSpace(s[i]) then i else WordEnd(s, i + 1)
  }

  /** A word holds no separator. */
  lemma {:induction false} WordHasNoSpace(s: string, i: nat)
    requires i <= |s|
    ensures forall k :: i <= k < WordEnd(s, i) ==> !IsStreamSpace(s[k])
    decreases |s| - i
  {
    if i < |s| && !IsStreamSpace(s[i]) {
      WordHasNoSpace(s, i + 1);
    }
  }

  /** The words `>>` extracts from `s[i..]`, in order. */
  function WordsFrom(s: string, i: nat): seq<string>
    requires i <= |s|
    decreases |s| - i
  {
    var a := SkipSpaces(s, i);
    if a == |s| then [] else
      var b := WordEnd(s, a);
      [s[a..b]] + WordsFrom(s, b)
  }

  /** The maximal runs of non-separators of `s`, in order. */
  function Words(s: string): seq<string> {
    WordsFrom(s, 0)
  }

  /** A non-empty string without separators. */
  predicate IsWord(w: string) {
    w != [] && forall k :: 0 <= k < |w| ==> !IsStreamSpace(w[k])
  }

  /** Words joined by single blanks. */
  function Join(ws: seq<string>): string {
    if ws == [] then "" else if |ws| == 1 then ws[0] else ws[0] + " " + Join(ws[1..])
  }

  /** The specification of `NormalizeSpaces`: the words, joined by single
      blanks. */
  function Normalize(s: string): string {
    Join(Words(s))
  }

  /** Text with no separator other than single blanks between words: no
      leading or trailing blank, no two adjacent blanks, no tab or line
      break. */
  predicate Normalized(r: string) {
    (r != [] ==> r[0] != ' ' && r[|r| - 1] != ' ') &&
    (forall k :: 0 <= k < |r| && IsStreamSpace(r[k]) ==> r[k] == ' ') &&
    (forall k :: 0 <= k < |r| - 1 ==> r[k] != ' ' || r[k + 1] != ' ')
  }

  lemma {:induction false} JoinAppend(ws: seq<string>, w: string)
    requires ws != []
    ensures Join(ws + [w]) == Join(ws) + " " + w
  {
    if |ws| == 1 {
      assert ws + [w] == [ws[0], w];
    } else {
      assert (ws + [w])[1..] == ws[1..] + [w];
      JoinAppend(ws[1..], w);
    }
  }

  /** `NormalizeSpaces`: reads words with `>>` and writes them separated by
      a blank, the `first` flag suppressing the blank before the first. */
  method NormalizeSpaces(input: string) returns (out: string)
    ensures out == Normalize(input)
    ensures Normalized(out)
  {
    out := "";
    var first := true;
    var i := 0;
    ghost var done: seq<string> := [];
    while i < |input|
      invariant i <= |input|
      invariant done + WordsFrom(input, i) == Words(input)
      invariant out == Join(done)
      invariant first <==> done == []
      decreases |input| - i
    {
      var a, b := ReadWord(input, i);
      if a == |input| {
        assert WordsFrom(input, i) == [];
        i := a;
      } else {
        var word := input[a..b];
        assert WordsFrom(input, i) == [word] + WordsFrom(input, b);
        if !first {
          JoinAppend(done, word);
          out := out + " ";
        }
        out := out + word;
        first := false;
        done := done + [word];
        i := b;
      }
    }
    assert WordsFrom(input, i) == [] && done + [] == done;
    WordsAreWords(input, 0);
    JoinIsNormalized(Words(input));
  }

  /** One `>>` extraction: skips the separators from `i`, then reads the
      word up to the next separator or the end. */
  method ReadWord(input: string, i: nat) returns (a: nat, b: nat)
    requires i <= |input|
    ensures a == SkipSpaces(input, i) && b == WordEnd(input, a)
  {
    a := i;
    while a < |input| && IsStreamSpace(input[a])
      invariant i <= a <= |input|
      invariant SkipSpaces(input, a) == SkipSpaces(input, i)
    {
      a := a + 1;
    }
    b := a;
    while b < |input| && !IsStreamSpace(input[b])
      invariant a <= b <= |input|
      invariant WordEnd(input, b) == WordEnd(input, a)
    {
      b := b + 1;
    }
  }

  /** Every extracted word is a non-empty run without separators. */
  lemma {:induction false} WordsAreWords(s: string, i: nat)
    requires i <= |s|
    ensures forall w :: w in WordsFrom(s, i) ==> IsWord(w)
    decreases |s| - i
  {
    var a := SkipSpaces(s, i);
    if a < |s| {
      var b := WordEnd(s, a);
      WordsAreWords(s, b);
      WordHasNoSpace(s, a);
      var w := s[a..b];
      forall k | 0 <= k < |w|
        ensures !IsStreamSpace(w[k])
      {
        assert w[k] == s[a + k];
      }
    }
  }

  /** Joining words gives normalized text. */
  lemma {:induction false} JoinIsNormalized(ws: seq<string>)
    requires forall w :: w in ws ==> IsWord(w)
    ensures Normalized(Join(ws))
    ensures ws != [] ==> Join(ws) != []
  {
    if |ws| > 1 {
      JoinIsNormalized(ws[1..]);
      var r, h, t := Join(ws), ws[0], Join(ws[1..]);
      assert r == h + " " + t;
      assert ws[0] in ws;
      forall k | 0 <= k < |r| - 1
        ensures r[k] != ' ' || r[k + 1] != ' '
      {
        if k + 1 < |h| {
          assert r[k] == h[k];
        } else if k + 1 == |h| {
          assert r[k] == h[k];
        } else if k == |h| {
          assert r[k + 1] == t[0];
        } else {
          assert r[k] == t[k - |h| - 1] && r[k + 1] == t[k - |h|];
        }
      }
      forall k | 0 <= k < |r| && IsStreamSpace(r[k])
        ensures r[k] == ' '
      {
        if k > |h| {
          assert r[k] == t[k - |h| - 1];
        }
      }
    } else if |ws| == 1 {
      assert ws[0] in ws;
    }
  }

  /** `NormalizeSpaces` of empty or all-separator text is empty. */
  lemma BlankNormalizesToEmpty(s: string)
    requires forall k :: 0 <= k < |s| ==> IsStreamSpace(s[k])
    ensures Normalize(s) == ""
  {
    assert SkipSpaces(s, 0) == |s|;
  }

  /** Skipping one separator does not change the words that follow. */
  lemma WordsFromSkipsSpace(s: string, i: nat)
    requires i < |s| && IsStreamSpace(s[i])
    ensures WordsFrom(s, i) == WordsFrom(s, i + 1)
  {
  }

  /** The words of `p + q` from inside `q` are the words of `q`. */
  lemma {:induction false} WordsFromShift(p: string, q: string, i: nat)
    requires i <= |q|
    ensures WordsFrom(p + q, |p| + i) == WordsFrom(q, i)
    decreases |q| - i
  {
    SkipShift(p, q, i);
    var a := SkipSpaces(q, i);
    if a < |q| {
      WordsFromShift(p, q, WordEnd(q, a));
      ShiftOneWord(p, q, i);
    }
  }

  /** The first word of `q` is the first word of `p + q` read from the same
      place, so the words agree when the words after it agree. */
  lemma ShiftOneWord(p: string, q: string, i: nat)
    requires i <= |q| && SkipSpaces(q, i) < |q|
    requires SkipSpaces(p + q, |p| + i) == |p| + SkipSpaces(q, i)
    requires var b := WordEnd(q, SkipSpaces(q, i)); WordsFrom(p + q, |p| + b) == WordsFrom(q, b)
    ensures WordsFrom(p + q, |p| + i) == WordsFrom(q, i)
  {
    var a := SkipSpaces(q, i);
    WordEndShift(p, q, a);
    SliceOfSuffix(p, q, a, WordEnd(q, a));
  }

  /** A slice inside the second part of a concatenation. */
  lemma SliceOfSuffix(p: string, q: string, a: nat, b: nat)
    requires a <= b <= |q|
    ensures (p + q)[|p| + a..|p| + b] == q[a..b]
  {
    var x, y := (p + q)[|p| + a..|p| + b], q[a..b];
    forall m | 0 <= m < |x|
      ensures x[m] == y[m]
    {
      assert x[m] == (p + q)[|p| + a + m];
    }
  }

  lemma {:induction false} SkipShift(p: string, q: string, i: nat)
    requires i <= |q|
    ensures SkipSpaces(p + q, |p| + i) == |p| + SkipSpaces(q, i)
    decreases |q| - i
  {
    if i < |q| {
      assert (p + q)[|p| + i] == q[i];
      if IsStreamSpace(q[i]) {
        SkipShift(p, q, i + 1);
      }
    }
  }

  lemma {:induction false} WordEndShift(p: string, q: string, i: nat)
    requires i <= |q|
    ensures WordEnd(p + q, |p| + i) == |p| + WordEnd(q, i)
    decreases |q| - i
  {
    if i < |q| {
      assert (p + q)[|p| + i] == q[i];
      if !IsStreamSpace(q[i]) {
        WordEndShift(p, q, i + 1);
      }
    }
  }

  /** Reading back words joined by blanks gives the same words. */
  lemma {:induction false} WordsOfJoin(ws: seq<string>)
    requires forall w :: w in ws ==> IsWord(w)
    ensures Words(Join(ws)) == ws
  {
    if |ws| == 1 {
      assert ws[0] in ws;
      WordsOfWord(ws[0]);
    } else if |ws| > 1 {
      assert ws[0] in ws;
      WordsOfWordThen(ws[0], " ", Join(ws[1..]));
      WordsOfJoin(ws[1..]);
      assert ws == [ws[0]] + ws[1..];
    }
  }

  /** A word alone reads back as itself. */
  lemma WordsOfWord(h: string)
    requires IsWord(h)
    ensures Words(h) == [h]
  {
    WordRunEnd(h, 0, |h|);
    assert h[0..|h|] == h;
    assert WordsFrom(h, |h|) == [];
  }

  /** A word followed by separators contributes that word, then the words
      of the rest. */
  lemma WordsOfWordThen(h: string, sep: string, t: string)
    requires IsWord(h) && sep != []
    requires forall k :: 0 <= k < |sep| ==> IsStreamSpace(sep[k])
    ensures Words(h + sep + t) == [h] + Words(t)
  {
    FirstWord(h, sep + t);
    assert h + (sep + t) == h + sep + t;
    SeparatorsThenRest(h, sep, t);
  }

  /** The first word of a word followed by a separator (or nothing). */
  lemma FirstWord(h: string, rest: string)
    requires IsWord(h) && (rest != [] ==> IsStreamSpace(rest[0]))
    ensures Words(h + rest) == [h] + WordsFrom(h + rest, |h|)
  {
    var s := h + rest;
    assert s[0] == h[0];
    assert WordEnd(s, 0) == |h| by {
      assert forall k :: 0 <= k < |h| ==> s[k] == h[k];
      WordRunEnd(s, 0, |h|);
    }
    assert s[0..|h|] == h;
  }

  /** After a word, its separators are skipped and the rest is read. */
  lemma SeparatorsThenRest(h: string, sep: string, t: string)
    requires forall k :: 0 <= k < |sep| ==> IsStreamSpace(sep[k])
    ensures WordsFrom(h + sep + t, |h|) == Words(t)
  {
    SkipSeparators(h, sep, t);
    WordsFromShift(h + sep, t, 0);
  }

  lemma SkipSeparators(h: string, sep: string, t: string)
    requires forall k :: 0 <= k < |sep| ==> IsStreamSpace(sep[k])
    ensures WordsFrom(h + sep + t, |h|) == WordsFrom(h + sep + t, |h| + |sep|)
  {
    var s := h + sep + t;
    assert forall k :: |h| <= k < |h| + |sep| ==> s[k] == sep[k - |h|];
    WordsFromSkipRun(s, |h|, |h| + |sep|);
  }

  /** Separators in front of the rest do not change its words. */
  lemma {:induction false} WordsFromSkipRun(s: string, i: nat, j: nat)
    requires i <= j <= |s|
    requires forall k :: i <= k < j ==> IsStreamSpace(s[k])
    ensures WordsFrom(s, i) == WordsFrom(s, j)
    decreases j - i
  {
    if i < j {
      WordsFromSkipsSpace(s, i);
      WordsFromSkipRun(s, i + 1, j);
    }
  }

  /** A word run of `s` from `i` that ends at a separator ends there. */
  lemma {:induction false} PrefixWordEnd(s: string, i: nat, j: nat)
    requires i <= j < |s| && IsStreamSpace(s[j])
    requires forall k :: i <= k < j ==> !IsStreamSpace(s[k])
    ensures WordEnd(s, i) == j
  {
    WordRunEnd(s, i, j);
  }

  /** A run of non-separators from `i` to `j`, followed by a separator or
      the end, is where `WordEnd` stops. */
  lemma {:induction false} WordRunEnd(s: string, i: nat, j: nat)
    requires i <= j <= |s| && (j < |s| ==> IsStreamSpace(s[j]))
    requires forall k :: i <= k < j ==> !IsStreamSpace(s[k])
    ensures WordEnd(s, i) == j
    decreases j - i
  {
    if i < j {
      WordRunEnd(s, i + 1, j);
    }
  }

  /** A run of separators from `i` to `j`, followed by a non-separator or
      the end, is where `SkipSpaces` stops. */
  lemma {:induction false} SpaceRunEnd(s: string, i: nat, j: nat)
    requires i <= j <= |s| && (j < |s| ==> !IsStreamSpace(s[j]))
    requires forall k :: i <= k < j ==> IsStreamSpace(s[k])
    ensures SkipSpaces(s, i) == j
    decreases j - i
  {
    if i < j {
      SpaceRunEnd(s, i + 1, j);
    }
  }

  /** `NormalizeSpaces` is idempotent. */
  lemma NormalizeIdempotent(s: string)
    ensures Normalize(Normalize(s)) == Normalize(s)
  {
    WordsAreWords(s, 0);
    WordsOfJoin(Words(s));
  }

  /** The message of a multi-line comment, as in the reader's tests. */
  lemma MultilineComment(s: string)
    requires s == "This is\n\t a   test"
    ensures Normalize(s) == "This is a test"
  {
    var ws := ["This", "is", "a", "test"];
    assert Words(s) == ws by {
      assert s == "This" + " " + ("is" + "\n\t " + ("a" + "   " + "test"));
      assert IsWord("This") && IsWord("is") && IsWord("a") && IsWord("test");
      WordsOfWord("test");
      WordsOfWordThen("a", "   ", "test");
      WordsOfWordThen("is", "\n\t ", "a" + "   " + "test");
      WordsOfWordThen("This", " ", "is" + "\n\t " + ("a" + "   " + "test"));
    }
    assert Join(ws) == "This is a test" by {
      assert Join(ws) == "This" + " " + Join(ws[1..]);
      assert Join(ws[1..]) == "is" + " " + Join(ws[2..]);
      assert Join(ws[2..]) == "a" + " " + Join(ws[3..]);
      assert Join(ws[3..]) == "test";
      assert "This" + " " + ("is" + " " + ("a" + " " + "test")) == "This is a test";
    }
  }

  /** A comment that swallowed "$end" and the next line is stored on one
      line. */
  lemma SwallowedDateComment(s: string)
    requires s == "$end\n$date x"
    ensures Normalize(s) == "$end $date x"
  {
    var ws := ["$end", "$date", "x"];
    assert Words(s) == ws by {
      assert s == "$end" + "\n" + ("$date" + " " + "x");
      assert IsWord("$end") && IsWord("$date") && IsWord("x");
      WordsOfWord("x");
      WordsOfWordThen("$date", " ", "x");
      WordsOfWordThen("$end", "\n", "$date" + " " + "x");
    }
    assert Join(ws) == "$end $date x" by {
      assert Join(ws) == "$end" + " " + Join(ws[1..]);
      assert Join(ws[1..]) == "$date" + " " + Join(ws[2..]);
      assert Join(ws[2..]) == "x";
    }
  }

  // -----------------------------------------------------------------------
  // Keyword tables

  /** The time unit named by a captured `time_unit`; anything else is the
      unknown unit. */
  function TimeUnitOf(unit: string): (u: TimeUnit)
    ensures u != TimeUnknown <==> unit in Lexical.TimeUnits
    ensures u != TimeUnknown ==> Utils.TimeUnitName(u) == unit
  {
    if unit == "s" then TimeS
    else if unit == "ms" then TimeMs
    else if unit == "us" then TimeUs
    else if unit == "ns" then TimeNs
    else if unit == "ps" then TimePs
    else if unit == "fs" then TimeFs
    else TimeUnknown
  }

  /** Printing a known unit and reading it back gives the unit. */
  lemma TimeUnitRoundTrip(u: TimeUnit)
    requires u != TimeUnknown
    ensures TimeUnitOf(Utils.TimeUnitName(u)) == u
  {
  }

  /** The scope kind named by a captured `scope_type`; anything else is the
      unknown kind. The root kind is never produced. */
  function ScopeTypeOf(kind: string): (t: ScopeType)
    ensures t != ScopeUnknown <==> kind in Lexical.ScopeTypes
    ensures t != ScopeRoot
  {
    if kind == "begin" then ScopeBegin
    else if kind == "fork" then ScopeFork
    else if kind == "function" then ScopeFunction
    else if kind == "module" then ScopeModule
    else if kind == "task" then ScopeTask
    else ScopeUnknown
  }

  /** Distinct scope keywords give distinct kinds. */
  lemma ScopeTypeOfInjective(a: string, b: string)
    requires a in Lexical.ScopeTypes && b in Lexical.ScopeTypes
    ensures ScopeTypeOf(a) == ScopeTypeOf(b) <==> a == b
  {
  }

  /** Text `std::stoi` can read: it starts with a digit. */
  predicate Readable(t: string) {
    |t| > 0 && Decimal.IsDigit(t[0])
  }

  /** The resolution a captured `time_number` stores: `std::stoi` of the
      text, kept in an 8-bit unsigned field. */
  function TimeResolutionOf(t: string): (r: nat)
    requires Readable(t)
    ensures r < 256
    ensures Decimal.LeadingValue(t) < 256 ==> r == Decimal.LeadingValue(t)
  {
    Decimal.LeadingValue(t) % 256
  }

  /** The three numbers the grammar can capture keep their value. */
  lemma TimeResolutionsFit()
    ensures TimeResolutionOf("1") == 1
    ensures TimeResolutionOf("10") == 10
    ensures TimeResolutionOf("100") == 100
  {
    Decimal.PrintedNumberIsRead(1, "");
    Decimal.PrintedNumberIsRead(10, "");
    Decimal.PrintedNumberIsRead(100, "");
    assert Decimal.NatToDecimal(1) == "1";
    assert Decimal.NatToDecimal(10) == Decimal.NatToDecimal(1) + "0" == "10";
    assert Decimal.NatToDecimal(100) == Decimal.NatToDecimal(10) + "0" == "100";
    assert "1" + "" == "1" && "10" + "" == "10" && "100" + "" == "100";
  }

  // -----------------------------------------------------------------------
  // The header part of the file, as a value

  /** The fields of the file the header actions change. */
  datatype HeaderState = HeaderState(
    timeUnits: TimeUnit,
    timeResolution: nat,
    date: string,
    version: string,
    comment: string,
    currentScope: Option<nat>,
    builder: Files.ScopeBuilder,
    scopes: seq<Scope>)

  /** The header fields of a new file. */
  const EmptyHeader := HeaderState(TimeUnknown, 0, "", "", "", None, Files.ScopeBuilder("", ScopeUnknown), [])

  /** The cursor and every parent link point into the scope arena. */
  predicate Linked(st: HeaderState) {
    (st.currentScope.Some? ==> st.currentScope.value < |st.scopes|) &&
    forall k :: 0 <= k < |st.scopes| && st.scopes[k].parent.Some? ==> st.scopes[k].parent.value < |st.scopes|
  }

  /** The scopes form a tree in which every parent precedes its children, a
      scope's children are exactly the scopes whose parent it is, in
      insertion order, and the cursor points into the arena. */
  predicate Tree(st: HeaderState) {
    var sc := st.scopes;
    (st.currentScope.Some? ==> st.currentScope.value < |sc|) &&
    (forall k :: 0 <= k < |sc| && sc[k].parent.Some? ==> sc[k].parent.value < k) &&
    (forall k :: 0 <= k < |sc| ==> forall c :: c in sc[k].children ==> k < c < |sc| && sc[c].parent == Some(k)) &&
    (forall c :: 0 <= c < |sc| && sc[c].parent.Some? ==> c in sc[sc[c].parent.value].children)
  }

  /** Captures whose action can run: a captured time number is readable. */
  predicate WellFormed(cap: Lexical.Capture) {
    cap.TimeNumberText? ==> Readable(cap.text)
  }

  /** The scope identifier's action: completes the builder and adds the
      scope it describes, with the open scope as parent. */
  function OpenScope(st: HeaderState, name: string): (r: HeaderState)
    requires Linked(st)
    ensures Linked(r)
    ensures |r.scopes| == |st.scopes| + 1 && r.currentScope == Some(|st.scopes|)
    ensures r.scopes[|st.scopes|] == Scope(name, st.builder.kind, st.currentScope, [], [])
    ensures forall j :: 0 <= j < |st.scopes| && st.currentScope != Some(j) ==> r.scopes[j] == st.scopes[j]
    ensures st.currentScope.Some? ==> (var c := st.currentScope.value;
      r.scopes[c] == st.scopes[c].(children := st.scopes[c].children + [|st.scopes|]))
  {
    var n := |st.scopes|;
    var sc := Scope(name, st.builder.kind, st.currentScope, [], []);
    var arena := if st.currentScope.Some? then
      var c := st.currentScope.value;
      st.scopes[c := st.scopes[c].(children := st.scopes[c].children + [n])]
    else st.scopes;
    st.(builder := st.builder.(name := name), scopes := arena + [sc], currentScope := Some(n))
  }

  /** `$upscope`: the open scope's parent becomes the open scope; with no
      open scope nothing happens and no error is raised. */
  function Upscope(st: HeaderState): (r: HeaderState)
    requires Linked(st)
    ensures Linked(r) && r.scopes == st.scopes
  {
    match st.currentScope
    case None => st
    case Some(c) => st.(currentScope := st.scopes[c].parent)
  }

  /** What one capture does to the header fields. */
  function Step(st: HeaderState, cap: Lexical.Capture): (r: HeaderState)
    requires Linked(st) && WellFormed(cap)
    ensures Linked(r)
    ensures |st.scopes| <= |r.scopes|
  {
    match cap
    case CommentText(t) => st.(comment := Normalize(t))
    case DateText(t) => st.(date := t)
    case VersionText(t) => st.(version := t)
    case TimeNumberText(t) => st.(timeResolution := TimeResolutionOf(t))
    case TimeUnitText(t) => st.(timeUnits := TimeUnitOf(t))
    case ScopeTypeText(t) => st.(builder := st.builder.(kind := ScopeTypeOf(t)))
    case ScopeIdentifierText(t) => OpenScope(st, t)
    case UpscopeCommand => Upscope(st)
  }

  /** The captures applied in order. */
  function Fold(st: HeaderState, caps: seq<Lexical.Capture>): (r: HeaderState)
    requires Linked(st) && forall k :: 0 <= k < |caps| ==> WellFormed(caps[k])
    ensures Linked(r)
    decreases |caps|
  {
    if caps == [] then st else Fold(Step(st, caps[0]), caps[1..])
  }

  lemma {:induction false} FoldAppend(st: HeaderState, caps: seq<Lexical.Capture>, cap: Lexical.Capture)
    requires Linked(st) && forall k :: 0 <= k < |caps| ==> WellFormed(caps[k])
    requires WellFormed(cap)
    ensures Fold(st, caps + [cap]) == Step(Fold(st, caps), cap)
    decreases |caps|
  {
    if caps == [] {
      assert [cap][1..] == [];
    } else {
      assert (caps + [cap])[1..] == caps[1..] + [cap];
      FoldAppend(Step(st, caps[0]), caps[1..], cap);
    }
  }

  /** One capture folded is that capture's step. */
  lemma FoldOne(st: HeaderState, cap: Lexical.Capture)
    requires Linked(st) && WellFormed(cap)
    ensures Fold(st, [cap]) == Step(st, cap)
  {
    assert [cap][1..] == [];
  }

  /** Two captures folded are their two steps in order. */
  lemma FoldTwo(st: HeaderState, first: Lexical.Capture, second: Lexical.Capture)
    requires Linked(st) && WellFormed(first) && WellFormed(second)
    ensures Fold(st, [first, second]) == Step(Step(st, first), second)
  {
    assert [first, second][1..] == [second];
    FoldOne(Step(st, first), second);
  }

  /** Opening a scope keeps the tree shape: the new scope is the last child
      of the open scope and has it as parent. */
  lemma OpenScopeKeepsTree(st: HeaderState, name: string)
    requires Tree(st)
    ensures Linked(st) && Tree(OpenScope(st, name))
  {
    var sc := OpenScope(st, name).scopes;
    assert forall j :: 0 <= j < |st.scopes| ==> sc[j].parent == st.scopes[j].parent;
    OpenScopeChildrenFollow(st, name);
    OpenScopeParentsList(st, name);
  }

  /** After opening a scope, every child listed follows its parent and
      names it. */
  lemma OpenScopeChildrenFollow(st: HeaderState, name: string)
    requires Tree(st)
    ensures Linked(st)
    ensures var sc := OpenScope(st, name).scopes;
      forall k :: 0 <= k < |sc| ==> forall c :: c in sc[k].children ==> k < c < |sc| && sc[c].parent == Some(k)
  {
    var sc := OpenScope(st, name).scopes;
    var n := |st.scopes|;
    forall k, c | 0 <= k < |sc| && c in sc[k].children
      ensures k < c < |sc| && sc[c].parent == Some(k)
    {
      if k < n && st.currentScope == Some(k) {
        assert sc[k].children == st.scopes[k].children + [n];
        if c != n {
          assert c in st.scopes[k].children;
        }
      } else if k < n {
        assert sc[k] == st.scopes[k];
      }
    }
  }

  /** After opening a scope, every scope with a parent is listed among its
      parent's children. */
  lemma OpenScopeParentsList(st: HeaderState, name: string)
    requires Tree(st)
    ensures Linked(st)
    ensures var sc := OpenScope(st, name).scopes;
      forall c :: 0 <= c < |sc| && sc[c].parent.Some? ==> c in sc[sc[c].parent.value].children
  {
    var sc := OpenScope(st, name).scopes;
    var n := |st.scopes|;
    forall c | 0 <= c < |sc| && sc[c].parent.Some?
      ensures c in sc[sc[c].parent.value].children
    {
      var p := sc[c].parent.value;
      if c < n {
        assert sc[c] == st.scopes[c] || st.currentScope == Some(c);
        assert sc[c].parent == st.scopes[c].parent;
        assert c in st.scopes[p].children;
      }
    }
  }

  /** Every capture keeps the tree shape. */
  lemma StepKeepsTree(st: HeaderState, cap: Lexical.Capture)
    requires Tree(st) && WellFormed(cap)
    ensures Linked(st) && Tree(Step(st, cap))
  {
    if cap.ScopeIdentifierText? {
      OpenScopeKeepsTree(st, cap.text);
    }
  }

  /** Any sequence of captures keeps the tree shape. */
  lemma {:induction false} FoldKeepsTree(st: HeaderState, caps: seq<Lexical.Capture>)
    requires Tree(st) && forall k :: 0 <= k < |caps| ==> WellFormed(caps[k])
    ensures Linked(st) && Tree(Fold(st, caps))
    decreases |caps|
  {
    if caps != [] {
      StepKeepsTree(st, caps[0]);
      FoldKeepsTree(Step(st, caps[0]), caps[1..]);
    }
  }

  /** A `$scope` and its `$upscope` bring the cursor back where it was and
      leave the new scope as the last child of the scope that was open. */
  lemma {:induction false} ScopeThenUpscope(st: HeaderState, kind: string, name: string)
    requires Linked(st)
    ensures var r := Fold(st, [Lexical.ScopeTypeText(kind), Lexical.ScopeIdentifierText(name), Lexical.UpscopeCommand]);
      r.currentScope == st.currentScope && |r.scopes| == |st.scopes| + 1 &&
      r.scopes[|st.scopes|] == Scope(name, ScopeTypeOf(kind), st.currentScope, [], []) &&
      (st.currentScope.Some? ==>
        r.scopes[st.currentScope.value].children == st.scopes[st.currentScope.value].children + [|st.scopes|]) &&
      (st.currentScope.None? ==> r.scopes == st.scopes + [Scope(name, ScopeTypeOf(kind), None, [], [])])
  {
    var caps := [Lexical.ScopeTypeText(kind), Lexical.ScopeIdentifierText(name), Lexical.UpscopeCommand];
    var s1 := Step(st, caps[0]);
    var s2 := Step(s1, caps[1]);
    var s3 := Step(s2, caps[2]);
    assert Fold(st, caps) == Fold(s1, caps[1..]);
    assert Fold(s1, caps[1..]) == Fold(s2, caps[2..]);
    assert Fold(s2, caps[2..]) == Fold(s3, []);
  }

  /** An `$upscope` with no open scope changes nothing. */
  lemma UpscopeAtTopIgnored(st: HeaderState)
    requires Linked(st) && st.currentScope.None?
    ensures Step(st, Lexical.UpscopeCommand) == st
  {
  }

  /** The comment is stored normalized, the date and the version as
      captured. */
  lemma TextFieldsStored(st: HeaderState, c: string, d: string, v: string)
    requires Linked(st)
    ensures var r := Fold(st, [Lexical.CommentText(c), Lexical.DateText(d), Lexical.VersionText(v)]);
      r.comment == Normalize(c) && r.date == d && r.version == v && Normalized(r.comment)
  {
    var caps := [Lexical.CommentText(c), Lexical.DateText(d), Lexical.VersionText(v)];
    assert Fold(st, caps) == Fold(Step(st, caps[0]), caps[1..]);
    assert Fold(Step(st, caps[0]), caps[1..]) == Fold(Step(Step(st, caps[0]), caps[1]), caps[2..]);
    WordsAreWords(c, 0);
    JoinIsNormalized(Words(c));
  }

  /** Three sibling top-level scopes, each closed before the next opens:
      none has a parent or a child, and the cursor is back at the top. */
  lemma SiblingTopScopes(x: string, y: string, z: string)
    ensures var caps := [
        Lexical.ScopeTypeText("module"), Lexical.ScopeIdentifierText(x), Lexical.UpscopeCommand,
        Lexical.ScopeTypeText("module"), Lexical.ScopeIdentifierText(y), Lexical.UpscopeCommand,
        Lexical.ScopeTypeText("module"), Lexical.ScopeIdentifierText(z), Lexical.UpscopeCommand];
      var r := Fold(EmptyHeader, caps);
      |r.scopes| == 3 && r.currentScope == None &&
      r.scopes == [Scope(x, ScopeModule, None, [], []), Scope(y, ScopeModule, None, [], []),
                   Scope(z, ScopeModule, None, [], [])]
  {
    var a := [Lexical.ScopeTypeText("module"), Lexical.ScopeIdentifierText(x), Lexical.UpscopeCommand];
    var b := [Lexical.ScopeTypeText("module"), Lexical.ScopeIdentifierText(y), Lexical.UpscopeCommand];
    var c := [Lexical.ScopeTypeText("module"), Lexical.ScopeIdentifierText(z), Lexical.UpscopeCommand];
    ScopeThenUpscope(EmptyHeader, "module", x);
    var s1 := Fold(EmptyHeader, a);
    assert s1.scopes == [Scope(x, ScopeModule, None, [], [])];
    ScopeThenUpscope(s1, "module", y);
    var s2 := Fold(s1, b);
    assert s2.scopes == s1.scopes + [Scope(y, ScopeModule, None, [], [])];
    ScopeThenUpscope(s2, "module", z);
    var s3 := Fold(s2, c);
    assert s3.scopes == s2.scopes + [Scope(z, ScopeModule, None, [], [])];
    FoldConcat(EmptyHeader, a, b);
    FoldConcat(EmptyHeader, a + b, c);
    assert a + b + c == [
        Lexical.ScopeTypeText("module"), Lexical.ScopeIdentifierText(x), Lexical.UpscopeCommand,
        Lexical.ScopeTypeText("module"), Lexical.ScopeIdentifierText(y), Lexical.UpscopeCommand,
        Lexical.ScopeTypeText("module"), Lexical.ScopeIdentifierText(z), Lexical.UpscopeCommand];
  }

  lemma {:induction false} FoldConcat(st: HeaderState, a: seq<Lexical.Capture>, b: seq<Lexical.Capture>)
    requires Linked(st)
    requires forall k :: 0 <= k < |a| ==> WellFormed(a[k])
    requires forall k :: 0 <= k < |b| ==> WellFormed(b[k])
    ensures forall k :: 0 <= k < |a + b| ==> WellFormed((a + b)[k])
    ensures Fold(st, a + b) == Fold(Fold(st, a), b)
    decreases |a|
  {
    if a != [] {
      assert (a + b)[1..] == a[1..] + b;
      FoldConcat(Step(st, a[0]), a[1..], b);
    } else {
      assert a + b == b;
    }
  }

  /** Three nested scopes: each scope's parent is the scope it was opened
      in, each has the next as its only child, and three `$upscope`s bring
      the cursor back to the top. */
  lemma NestedScopes(x: string, y: string, z: string)
    ensures var caps := [
        Lexical.ScopeTypeText("module"), Lexical.ScopeIdentifierText(x),
        Lexical.ScopeTypeText("module"), Lexical.ScopeIdentifierText(y),
        Lexical.ScopeTypeText("module"), Lexical.ScopeIdentifierText(z),
        Lexical.UpscopeCommand, Lexical.UpscopeCommand, Lexical.UpscopeCommand];
      var r := Fold(EmptyHeader, caps);
      |r.scopes| == 3 && r.currentScope == None &&
      r.scopes[0] == Scope(x, ScopeModule, None, [1], []) &&
      r.scopes[1] == Scope(y, ScopeModule, Some(0), [2], []) &&
      r.scopes[2] == Scope(z, ScopeModule, Some(1), [], [])
  {
    var caps := [
        Lexical.ScopeTypeText("module"), Lexical.ScopeIdentifierText(x),
        Lexical.ScopeTypeText("module"), Lexical.ScopeIdentifierText(y),
        Lexical.ScopeTypeText("module"), Lexical.ScopeIdentifierText(z),
        Lexical.UpscopeCommand, Lexical.UpscopeCommand, Lexical.UpscopeCommand];
    assert AllWellFormed(caps);
    FoldNine(EmptyHeader, caps);
    var s2 := Step(Step(EmptyHeader, caps[0]), caps[1]);
    NestedSecond(s2, x, y);
    NestedThird(Step(Step(s2, caps[2]), caps[3]), x, y, z);
  }

  /** The second module opens under the first. */
  lemma NestedSecond(s2: HeaderState, x: string, y: string)
    requires s2.scopes == [Scope(x, ScopeModule, None, [], [])] && s2.currentScope == Some(0)
    ensures Linked(s2)
    ensures var s4 := Step(Step(s2, Lexical.ScopeTypeText("module")), Lexical.ScopeIdentifierText(y));
      s4.scopes == [Scope(x, ScopeModule, None, [1], []), Scope(y, ScopeModule, Some(0), [], [])] &&
      s4.currentScope == Some(1)
  {
    var s4 := Step(Step(s2, Lexical.ScopeTypeText("module")), Lexical.ScopeIdentifierText(y));
    assert s2.scopes[0].children + [1] == [1];
    assert |s4.scopes| == 2 && s4.scopes[0] == Scope(x, ScopeModule, None, [1], []);
  }

  /** The third module opens under the second, and three "$upscope"s
      leave every scope. */
  lemma NestedThird(s4: HeaderState, x: string, y: string, z: string)
    requires s4.scopes == [Scope(x, ScopeModule, None, [1], []), Scope(y, ScopeModule, Some(0), [], [])]
    requires s4.currentScope == Some(1)
    ensures Linked(s4)
    ensures var s6 := Step(Step(s4, Lexical.ScopeTypeText("module")), Lexical.ScopeIdentifierText(z));
      var s9 := Step(Step(Step(s6, Lexical.UpscopeCommand), Lexical.UpscopeCommand), Lexical.UpscopeCommand);
      s9.scopes == [Scope(x, ScopeModule, None, [1], []), Scope(y, ScopeModule, Some(0), [2], []),
        Scope(z, ScopeModule, Some(1), [], [])] && s9.currentScope == None
  {
    var m := ScopeModule;
    var s6 := Step(Step(s4, Lexical.ScopeTypeText("module")), Lexical.ScopeIdentifierText(z));
    assert s4.scopes[1].children + [2] == [2];
    assert |s6.scopes| == 3 && s6.scopes[0] == s4.scopes[0] && s6.scopes[1] == Scope(y, m, Some(0), [2], []);
    assert s6.scopes == [Scope(x, m, None, [1], []), Scope(y, m, Some(0), [2], []), Scope(z, m, Some(1), [], [])];
  }

  /** Folding nine captures applies them one after the other. */
  lemma FoldNine(st: HeaderState, caps: seq<Lexical.Capture>)
    requires Linked(st) && |caps| == 9 && AllWellFormed(caps)
    ensures var s2 := Step(Step(st, caps[0]), caps[1]);
      var s4 := Step(Step(s2, caps[2]), caps[3]);
      var s6 := Step(Step(s4, caps[4]), caps[5]);
      Fold(st, caps) == Step(Step(Step(s6, caps[6]), caps[7]), caps[8])
  {
    var s2 := Step(Step(st, caps[0]), caps[1]);
    var s4 := Step(Step(s2, caps[2]), caps[3]);
    var s6 := Step(Step(s4, caps[4]), caps[5]);
    FoldSteps(st, caps, 0);
    assert caps[0..] == caps;
    FoldSteps(s2, caps, 2);
    FoldSteps(s4, caps, 4);
    FoldSteps(s6, caps, 6);
    assert caps[8..] == [caps[8]] && [caps[8]][1..] == [];
  }

  /** Folding from position `i` runs two captures, then folds the rest. */
  lemma FoldSteps(st: HeaderState, caps: seq<Lexical.Capture>, i: nat)
    requires Linked(st) && forall k :: 0 <= k < |caps| ==> WellFormed(caps[k])
    requires i + 2 <= |caps|
    ensures Fold(st, caps[i..]) == Fold(Step(Step(st, caps[i]), caps[i + 1]), caps[i + 2..])
  {
    assert caps[i..][1..] == caps[i + 1..];
    assert caps[i + 1..][1..] == caps[i + 2..];
  }

  /** Every capture in the sequence has an action that can run. */
  predicate AllWellFormed(caps: seq<Lexical.Capture>) {
    forall k :: 0 <= k < |caps| ==> WellFormed(caps[k])
  }

  /** Every time number the grammar can capture is readable, so every
      capture of a header section has an action that can run. */
  lemma {:induction false} HeaderCapturesWellFormed(s: string, i: nat)
    requires i <= |s|
    ensures AllWellFormed(Lexical.HeaderSection(s, i).caps)
    decreases |s| - i
  {
    var d := Lexical.Whitespaces(s, i);
    match Lexical.DeclarationCommand(s, d)
    case None =>
    case Some(p) =>
      CommandCapturesWellFormed(s, d);
      var j := Lexical.Whitespaces(s, p.end);
      HeaderCapturesWellFormed(s, j);
      var rest := Lexical.HeaderSection(s, j).caps;
      assert Lexical.HeaderSection(s, i).caps == p.caps + rest;
      assert forall k :: 0 <= k < |p.caps + rest| ==>
        (p.caps + rest)[k] == if k < |p.caps| then p.caps[k] else rest[k - |p.caps|];
  }

  /** The captures of one declaration command have runnable actions. */
  lemma CommandCapturesWellFormed(s: string, i: nat)
    requires i <= |s|
    ensures Lexical.DeclarationCommand(s, i).Some? ==> AllWellFormed(Lexical.DeclarationCommand(s, i).value.caps)
  {
    var r := Lexical.DeclarationCommand(s, i);
    if Lexical.CommandComment(s, i).Some? {
      assert r == Lexical.CommandComment(s, i);
    } else if Lexical.CommandDate(s, i).Some? {
      assert r == Lexical.CommandDate(s, i);
    } else if Lexical.CommandScope(s, i).Some? {
      assert r == Lexical.CommandScope(s, i);
    } else if Lexical.CommandTimescale(s, i).Some? {
      assert r == Lexical.CommandTimescale(s, i);
      TimescaleCapturesWellFormed(s, i);
    } else if Lexical.CommandUpscope(s, i).Some? {
      assert r == Lexical.CommandUpscope(s, i);
    } else if Lexical.CommandVar(s, i).Some? {
      assert r == Lexical.CommandVar(s, i);
    } else {
      assert r == Lexical.CommandVersion(s, i);
    }
  }

  /** The captures of a timescale have runnable actions. */
  lemma TimescaleCapturesWellFormed(s: string, i: nat)
    requires i <= |s|
    ensures Lexical.CommandTimescale(s, i).Some? ==> AllWellFormed(Lexical.CommandTimescale(s, i).value.caps)
  {
    NumbersReadable();
    TimescaleCaptures(Lexical.TimeNumbers, s, i);
  }

  /** The listed time numbers, in either order, can be read by `std::stoi`. */
  lemma NumbersReadable()
    ensures forall t :: t in Lexical.TimeNumbers ==> Readable(t)
    ensures forall t :: t in Lexical.TimeNumbersAsWritten ==> Readable(t)
  {
  }

  /** A timescale captures one of the listed numbers, then a unit. */
  lemma TimescaleCaptures(numbers: seq<string>, s: string, i: nat)
    requires i <= |s|
    ensures var r := Lexical.CommandTimescaleWith(numbers, s, i);
      r.Some? ==> (|r.value.caps| == 2 && r.value.caps[0].TimeNumberText? &&
        r.value.caps[0].text in numbers && r.value.caps[1].TimeUnitText?)
  {
    var r := Lexical.CommandTimescaleWith(numbers, s, i);
    if r.Some? {
      var a := Lexical.KeywordThenSpace("$timescale", s, i).value;
      Grammar.ChoiceReadsAKeyword(numbers, s, a);
    }
  }

  // -----------------------------------------------------------------------
  // The actions on the container

  /** The header fields of a container, as a value. */
  function HeaderOf(file: Files.VcdFile): HeaderState
    reads file
  {
    HeaderState(file.timeUnits, file.timeResolution, file.date, file.version, file.comment,
      file.currentScope, file.scopeBuilder, file.scopes)
  }

  /** A valid container's header fields are linked; a new container's are
      the empty header. */
  lemma ValidHeaderIsLinked(file: Files.VcdFile)
    requires file.Valid()
    ensures Linked(HeaderOf(file))
  {
    var st := HeaderOf(file);
    forall k | 0 <= k < |st.scopes| && st.scopes[k].parent.Some?
      ensures st.scopes[k].parent.value < |st.scopes|
    {
      assert Files.LinksWithin(file.scopes[k], |file.scopes|, |file.signals|);
    }
  }

  /** The action attached to one captured rule, run on the container: the
      header fields change as `Step` says, and the signals, timestamps and
      values are left alone. */
  method ApplyCapture(file: Files.VcdFile, cap: Lexical.Capture)
    requires file.Valid() && WellFormed(cap)
    modifies file
    ensures file.Valid() && Linked(old(HeaderOf(file)))
    ensures HeaderOf(file) == Step(old(HeaderOf(file)), cap)
    ensures file.signals == old(file.signals) && file.times == old(file.times) && file.values == old(file.values)
  {
    ValidHeaderIsLinked(file);
    match cap
    case ScopeIdentifierText(t) =>
      DeclareScope(file, t);
    case UpscopeCommand =>
      CloseScope(file);
    case _ =>
      SetHeaderText(file, cap);
  }

  /** The actions that store text in one header field: the comment (its
      spaces normalised), the date, the version, the time resolution and
      unit, and the kind of the scope being built. */
  method SetHeaderText(file: Files.VcdFile, cap: Lexical.Capture)
    requires file.Valid() && WellFormed(cap) && !cap.ScopeIdentifierText? && !cap.UpscopeCommand?
    modifies file`comment, file`date, file`version, file`timeResolution, file`timeUnits, file`scopeBuilder
    ensures file.Valid() && Linked(old(HeaderOf(file)))
    ensures HeaderOf(file) == Step(old(HeaderOf(file)), cap)
  {
    ValidHeaderIsLinked(file);
    match cap
    case CommentText(t) =>
      var c := NormalizeSpaces(t);
      file.comment := c;
    case DateText(t) =>
      file.date := t;
    case VersionText(t) =>
      file.version := t;
    case TimeNumberText(t) =>
      file.timeResolution := TimeResolutionOf(t);
    case TimeUnitText(t) =>
      file.timeUnits := TimeUnitOf(t);
    case ScopeTypeText(t) =>
      file.scopeBuilder := file.scopeBuilder.(kind := ScopeTypeOf(t));
  }

  /** The action on a scope identifier: the builder takes the name and the
      scope it describes is added under the current one and entered. */
  method DeclareScope(file: Files.VcdFile, t: string)
    requires file.Valid()
    modifies file
    ensures file.Valid() && Linked(old(HeaderOf(file)))
    ensures HeaderOf(file) == OpenScope(old(HeaderOf(file)), t)
    ensures file.signals == old(file.signals) && file.times == old(file.times) && file.values == old(file.values)
  {
    ValidHeaderIsLinked(file);
    ghost var st := HeaderOf(file);
    file.scopeBuilder := file.scopeBuilder.(name := t);
    file.AddScope(Scope(t, file.scopeBuilder.kind, file.currentScope, [], []));
    assert file.scopes == file.scopes[..|file.scopes| - 1] + [file.scopes[|file.scopes| - 1]];
    assert HeaderOf(file).scopes == OpenScope(st, t).scopes;
  }

  /** The action on "$upscope": the current scope becomes its parent. */
  method CloseScope(file: Files.VcdFile)
    requires file.Valid()
    modifies file
    ensures file.Valid() && Linked(old(HeaderOf(file)))
    ensures HeaderOf(file) == Upscope(old(HeaderOf(file)))
    ensures file.signals == old(file.signals) && file.times == old(file.times) && file.values == old(file.values)
  {
    ValidHeaderIsLinked(file);
    if file.currentScope.Some? {
      assert Files.LinksWithin(file.scopes[file.currentScope.value], |file.scopes|, |file.signals|);
      file.currentScope := file.scopes[file.currentScope.value].parent;
    }
  }

  /** The actions of a parse, run in firing order: the header fields end as
      `Fold` says, and a scope tree stays a scope tree. */
  method ApplyAll(file: Files.VcdFile, caps: seq<Lexical.Capture>)
    requires file.Valid() && forall k :: 0 <= k < |caps| ==> WellFormed(caps[k])
    modifies file
    ensures file.Valid() && Linked(old(HeaderOf(file)))
    ensures HeaderOf(file) == Fold(old(HeaderOf(file)), caps)
    ensures Tree(old(HeaderOf(file))) ==> Tree(HeaderOf(file))
    ensures file.signals == old(file.signals) && file.times == old(file.times) && file.values == old(file.values)
  {
    ValidHeaderIsLinked(file);
    ghost var st := HeaderOf(file);
    var k := 0;
    while k < |caps|
      invariant k <= |caps| && file.Valid()
      invariant HeaderOf(file) == Fold(st, caps[..k])
      invariant file.signals == old(file.signals) && file.times == old(file.times) && file.values == old(file.values)
    {
      FoldAppend(st, caps[..k], caps[k]);
      assert caps[..k + 1] == caps[..k] + [caps[k]];
      ApplyCapture(file, caps[k]);
      k := k + 1;
    }
    assert caps[..k] == caps;
    if Tree(st) {
      FoldKeepsTree(st, caps);
    }
  }
}
