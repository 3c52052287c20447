/** Properties of the declaration-section grammar: what each recognizer
    reads, where ordered choice commits to a shorter keyword, how free text
    stops, and which headers are accepted. */
module Grammar {
  import opened Wrappers
  import opened Lexical
  import Decimal
  import Utils
  import Types

  // ---------------------------------------------------------------------
  // Runs of characters

  /** `whitespaces` reads the whole run of whitespace and no more. */
  lemma {:induction false} WhitespacesIsMaximalRun(s: string, i: nat)
    requires i <= |s|
    ensures WhitespaceBetween(s, i, Whitespaces(s, i))
    ensures Whitespaces(s, i) < |s| ==> !IsWhitespace(s[Whitespaces(s, i)])
    decreases |s| - i
  {
    if i < |s| && IsWhitespace(s[i]) {
      WhitespacesIsMaximalRun(s, i + 1);
    }
  }

  /** Conversely, a whitespace run that ends at `j` is read up to `j`. */
  lemma {:induction false} WhitespacesOfRun(s: string, i: nat, j: nat)
    requires i <= j <= |s| && WhitespaceBetween(s, i, j)
    requires j == |s| || !IsWhitespace(s[j])
    ensures Whitespaces(s, i) == j
    decreases j - i
  {
    if i < j {
      WhitespacesOfRun(s, i + 1, j);
    }
  }

  lemma {:induction false} IdentRunIsMaximal(s: string, i: nat)
    requires i <= |s|
    ensures forall k :: i <= k < IdentRun(s, i) ==> IsIdentChar(s[k])
    ensures IdentRun(s, i) < |s| ==> !IsIdentChar(s[IdentRun(s, i)])
    decreases |s| - i
  {
    if i < |s| && IsIdentChar(s[i]) {
      IdentRunIsMaximal(s, i + 1);
    }
  }

  /** `identifier` reads a letter or underscore, then every identifier
      character that follows. */
  lemma IdentifierIsMaximal(s: string, i: nat)
    requires i <= |s| && Identifier(s, i).Some?
    ensures var j := Identifier(s, i).value;
      IsIdentStart(s[i]) && (forall k :: i < k < j ==> IsIdentChar(s[k])) &&
      (j < |s| ==> !IsIdentChar(s[j]))
  {
    IdentRunIsMaximal(s, i + 1);
  }

  lemma {:induction false} SymbolRunIsMaximal(s: string, i: nat)
    requires i <= |s|
    ensures forall k :: i <= k < SymbolRun(s, i) ==> IsSymbolChar(s[k])
    ensures SymbolRun(s, i) < |s| ==> !IsSymbolChar(s[SymbolRun(s, i)])
    decreases |s| - i
  {
    if i < |s| && IsSymbolChar(s[i]) {
      SymbolRunIsMaximal(s, i + 1);
    }
  }

  /** `symbol` reads the whole run of visible characters. */
  lemma SymbolIsMaximal(s: string, i: nat)
    requires i <= |s| && Symbol(s, i).Some?
    ensures var j := Symbol(s, i).value;
      (forall k :: i <= k < j ==> IsSymbolChar(s[k])) && (j < |s| ==> !IsSymbolChar(s[j]))
  {
    SymbolRunIsMaximal(s, i);
  }

  lemma {:induction false} DigitRunIsMaximal(s: string, i: nat)
    requires i <= |s|
    ensures Decimal.AllDigits(s[i..DigitRun(s, i)])
    ensures DigitRun(s, i) < |s| ==> !Decimal.IsDigit(s[DigitRun(s, i)])
    decreases |s| - i
  {
    if i < |s| && Decimal.IsDigit(s[i]) {
      DigitRunIsMaximal(s, i + 1);
      assert s[i..DigitRun(s, i)] == [s[i]] + s[i + 1..DigitRun(s, i + 1)];
    }
  }

  /** `number` reads the whole run of digits. */
  lemma NumberIsMaximal(s: string, i: nat)
    requires i <= |s| && Number(s, i).Some?
    ensures var j := Number(s, i).value;
      Decimal.AllDigits(s[i..j]) && (j < |s| ==> !Decimal.IsDigit(s[j]))
  {
    DigitRunIsMaximal(s, i);
  }

  // ---------------------------------------------------------------------
  // Ordered choice

  /** The alternative ordered choice picks is found at the position, and no
      earlier alternative is. */
  lemma {:induction false} FirstMatchIsFirst(ws: seq<string>, s: string, i: nat, k: nat)
    requires k <= |ws|
    ensures match FirstMatch(ws, s, i, k)
      case Some(m) => At(s, i, ws[m]) && forall j :: k <= j < m ==> !At(s, i, ws[j])
      case None => forall j :: k <= j < |ws| ==> !At(s, i, ws[j])
    decreases |ws| - k
  {
    if k < |ws| && !At(s, i, ws[k]) {
      FirstMatchIsFirst(ws, s, i, k + 1);
    }
  }

  /** Ordered choice fails exactly when no alternative is found, and what it
      reads is one of the alternatives. */
  lemma ChoiceReadsAKeyword(ws: seq<string>, s: string, i: nat)
    requires i <= |s|
    ensures Choice(ws, s, i).None? <==> forall k :: 0 <= k < |ws| ==> !At(s, i, ws[k])
    ensures Choice(ws, s, i).Some? ==> s[i..Choice(ws, s, i).value] in ws
  {
    FirstMatchIsFirst(ws, s, i, 0);
  }

  /** When the `k`-th alternative is found and no earlier one is, choice
      reads the `k`-th. */
  lemma ChoiceOfFirstFound(ws: seq<string>, s: string, i: nat, k: nat)
    requires i <= |s| && k < |ws| && At(s, i, ws[k])
    requires forall j :: 0 <= j < k ==> !At(s, i, ws[j])
    ensures Choice(ws, s, i) == Some(i + |ws[k]|)
  {
    FirstMatchIsFirst(ws, s, i, 0);
  }

  /** No keyword of the table contains the character `c`. */
  predicate Avoids(ws: seq<string>, c: char) {
    forall j, k :: 0 <= j < |ws| && 0 <= k < |ws[j]| ==> ws[j][k] != c
  }

  /** In a table without shadowing, a listed keyword followed by a character
      no keyword uses is read as itself. */
  lemma ChoiceOfListedKeyword(ws: seq<string>, k: nat, s: string, i: nat)
    requires Unshadowed(ws) && k < |ws| && At(s, i, ws[k])
    requires i + |ws[k]| < |s| && Avoids(ws, s[i + |ws[k]|])
    ensures Choice(ws, s, i) == Some(i + |ws[k]|)
  {
    var c := |ws[k]|;
    forall j | 0 <= j < k
      ensures !At(s, i, ws[j])
    {
      if |ws[j]| <= c {
        assert !At(ws[k], 0, ws[j]);
        assert ws[k][0..|ws[j]|] == s[i..i + |ws[j]|];
      } else {
        assert ws[j][c] != s[i + c];
      }
    }
    ChoiceOfFirstFound(ws, s, i, k);
  }

  // ---------------------------------------------------------------------
  // The keyword tables

  /** `a` is no prefix of `b`, witnessed by length or by one of the first
      few characters; enough to tell the keywords of each table apart. */
  predicate DiffersEarly(a: string, b: string) {
    |a| > |b| ||
    (|a| > 0 && a[0] != b[0]) || (|a| > 1 && a[1] != b[1]) || (|a| > 2 && a[2] != b[2]) ||
    (|a| > 3 && a[3] != b[3]) || (|a| > 6 && a[6] != b[6])
  }

  lemma DiffersEarlyNotPrefix(ws: seq<string>)
    requires forall i, j :: 0 <= j < i < |ws| ==> DiffersEarly(ws[j], ws[i])
    ensures Unshadowed(ws)
  {
  }

  lemma TimeNumbersUnshadowed() ensures Unshadowed(TimeNumbers) {
    DiffersEarlyNotPrefix(TimeNumbers);
  }

  lemma TimeUnitsUnshadowed() ensures Unshadowed(TimeUnits) {
    DiffersEarlyNotPrefix(TimeUnits);
  }

  lemma ScopeTypesUnshadowed() ensures Unshadowed(ScopeTypes) {
    DiffersEarlyNotPrefix(ScopeTypes);
  }

  lemma VarTypesDifferEarly()
    ensures forall i, j :: 0 <= j < i < |VarTypes| ==> DiffersEarly(VarTypes[j], VarTypes[i])
  {
  }

  lemma VarTypesUnshadowed() ensures Unshadowed(VarTypes) {
    VarTypesDifferEarly();
    DiffersEarlyNotPrefix(VarTypes);
  }

  /** Time numbers are digits, so no letter and no whitespace occurs in them. */
  lemma TimeNumbersAvoid(c: char)
    requires IsWhitespace(c) || 'a' <= c <= 'z'
    ensures Avoids(TimeNumbers, c)
  {
    assert forall j, k :: 0 <= j < |TimeNumbers| && 0 <= k < |TimeNumbers[j]| ==>
      '0' <= TimeNumbers[j][k] <= '9';
  }

  lemma TimeUnitsAvoid(c: char)
    requires IsWhitespace(c)
    ensures Avoids(TimeUnits, c)
  {
    assert forall j, k :: 0 <= j < |TimeUnits| && 0 <= k < |TimeUnits[j]| ==>
      'a' <= TimeUnits[j][k] <= 'z';
  }

  lemma ScopeTypesAvoid(c: char)
    requires IsWhitespace(c)
    ensures Avoids(ScopeTypes, c)
  {
    assert forall j, k :: 0 <= j < |ScopeTypes| && 0 <= k < |ScopeTypes[j]| ==>
      'a' <= ScopeTypes[j][k] <= 'z';
  }

  lemma VarTypesAvoid(c: char)
    requires IsWhitespace(c)
    ensures Avoids(VarTypes, c)
  {
    assert forall j, k :: 0 <= j < |VarTypes| && 0 <= k < |VarTypes[j]| ==>
      '0' <= VarTypes[j][k] <= 'z';
  }

  /** Both the time-number table and the variable-kind table as the grammar
      lists them have a keyword hidden behind one of its prefixes. */
  lemma ListedTablesAreShadowed()
    ensures At(TimeNumbersAsWritten[1], 0, TimeNumbersAsWritten[0])
    ensures At(TimeNumbersAsWritten[2], 0, TimeNumbersAsWritten[0])
    ensures At(VarTypesAsWritten[4], 0, VarTypesAsWritten[3])
    ensures forall i :: 10 <= i < 15 ==> At(VarTypesAsWritten[i], 0, VarTypesAsWritten[9])
    ensures !Unshadowed(TimeNumbersAsWritten) && !Unshadowed(VarTypesAsWritten)
  {
    assert "10"[0..1] == "1" && "100"[0..1] == "1";
    assert "realtime"[0..4] == "real";
    assert "triand"[0..3] == "tri" && "trior"[0..3] == "tri" && "trireg"[0..3] == "tri";
    assert "tri0"[0..3] == "tri" && "tri1"[0..3] == "tri";
  }

  /** The variable-kind keywords are the display names of the known kinds. */
  lemma VarTypesAreTheKindNames(t: Types.VarType)
    ensures Utils.VarTypeName(t) in VarTypes <==> t != Types.VarUnknown
  {
  }

  // ---------------------------------------------------------------------
  // Keyword and closing

  /** A keyword followed by a whitespace run is read up to the end of that run. */
  lemma KeywordThenSpaceOf(keyword: string, s: string, i: nat, a: nat)
    requires At(s, i, keyword) && i + |keyword| < a <= |s|
    requires WhitespaceBetween(s, i + |keyword|, a) && (a == |s| || !IsWhitespace(s[a]))
    ensures KeywordThenSpace(keyword, s, i) == Some(a)
  {
    WhitespacesOfRun(s, i + |keyword|, a);
  }

  /** Whitespace then "$end" closes a command. */
  lemma SpaceThenEndOf(s: string, i: nat, j: nat)
    requires At(s, j, "$end") && i < j && WhitespaceBetween(s, i, j)
    ensures SpaceThenEnd(s, i) == Some(j + 4)
  {
    assert s[j] == "$end"[0];
    WhitespacesOfRun(s, i, j);
  }

  // ---------------------------------------------------------------------
  // $timescale

  /** With the listed order, "1" is taken from "10" or "100" and the "0"
      that follows is no time unit: a timescale of 10 or 100 is refused. */
  lemma TimescaleAsWrittenRefusesTens(s: string, i: nat, a: nat)
    requires At(s, i, "$timescale") && i + 10 < a && a + 1 < |s|
    requires WhitespaceBetween(s, i + 10, a) && s[a] == '1' && s[a + 1] == '0'
    ensures CommandTimescaleWith(TimeNumbersAsWritten, s, i) == None
  {
    KeywordThenSpaceOf("$timescale", s, i, a);
    assert Choice(TimeNumbersAsWritten, s, a) == Some(a + 1) by {
      assert s[a..a + 1] == "1";
      ChoiceOfFirstFound(TimeNumbersAsWritten, s, a, 0);
    }
    WhitespacesOfRun(s, a + 1, a + 1);
    assert Choice(TimeUnits, s, a + 1) == None by {
      forall k | 0 <= k < |TimeUnits|
        ensures !At(s, a + 1, TimeUnits[k])
      {
        assert TimeUnits[k][0] != '0';
      }
      ChoiceReadsAKeyword(TimeUnits, s, a + 1);
    }
  }

  /** The unit part of a timescale: optional whitespace, a listed unit,
      whitespace and "$end" are read with that unit. */
  lemma UnitThenEndOf(s: string, c: nat, d: nat, u: nat, f: nat)
    requires u < |TimeUnits| && c <= d && At(s, d, TimeUnits[u])
    requires WhitespaceBetween(s, c, d) && At(s, f, "$end")
    requires d + |TimeUnits[u]| < f && WhitespaceBetween(s, d + |TimeUnits[u]|, f)
    ensures UnitThenEnd(s, c) == Some((f + 4, TimeUnits[u]))
  {
    var e := d + |TimeUnits[u]|;
    assert s[d] == TimeUnits[u][0] && 'a' <= TimeUnits[u][0] <= 'z';
    WhitespacesOfRun(s, c, d);
    TimeUnitsUnshadowed();
    TimeUnitsAvoid(s[e]);
    ChoiceOfListedKeyword(TimeUnits, u, s, d);
    SpaceThenEndOf(s, e, f);
  }

  /** A timescale written as "$timescale", whitespace, a listed number,
      optional whitespace, a listed unit, whitespace and "$end" is read with
      that number and that unit. */
  lemma TimescaleReadsNumberAndUnit(s: string, i: nat, a: nat, n: nat, d: nat, u: nat, f: nat)
    requires n < |TimeNumbers| && u < |TimeUnits| && At(s, f, "$end")
    requires At(s, i, "$timescale") && At(s, a, TimeNumbers[n]) && At(s, d, TimeUnits[u])
    requires i + 10 < a && WhitespaceBetween(s, i + 10, a)
    requires a + |TimeNumbers[n]| <= d && WhitespaceBetween(s, a + |TimeNumbers[n]|, d)
    requires d + |TimeUnits[u]| < f && WhitespaceBetween(s, d + |TimeUnits[u]|, f)
    ensures CommandTimescale(s, i) ==
      Some(Parsed(f + 4, [TimeNumberText(TimeNumbers[n]), TimeUnitText(TimeUnits[u])]))
  {
    var c := a + |TimeNumbers[n]|;
    assert s[c] == TimeUnits[u][0] || IsWhitespace(s[c]);
    assert 'a' <= TimeUnits[u][0] <= 'z';
    TimescaleNumberOf(s, i, a, n);
    UnitThenEndOf(s, c, d, u, f);
    TimescaleOfParts(s, i, a, c, f + 4, TimeNumbers[n], TimeUnits[u]);
  }

  /** The keyword, whitespace and a listed number followed by whitespace or
      a letter are read up to the end of the number. */
  lemma TimescaleNumberOf(s: string, i: nat, a: nat, n: nat)
    requires n < |TimeNumbers| && At(s, i, "$timescale") && At(s, a, TimeNumbers[n])
    requires i + 10 < a && WhitespaceBetween(s, i + 10, a)
    requires a + |TimeNumbers[n]| < |s|
    requires var next := s[a + |TimeNumbers[n]|]; 'a' <= next <= 'z' || IsWhitespace(next)
    ensures KeywordThenSpace("$timescale", s, i) == Some(a)
    ensures Choice(TimeNumbers, s, a) == Some(a + |TimeNumbers[n]|)
  {
    assert s[a] == TimeNumbers[n][0] && '0' <= TimeNumbers[n][0] <= '9';
    KeywordThenSpaceOf("$timescale", s, i, a);
    TimeNumbersUnshadowed();
    TimeNumbersAvoid(s[a + |TimeNumbers[n]|]);
    ChoiceOfListedKeyword(TimeNumbers, n, s, a);
  }

  /** A timescale command is its three parts in a row. */
  lemma TimescaleOfParts(s: string, i: nat, a: nat, c: nat, e: nat, number: string, unit: string)
    requires i <= |s|
    requires KeywordThenSpace("$timescale", s, i) == Some(a) && Choice(TimeNumbers, s, a) == Some(c)
    requires s[a..c] == number && UnitThenEnd(s, c) == Some((e, unit))
    ensures CommandTimescale(s, i) == Some(Parsed(e, [TimeNumberText(number), TimeUnitText(unit)]))
  {
  }

  /** Number and unit written together, as in "$timescale 1ns $end". */
  lemma StuckTimescale()
    ensures CommandTimescale("$timescale 1ns $end", 0) ==
      Some(Parsed(19, [TimeNumberText("1"), TimeUnitText("ns")]))
  {
    var s := "$timescale 1ns $end";
    assert At(s, 0, "$timescale") && At(s, 11, TimeNumbers[2]);
    assert At(s, 12, TimeUnits[3]) && At(s, 15, "$end");
    TimescaleReadsNumberAndUnit(s, 0, 11, 2, 12, 3, 15);
  }

  // ---------------------------------------------------------------------
  // $var

  /** `a` and `b` differ in one of their first two characters. */
  predicate Clash(a: string, b: string) {
    (|a| > 0 && |b| > 0 && a[0] != b[0]) || (|a| > 1 && |b| > 1 && a[1] != b[1])
  }

  /** In the listed order, every kind ahead of "real" and of "tri" clashes
      with the longer kinds that start with them. */
  lemma VarTypesAsWrittenClash()
    ensures forall j :: 0 <= j < 3 ==> Clash(VarTypesAsWritten[j], VarTypesAsWritten[4])
    ensures forall j, k :: 0 <= j < 9 && 10 <= k < 15 ==> Clash(VarTypesAsWritten[j], VarTypesAsWritten[k])
  {
  }

  /** With the listed order, "realtime" is read as "real" and the tri*
      kinds as "tri"; the character that follows is no whitespace, so the
      declaration is refused. */
  lemma VarAsWrittenRefusesLongerKinds(s: string, i: nat, a: nat, k: nat)
    requires k == 4 || 10 <= k < 15
    requires At(s, i, "$var") && At(s, a, VarTypesAsWritten[k])
    requires i + 4 < a && WhitespaceBetween(s, i + 4, a)
    ensures CommandVarWith(VarTypesAsWritten, s, i) == None
  {
    var kw := VarTypesAsWritten[k];
    assert s[a] == kw[0] && kw[0] != ' ' && kw[0] != '\t' && kw[0] != '\n' && kw[0] != '\r';
    KeywordThenSpaceOf("$var", s, i, a);
    var c := AsWrittenChoiceStopsShort(s, a, k);
    assert MandatorySpace(s, c) == None;
  }

  /** The listed var-type choice stops after "real" or "tri", in front of a
      character that is not whitespace. */
  lemma AsWrittenChoiceStopsShort(s: string, a: nat, k: nat) returns (c: nat)
    requires k == 4 || 10 <= k < 15
    requires a <= |s| && At(s, a, VarTypesAsWritten[k])
    ensures c < |s| && Choice(VarTypesAsWritten, s, a) == Some(c) && !IsWhitespace(s[c])
  {
    var short := if k == 4 then 3 else 9;
    ListedTablesAreShadowed();
    VarTypesAsWrittenClash();
    c := ChoiceStopsAtPrefix(VarTypesAsWritten, short, k, s, a);
    var kw := VarTypesAsWritten[k];
    assert s[c] == kw[|VarTypesAsWritten[short]|];
  }

  /** When the `p`-th keyword is a proper prefix of the `k`-th one found at
      `a`, and every earlier keyword clashes with the `k`-th, choice stops
      after the `p`-th. */
  lemma ChoiceStopsAtPrefix(ws: seq<string>, p: nat, k: nat, s: string, a: nat) returns (c: nat)
    requires p < k < |ws| && a <= |s| && At(s, a, ws[k])
    requires |ws[p]| < |ws[k]| && At(ws[k], 0, ws[p])
    requires forall j :: 0 <= j < p ==> Clash(ws[j], ws[k])
    ensures c == a + |ws[p]| < |s| && s[c] == ws[k][|ws[p]|]
    ensures Choice(ws, s, a) == Some(c)
  {
    var kw := ws[k];
    c := a + |ws[p]|;
    forall j | 0 <= j < p
      ensures !At(s, a, ws[j])
    {
      ClashExcludes(s, a, ws[j], kw);
    }
    assert s[a..c] == kw[0..|ws[p]|];
    ChoiceOfFirstFound(ws, s, a, p);
  }

  /** A keyword that clashes with the one found at `a` is not found there. */
  lemma ClashExcludes(s: string, a: nat, w: string, kw: string)
    requires At(s, a, kw) && Clash(w, kw)
    ensures !At(s, a, w)
  {
    if |w| > 0 && |kw| > 0 && w[0] != kw[0] {
      assert s[a..a + |kw|][0] == kw[0];
    } else {
      assert s[a..a + |kw|][1] == kw[1];
    }
  }

  /** In the model's order every known kind's keyword, followed by
      whitespace, is read as that keyword. */
  lemma VarTypeKeywordIsRead(t: Types.VarType, s: string, a: nat)
    requires t != Types.VarUnknown && At(s, a, Utils.VarTypeName(t))
    requires a + |Utils.VarTypeName(t)| < |s| && IsWhitespace(s[a + |Utils.VarTypeName(t)|])
    ensures Choice(VarTypes, s, a) == Some(a + |Utils.VarTypeName(t)|)
  {
    VarTypesAreTheKindNames(t);
    var k :| 0 <= k < |VarTypes| && VarTypes[k] == Utils.VarTypeName(t);
    VarTypesUnshadowed();
    VarTypesAvoid(s[a + |VarTypes[k]|]);
    ChoiceOfListedKeyword(VarTypes, k, s, a);
  }

  /** A name with a single index, a name with a range, and a name whose
      bracket does not close. */
  lemma VarReferenceSelects()
    ensures VarReference("data [0]", 0) == Some(8)
    ensures VarReference("data[ 3 : 0 ]", 0) == Some(13)
    ensures VarReference("data [", 0) == Some(4)
  {
    IndexedReference();
    RangedReference();
    UnclosedReference();
  }

  lemma IndexedReference()
    ensures VarReference("data [0]", 0) == Some(8)
  {
    var s := "data [0]";
    assert IdentRun(s, 1) == 4 by {
      assert IdentRun(s, 4) == 4;
    }
    assert Whitespaces(s, 4) == 5 by {
      assert Whitespaces(s, 5) == 5;
    }
    assert Whitespaces(s, 6) == 6 && DigitRun(s, 6) == 7 by {
      assert DigitRun(s, 7) == 7;
    }
    assert Whitespaces(s, 7) == 7;
    assert BitIndexSeq(s, 5) == Some(8);
  }

  lemma RangedReference()
    ensures VarReference("data[ 3 : 0 ]", 0) == Some(13)
  {
    var s := "data[ 3 : 0 ]";
    assert IdentRun(s, 1) == 4 by {
      assert IdentRun(s, 4) == 4;
    }
    assert Whitespaces(s, 4) == 4;
    assert Whitespaces(s, 5) == 6 by {
      assert Whitespaces(s, 6) == 6;
    }
    assert DigitRun(s, 6) == 7 by {
      assert DigitRun(s, 7) == 7;
    }
    assert Whitespaces(s, 7) == 8 by {
      assert Whitespaces(s, 8) == 8;
    }
    assert BitIndexSeq(s, 4) == None;
    assert Whitespaces(s, 9) == 10 by {
      assert Whitespaces(s, 10) == 10;
    }
    assert DigitRun(s, 10) == 11 by {
      assert DigitRun(s, 11) == 11;
    }
    assert Whitespaces(s, 11) == 12 by {
      assert Whitespaces(s, 12) == 12;
    }
    assert BitRangeSeq(s, 4) == Some(13);
  }

  lemma UnclosedReference()
    ensures VarReference("data [", 0) == Some(4)
  {
    var s := "data [";
    assert IdentRun(s, 1) == 4 by {
      assert IdentRun(s, 4) == 4;
    }
    assert Whitespaces(s, 4) == 5 by {
      assert Whitespaces(s, 5) == 5;
    }
    assert Whitespaces(s, 6) == 6 && DigitRun(s, 6) == 6;
    assert BitIndexSeq(s, 5) == None;
    assert BitRangeSeq(s, 5) == None;
  }

  // ---------------------------------------------------------------------
  // Free text

  /** `text` stops at the first position where whitespace and "$end"
      follow, or at a character that is not text, or at the end. */
  lemma {:induction false} TextIsMaximal(s: string, i: nat)
    requires i <= |s|
    ensures forall k :: i <= k < Text(s, i) ==> !EndAhead(s, k) && IsTextChar(s[k])
    ensures var j := Text(s, i); j == |s| || EndAhead(s, j) || !IsTextChar(s[j])
    decreases |s| - i
  {
    if i < |s| && !EndAhead(s, i) && IsTextChar(s[i]) {
      TextIsMaximal(s, i + 1);
    }
  }

  /** As the grammar writes `text`, at the end of the input or before a
      character that is neither printable nor whitespace, each repetition
      consumes nothing and the repetition never stops. */
  lemma {:induction false} TextAsWrittenNeverStops(s: string, i: nat, fuel: nat)
    requires i <= |s| && (i == |s| || !IsTextChar(s[i]))
    ensures TextAsWritten(s, i, fuel) == None
    decreases fuel
  {
    if fuel > 0 {
      assert Whitespaces(s, i) == i;
      TextAsWrittenNeverStops(s, i, fuel - 1);
    }
  }

  /** Inside a whitespace run, the lookahead sees the same thing at every
      position; a whitespace character before a lookahead match extends it. */
  lemma EndAheadInRun(s: string, i: nat)
    requires i < |s| && IsWhitespace(s[i])
    ensures EndAhead(s, i + 1) ==> EndAhead(s, i)
    ensures i + 1 < |s| && IsWhitespace(s[i + 1]) ==> (EndAhead(s, i) <==> EndAhead(s, i + 1))
  {
    assert Whitespaces(s, i) == Whitespaces(s, i + 1);
  }

  /** Stepping over a whitespace run one character at a time, as the model
      does, ends where the grammar's single step over the run ends. */
  lemma {:induction false} TextOverRun(s: string, i: nat)
    requires i < |s| && IsWhitespace(s[i]) && !EndAhead(s, i)
    ensures Text(s, i) == Text(s, Whitespaces(s, i))
    decreases |s| - i
  {
    assert Text(s, i) == Text(s, i + 1);
    if i + 1 < |s| && IsWhitespace(s[i + 1]) {
      EndAheadInRun(s, i);
      TextOverRun(s, i + 1);
      assert Whitespaces(s, i) == Whitespaces(s, i + 1);
    } else {
      assert Whitespaces(s, i + 1) == i + 1;
    }
  }

  /** Wherever the grammar's `text` stops, it stops where the model's does. */
  lemma {:induction false} TextAsWrittenAgrees(s: string, i: nat, fuel: nat)
    requires i <= |s| && TextAsWritten(s, i, fuel).Some?
    ensures TextAsWritten(s, i, fuel) == Some(Text(s, i))
    decreases fuel
  {
    if !EndAhead(s, i) {
      var c := TextCharAsWritten(s, i);
      TextAsWrittenAgrees(s, c, fuel - 1);
      if i < |s| && ' ' <= s[i] <= '~' {
        assert Text(s, i) == Text(s, i + 1);
      } else if i < |s| && IsWhitespace(s[i]) {
        TextOverRun(s, i);
      }
    }
  }

  /** A whitespace character before a closing keeps the closing in view. */
  lemma EndAheadExtends(s: string, j: nat)
    requires 0 < j <= |s|
    ensures IsWhitespace(s[j - 1]) && EndAhead(s, j) ==> EndAhead(s, j - 1)
  {
    if IsWhitespace(s[j - 1]) {
      EndAheadInRun(s, j - 1);
    }
  }

  /** The text a command captures never starts or ends with whitespace. */
  lemma TextCommandTrimmed(keyword: string, s: string, i: nat)
    requires i <= |s| && TextCommand(keyword, s, i).Some?
    ensures var t := TextCommand(keyword, s, i).value.1;
      t == [] || (!IsWhitespace(t[0]) && !IsWhitespace(t[|t| - 1]))
  {
    var a := KeywordThenSpace(keyword, s, i).value;
    if KwEnd(s, a).None? {
      var t := Text(s, a);
      WhitespacesIsMaximalRun(s, i + |keyword|);
      if a < t {
        TextIsMaximal(s, a);
        EndAheadExtends(s, t);
      }
    }
  }

  /** As the grammar writes the text commands, their text is never empty:
      the first whitespace run is consumed whole, so the closing run that
      must follow an empty text is not there. */
  lemma TextCommandAsWrittenNeverEmpty(keyword: string, s: string, i: nat)
    requires i <= |s| && TextCommandAsWritten(keyword, s, i).Some?
    ensures TextCommandAsWritten(keyword, s, i).value.1 != ""
  {
    WhitespacesIsMaximalRun(s, i + |keyword|);
  }

  /** Stepping over printable characters other than whitespace. */
  lemma {:induction false} TextOverWord(s: string, i: nat, j: nat)
    requires i <= j <= |s|
    requires forall k :: i <= k < j ==> ' ' < s[k] <= '~'
    ensures Text(s, i) == Text(s, j)
    decreases j - i
  {
    if i < j {
      assert !EndAhead(s, i);
      TextOverWord(s, i + 1, j);
    }
  }

  /** A text command with nothing between its keyword and a "$end" that
      ends the input: the grammar's `text` reads "$end" as text and then
      never stops. */
  lemma EmptyTextAsWrittenNeverStops(keyword: string, s: string, i: nat, a: nat, fuel: nat)
    requires i <= |s| && KeywordThenSpace(keyword, s, i) == Some(a)
    requires At(s, a, "$end") && a + 4 == |s|
    ensures TextAsWritten(s, a, fuel) == None
  {
    assert s[a..a + 4] == "$end";
    if fuel > 0 {
      assert !EndAhead(s, a);
      assert TextAsWritten(s, a, fuel) == TextAsWritten(s, a + 1, fuel - 1);
      TextRunsPastEnd(s, a + 1, fuel - 1);
    }
  }

  /** From inside the trailing "$end", the grammar's `text` never stops. */
  lemma {:induction false} TextRunsPastEnd(s: string, j: nat, fuel: nat)
    requires j <= |s| && forall k :: j <= k < |s| ==> ' ' < s[k] <= '~'
    ensures TextAsWritten(s, j, fuel) == None
    decreases |s| - j, fuel
  {
    if j == |s| {
      TextAsWrittenNeverStops(s, j, fuel);
    } else if fuel > 0 {
      assert !EndAhead(s, j);
      TextRunsPastEnd(s, j + 1, fuel - 1);
    }
  }

  /** In the model's grammar a text command with nothing between its keyword
      and "$end" is accepted with empty text. */
  lemma EmptyTextCommand(keyword: string, s: string, i: nat, a: nat)
    requires At(s, i, keyword) && At(s, a, "$end")
    requires i + |keyword| < a && WhitespaceBetween(s, i + |keyword|, a)
    ensures TextCommand(keyword, s, i) == Some((a + 4, ""))
  {
    assert s[a] == "$end"[0];
    KeywordThenSpaceOf(keyword, s, i, a);
  }

  /** "$end" is matched by the first four characters of "$enddefinitions",
      so free text stops in front of it too. */
  lemma EndMatchesEnddefinitions(s: string, i: nat, j: nat)
    requires At(s, j, "$enddefinitions") && i < j && WhitespaceBetween(s, i, j)
    ensures KwEnd(s, j) == Some(j + 4)
    ensures EndAhead(s, i)
  {
    assert s[j..j + 4] == s[j..j + 15][0..4];
    assert s[j] == '$';
    WhitespacesOfRun(s, i, j);
  }

  // ---------------------------------------------------------------------
  // Sections

  /** No declaration command starts with "$enddefinitions". */
  lemma NoCommandAtEnddefinitions(s: string, i: nat)
    requires i <= |s| && At(s, i, "$enddefinitions")
    ensures DeclarationCommand(s, i) == None
  {
    assert s[i + 1] == "$enddefinitions"[1];
    KeywordAbsent("$comment", s, i);
    KeywordAbsent("$date", s, i);
    KeywordAbsent("$scope", s, i);
    KeywordAbsent("$timescale", s, i);
    KeywordAbsent("$upscope", s, i);
    KeywordAbsent("$var", s, i);
    KeywordAbsent("$version", s, i);
    assert CommandComment(s, i) == None;
    assert CommandDate(s, i) == None;
    assert CommandScope(s, i) == None;
    assert CommandTimescale(s, i) == None;
    assert CommandUpscope(s, i) == None;
    assert CommandVar(s, i) == None;
    assert CommandVersion(s, i) == None;
  }

  /** A keyword whose second character differs from the input's is not read. */
  lemma KeywordAbsent(keyword: string, s: string, i: nat)
    requires i + 1 < |s| && |keyword| > 1 && keyword[1] != s[i + 1]
    ensures KeywordThenSpace(keyword, s, i) == None
  {
    if At(s, i, keyword) {
      assert false;
    }
  }

  /** The smallest header: nothing but "$enddefinitions $end", with any
      whitespace around it, is accepted and captures nothing. */
  lemma MinimalHeader(s: string, a: nat, b: nat)
    requires At(s, a, "$enddefinitions") && At(s, b, "$end") && WhitespaceBetween(s, 0, a)
    requires a + 15 < b && WhitespaceBetween(s, a + 15, b)
    requires WhitespaceBetween(s, b + 4, |s|)
    ensures VcdFile(s) == Some(Parsed(|s|, []))
  {
    assert s[a] == '$' && s[b] == '$';
    WhitespacesOfRun(s, 0, a);
    NoCommandAtEnddefinitions(s, a);
    assert HeaderSection(s, a) == Parsed(a, []);
    KeywordThenSpaceOf("$enddefinitions", s, a, b);
    WhitespacesOfRun(s, b + 4, |s|);
  }
}
