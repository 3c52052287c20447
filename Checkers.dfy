/** Commit-time validation of a declared signal (VCDCheckers.hpp). */
module Checkers {
  import opened Wrappers
  import opened Types
  import Decimal

  /** The three ways a declaration can be rejected. */
  datatype ValidationError =
    | NotInScope(reference: string)
    | IndexSizeMismatch(reference: string, index: int, size: nat)
    | RangeSizeMismatch(reference: string, left: int, right: int, width: nat, size: nat)

  /** The text of the exception raised for each rejection. */
  function Message(e: ValidationError): string {
    match e
    case NotInScope(r) =>
      "Signal '" + r + "' needs to be part of a scope"
    case IndexSizeMismatch(r, i, n) =>
      "Size mismatch for signal '" + r + "': index [" + Decimal.IntToDecimal(i) +
      "] implies size 1 but declared size is " + Decimal.NatToDecimal(n)
    case RangeSizeMismatch(r, lft, rgt, w, n) =>
      "Range size mismatch for signal '" + r + "': range [" + Decimal.IntToDecimal(lft) +
      ":" + Decimal.IntToDecimal(rgt) + "] implies size " + Decimal.NatToDecimal(w) +
      " but declared size is " + Decimal.NatToDecimal(n)
  }

  function Abs(x: int): nat { if x < 0 then -x else x }

  /** The bit-select suffix a declaration carries, read from its two index
      fields (-1 meaning absent). */
  datatype Select = NoSelect | BitSelect(index: int) | RangeSelect(left: int, right: int)

  function SelectOf(s: Signal): Select {
    if s.rindex == -1 then NoSelect
    else if s.lindex == -1 then BitSelect(s.rindex)
    else RangeSelect(s.lindex, s.rindex)
  }

  /** The number of bits a select names: one for `[n]`, |m - n| + 1 for `[m:n]`. */
  function SelectWidth(sel: Select): Option<nat> {
    match sel
    case NoSelect => None
    case BitSelect(_) => Some(1)
    case RangeSelect(l, r) => Some(Abs(l - r) + 1)
  }

  /** A declaration the reader accepts: it sits in a scope, and a select, when
      present, is exactly as wide as the declared size. */
  predicate WellDeclared(s: Signal) {
    s.scope.Some? &&
    match SelectWidth(SelectOf(s))
    case None => true
    case Some(w) => w == s.size
  }

  /** `ValidateVCDSignal`: the scope check first, then the select check. The
      signal itself is a value, so nothing about it can change. */
  function ValidateSignal(s: Signal): (r: Outcome<ValidationError>)
    ensures r.Pass? <==> WellDeclared(s)
    ensures s.scope.None? ==> r == Fail(NotInScope(s.reference))
    ensures r.Fail? && s.scope.Some? ==> r.error.reference == s.reference
  {
    if s.scope.None? then
      Fail(NotInScope(s.reference))
    else if s.rindex != -1 then
      if s.lindex != -1 then
        var width := Abs(s.lindex - s.rindex) + 1;
        if width != s.size then Fail(RangeSizeMismatch(s.reference, s.lindex, s.rindex, width, s.size))
        else Pass
      else if s.size != 1 then Fail(IndexSizeMismatch(s.reference, s.rindex, s.size))
      else Pass
    else
      Pass
  }

  /** Without a right index no width check is made, whatever the left index
      and the size are. */
  lemma NoRightIndexOnlyNeedsScope(s: Signal)
    requires s.rindex == -1
    ensures ValidateSignal(s).Pass? <==> s.scope.Some?
  {
  }

  /** A single index `[n]` (right index set, left index absent) is accepted
      exactly when the declared size is 1, and otherwise reported as a size
      mismatch naming the index and the size. */
  lemma SingleIndexCheck(s: Signal)
    requires s.scope.Some? && s.rindex != -1 && s.lindex == -1
    ensures ValidateSignal(s).Pass? <==> s.size == 1
    ensures s.size != 1 ==> ValidateSignal(s) == Fail(IndexSizeMismatch(s.reference, s.rindex, s.size))
  {
  }

  /** A range `[m:n]` is accepted exactly when |m - n| + 1 equals the size,
      and otherwise reported as a range size mismatch. */
  lemma RangeCheck(s: Signal)
    requires s.scope.Some? && s.rindex != -1 && s.lindex != -1
    ensures ValidateSignal(s).Pass? <==> Abs(s.lindex - s.rindex) + 1 == s.size
    ensures ValidateSignal(s).Fail? ==>
      ValidateSignal(s) == Fail(RangeSizeMismatch(s.reference, s.lindex, s.rindex, Abs(s.lindex - s.rindex) + 1, s.size))
  {
  }

  /** The range width does not depend on the order of the bounds: `[3:0]` and
      `[0:3]` are judged alike. */
  lemma RangeWidthSymmetric(s: Signal)
    requires s.rindex != -1 && s.lindex != -1
    ensures ValidateSignal(s).Pass? <==> ValidateSignal(s.(lindex := s.rindex, rindex := s.lindex)).Pass?
  {
  }

  /** The scope check comes first: an unscoped signal is reported as such even
      when its select is also inconsistent. */
  lemma ScopeCheckedFirst(s: Signal)
    requires s.scope.None?
    ensures Message(ValidateSignal(s).error) == "Signal '" + s.reference + "' needs to be part of a scope"
  {
  }

  /** The phrase each message opens with. */
  function Headline(e: ValidationError): string {
    match e
    case NotInScope(_) => "Signal '"
    case IndexSizeMismatch(_, _, _) => "Size mismatch for signal '"
    case RangeSizeMismatch(_, _, _, _, _) => "Range size mismatch for signal '"
  }

  /** Every message opens with the phrase of its kind, followed by the
      signal's reference. */
  lemma MessageOpensWithHeadline(e: ValidationError)
    ensures Headline(e) + e.reference <= Message(e)
  {
    match e
    case NotInScope(r) =>
      PrefixOfConcat("Signal '" + r, "' needs to be part of a scope");
    case IndexSizeMismatch(r, i, n) =>
      IndexMessageShape(r, i, n);
    case RangeSizeMismatch(r, lft, rgt, w, n) =>
      RangeMessageShape(r, lft, rgt, w, n);
  }

  lemma IndexMessageShape(r: string, i: int, n: nat)
    ensures "Size mismatch for signal '" + r <= Message(IndexSizeMismatch(r, i, n))
  {
    var h := "Size mismatch for signal '" + r;
    var t := "': index [" + Decimal.IntToDecimal(i);
    var u := "] implies size 1 but declared size is " + Decimal.NatToDecimal(n);
    assert Message(IndexSizeMismatch(r, i, n)) == h + t + u;
    PrefixOfConcat(h, t + u);
  }

  lemma RangeMessageShape(r: string, lft: int, rgt: int, w: nat, n: nat)
    ensures "Range size mismatch for signal '" + r <= Message(RangeSizeMismatch(r, lft, rgt, w, n))
  {
    var h := "Range size mismatch for signal '" + r;
    var t := "': range [" + Decimal.IntToDecimal(lft) + ":" + Decimal.IntToDecimal(rgt);
    var u := "] implies size " + Decimal.NatToDecimal(w) + " but declared size is " + Decimal.NatToDecimal(n);
    assert Message(RangeSizeMismatch(r, lft, rgt, w, n)) == h + t + u;
    PrefixOfConcat(h, t + u);
  }

  lemma PrefixOfConcat(a: string, b: string)
    ensures a <= a + b
  {
    assert (a + b)[..|a|] == a;
  }

  /** Two concrete declarations from the reader's tests: `[0]` with size 1 is
      accepted, `[3:0]` with size 2 is not. */
  lemma IndexedExamples()
    ensures ValidateSignal(Signal("!", "data", Some(0), 1, VarWire, -1, 0)) == Pass
    ensures ValidateSignal(Signal("!", "data", Some(0), 2, VarWire, 3, 0)) ==
      Fail(RangeSizeMismatch("data", 3, 0, 4, 2))
  {
  }
}
