/** Signal values and their text rendering (VCDValue.hpp, VCDValue.cpp). */
module Values {
  import opened Wrappers
  import opened Types

  /** `VCDBit2Char`: the four core states print as themselves, every extended
      state as '?'. */
  function BitChar(b: Bit): (c: char)
    ensures IsCoreState(b) <==> c != '?'
  {
    match b
    case Bit0 => '0'
    case Bit1 => '1'
    case BitZ => 'Z'
    case BitX => 'X'
    case _ => '?'
  }

  /** On the four core states the rendering loses nothing. */
  lemma BitCharInjectiveOnCore(a: Bit, b: Bit)
    requires IsCoreState(a) && IsCoreState(b)
    ensures BitChar(a) == BitChar(b) <==> a == b
  {
  }

  /** One character per state, in index order. */
  function PlainBits(bits: seq<Bit>): (s: string)
    ensures |s| == |bits|
    ensures forall i :: 0 <= i < |bits| ==> s[i] == BitChar(bits[i])
  {
    if bits == [] then [] else [BitChar(bits[0])] + PlainBits(bits[1..])
  }

  // ---------------------------------------------------------------------
  // The variant revision: a value holds exactly one of its three payloads,
  // alongside a separate type code that `ToString` switches on.

  /** The alternative a value holds. */
  datatype Payload = BitPayload(bit: Bit) | VectorPayload(bits: seq<Bit>) | RealPayload(r: real)

  /** The exception an accessor raises on the wrong alternative. */
  datatype BadVariantAccess = BadVariantAccess

  /** A value: its `ValueType` code (0 scalar, 1 vector, 2 real; the field
      is an unsigned char, so other codes can be stored) and its payload. */
  datatype VariantValue = VariantValue(typeCode: nat, data: Payload)

  function TypeCode(t: ValueType): nat {
    match t
    case VcdScalar => 0
    case VcdVector => 1
    case VcdReal => 2
  }

  /** The code and the payload agree. */
  predicate Consistent(v: VariantValue) {
    (v.typeCode == 0 && v.data.BitPayload?) ||
    (v.typeCode == 1 && v.data.VectorPayload?) ||
    (v.typeCode == 2 && v.data.RealPayload?)
  }

  /** `GetValBit`: the state, when the value holds one. */
  function GetValBit(v: Payload): (r: Result<Bit, BadVariantAccess>)
    ensures r.Ok? <==> v.BitPayload?
    ensures r.Ok? ==> r.value == v.bit
  {
    if v.BitPayload? then Ok(v.bit) else Err(BadVariantAccess)
  }

  /** `GetValVector`: the states, when the value holds a vector. */
  function GetValVector(v: Payload): (r: Result<seq<Bit>, BadVariantAccess>)
    ensures r.Ok? <==> v.VectorPayload?
    ensures r.Ok? ==> r.value == v.bits
  {
    if v.VectorPayload? then Ok(v.bits) else Err(BadVariantAccess)
  }

  /** `GetValReal`: the number, when the value holds a real. */
  function GetValReal(v: Payload): (r: Result<real, BadVariantAccess>)
    ensures r.Ok? <==> v.RealPayload?
    ensures r.Ok? ==> r.value == v.r
  {
    if v.RealPayload? then Ok(v.r) else Err(BadVariantAccess)
  }

  /** Exactly one accessor succeeds on any value. */
  lemma ExactlyOneAccessor(v: Payload)
    ensures (if GetValBit(v).Ok? then 1 else 0) + (if GetValVector(v).Ok? then 1 else 0) +
            (if GetValReal(v).Ok? then 1 else 0) == 1
  {
  }

  /** What the terminal rendering takes from outside the core: the colour
      sequence for a state, the reset and error colour sequences, and the
      stream formatting of a real. */
  datatype Style = Style(bitColor: Bit -> string, reset: string, invalidColor: string, realText: real -> string)

  /** The coloured text of one state. */
  function Segment(b: Bit, st: Style): string {
    st.bitColor(b) + [BitChar(b)] + st.reset
  }

  /** The coloured text of states, one segment each, in order. */
  function Segments(bits: seq<Bit>, st: Style): string {
    if bits == [] then [] else Segment(bits[0], st) + Segments(bits[1..], st)
  }

  /** Segments of a concatenation are the concatenated segments. */
  lemma {:induction false} SegmentsAppend(a: seq<Bit>, b: seq<Bit>, st: Style)
    ensures Segments(a + b, st) == Segments(a, st) + Segments(b, st)
  {
    if a != [] {
      assert (a + b)[1..] == a[1..] + b;
      SegmentsAppend(a[1..], b, st);
    } else {
      assert a + b == b;
    }
  }

  /** Without colour the segments are the plain characters. */
  lemma {:induction false} UncolouredSegments(bits: seq<Bit>, st: Style)
    requires forall b :: st.bitColor(b) == [] 
    requires st.reset == []
    ensures Segments(bits, st) == PlainBits(bits)
  {
    if bits != [] {
      UncolouredSegments(bits[1..], st);
    }
  }

  /** `ToString` of the variant revision: the payload named by the type code
      (a code that disagrees with the payload raises), or "<Invalid>" in the
      error colour for a code outside the enumeration. */
  function ColouredText(v: VariantValue, st: Style): (r: Result<string, BadVariantAccess>)
    ensures r.Ok? <==> (Consistent(v) || v.typeCode > 2)
    ensures v.typeCode <= 2 && !Consistent(v) ==> r == Err(BadVariantAccess)
    ensures v.typeCode > 2 ==> r == Ok(st.invalidColor + "<Invalid>" + st.reset)
  {
    match v.typeCode
    case 0 =>
      var b :- GetValBit(v.data);
      Ok(Segment(b, st))
    case 1 =>
      var bits :- GetValVector(v.data);
      Ok("0b" + Segments(bits, st))
    case 2 =>
      var x :- GetValReal(v.data);
      Ok(st.realText(x))
    case _ =>
      Ok(st.invalidColor + "<Invalid>" + st.reset)
  }

  /** A vector prints "0b" and then one coloured segment per state: appending
      a state appends its segment. */
  lemma VectorTextGrows(bits: seq<Bit>, b: Bit, st: Style)
    ensures ColouredText(VariantValue(1, VectorPayload(bits + [b])), st) ==
            Ok(ColouredText(VariantValue(1, VectorPayload(bits)), st).value + Segment(b, st))
  {
    SegmentsAppend(bits, [b], st);
    assert Segments([b], st) == Segment(b, st);
    assert "0b" + (Segments(bits, st) + Segment(b, st)) == ("0b" + Segments(bits, st)) + Segment(b, st);
  }

  /** Without colour, a scalar prints one character and a vector prints "0b"
      and one character per state. */
  lemma UncolouredText(v: VariantValue, st: Style)
    requires Consistent(v) && !v.data.RealPayload?
    requires forall b :: st.bitColor(b) == []
    requires st.reset == []
    ensures v.data.BitPayload? ==> ColouredText(v, st) == Ok([BitChar(v.data.bit)])
    ensures v.data.VectorPayload? ==> ColouredText(v, st) == Ok("0b" + PlainBits(v.data.bits))
  {
    if v.data.VectorPayload? {
      UncolouredSegments(v.data.bits, st);
    } else {
      assert st.bitColor(v.data.bit) == [];
      assert Segment(v.data.bit, st) == [BitChar(v.data.bit)];
    }
  }

  // ---------------------------------------------------------------------
  // The union revision: a two-bit type tag, the vector length, and a union
  // of a state, an owned array of states and a real.

  class UnionValue {
    var tag: nat
    var vectorSize: nat
    var scalar: Bit
    var vector: array?<Bit>
    var realPart: real

    /** The tag fits its two bits; a vector value owns at least
        `vectorSize` states, and a null vector has size 0. */
    ghost predicate Valid()
      reads this
    {
      tag < 4 &&
      (tag == 1 && vector == null ==> vectorSize == 0) &&
      (tag == 1 && vector != null ==> vectorSize <= vector.Length)
    }

    /** The states of a vector value. */
    ghost function VectorBits(): seq<Bit>
      reads this, vector
      requires Valid() && tag == 1
    {
      if vector == null then [] else vector[..vectorSize]
    }

    /** The default value is the scalar 0. */
    constructor ()
      ensures Valid() && tag == 0 && scalar == Bit0 && vectorSize == 0
    {
      tag, vectorSize, scalar := 0, 0, Bit0;
    }

    /** A scalar holding `b`. */
    constructor FromBit(b: Bit)
      ensures Valid() && tag == 0 && scalar == b && vectorSize == 0
    {
      tag, vectorSize, scalar := 0, 0, b;
    }

    /** A vector copied from the first `size` states of `bits`; a null
        source or a zero size gives an empty vector with no array. */
    constructor FromBits(bits: array?<Bit>, size: nat)
      requires bits != null ==> size <= bits.Length
      ensures Valid() && tag == 1
      ensures bits == null || size == 0 ==> vectorSize == 0 && vector == null
      ensures bits != null && size > 0 ==>
        vectorSize == size && vector != null && fresh(vector) && vector[..] == bits[..size]
    {
      tag := 1;
      if bits == null || size == 0 {
        vectorSize, vector := 0, null;
      } else {
        vectorSize := size;
        var copy := CopyPrefix(bits, size);
        vector := copy;
      }
    }

    /** A real. */
    constructor FromReal(x: real)
      ensures Valid() && tag == 2 && realPart == x && vectorSize == 0
    {
      tag, vectorSize, realPart := 2, 0, x;
    }

    /** The copy constructor: same tag and size; a non-empty vector gets its
        own array with the same states; a tag outside the enumeration copies
        no payload. */
    constructor Copy(other: UnionValue)
      requires other.Valid()
      ensures Valid() && tag == other.tag && vectorSize == other.vectorSize
      ensures tag == 0 ==> scalar == other.scalar
      ensures tag == 2 ==> realPart == other.realPart
      ensures tag == 1 ==> VectorBits() == other.VectorBits()
      ensures tag == 1 && vector != null ==> fresh(vector)
      ensures tag == 1 && vectorSize == 0 ==> vector == null
    {
      tag, vectorSize := other.tag, other.vectorSize;
      if other.tag == 0 {
        scalar := other.scalar;
      } else if other.tag == 1 {
        if other.vectorSize > 0 {
          var copy := CopyPrefix(other.vector, other.vectorSize);
          vector := copy;
        } else {
          vector := null;
        }
      } else if other.tag == 2 {
        realPart := other.realPart;
      }
    }

    /** `ToString`: a scalar is one character; a vector is "0b" and one
        character per state; a real is followed by "?" because its case falls
        through into the default, which prints "?" alone. */
    function ToString(realText: real -> string): (r: string)
      reads this, vector
      requires Valid()
      ensures tag == 0 ==> r == [BitChar(scalar)]
      ensures tag == 1 ==> (|r| == 2 + vectorSize && r[..2] == "0b" &&
        forall i :: 0 <= i < vectorSize ==> r[2 + i] == BitChar(vector[i]))
      ensures tag == 2 ==> realText(realPart) <= r && |r| > 0 && r[|r| - 1] == '?'
      ensures tag == 3 ==> r == "?"
    {
      if tag == 0 then [BitChar(scalar)]
      else if tag == 1 then "0b" + PlainBits(if vector == null then [] else vector[..vectorSize])
      else if tag == 2 then realText(realPart) + "?"
      else "?"
    }
  }

  /** The union revision's text of a vector is the variant revision's text
      with colour turned off. */
  lemma UnionAgreesWithVariant(u: UnionValue, st: Style)
    requires u.Valid() && u.tag == 1
    requires forall b :: st.bitColor(b) == []
    requires st.reset == []
    ensures Ok(u.ToString(st.realText)) == ColouredText(VariantValue(1, VectorPayload(u.VectorBits())), st)
  {
    UncolouredSegments(u.VectorBits(), st);
  }
}
