/** Enumerations and records shared by the VCD reader (VCDTypes.hpp). */
module Types {
  import opened Wrappers

  /** The nine signal states; the first four are the VCD four-state logic. */
  datatype Bit = Bit0 | Bit1 | BitX | BitZ | BitU | BitW | BitL | BitH | BitDC

  /** The numeric code the enumeration gives each state. */
  function BitCode(b: Bit): (code: nat)
    ensures code < 9
    ensures code < 4 <==> IsCoreState(b)
  {
    match b
    case Bit0 => 0
    case Bit1 => 1
    case BitX => 2
    case BitZ => 3
    case BitU => 4
    case BitW => 5
    case BitL => 6
    case BitH => 7
    case BitDC => 8
  }

  /** 0, 1, X and Z: the states of IEEE Std 1364-2005 four-state logic. */
  predicate IsCoreState(b: Bit) {
    b == Bit0 || b == Bit1 || b == BitX || b == BitZ
  }

  /** Distinct states have distinct codes, so the codes are exactly 0..8. */
  lemma BitCodeInjective(a: Bit, b: Bit)
    ensures BitCode(a) == BitCode(b) <==> a == b
  {
  }

  /** The variable kinds a `$var` declaration can name. */
  datatype VarType =
    | VarUnknown | VarEvent | VarInteger | VarParameter | VarReal | VarRealtime
    | VarReg | VarSupply0 | VarSupply1 | VarTime | VarTri | VarTriand | VarTrior
    | VarTrireg | VarTri0 | VarTri1 | VarWand | VarWire | VarWor

  /** The time units of `$timescale`. */
  datatype TimeUnit = TimeUnknown | TimeS | TimeMs | TimeUs | TimeNs | TimePs | TimeFs

  /** The kind of construct a `$scope` opens. */
  datatype ScopeType =
    ScopeUnknown | ScopeBegin | ScopeFork | ScopeFunction | ScopeModule | ScopeTask | ScopeRoot

  /** How a value is represented: a single state, a vector of states or a real. */
  datatype ValueType = VcdScalar | VcdVector | VcdReal

  /** A declared signal. `scope` is the index of the owning scope in the file's
      scope arena (a null pointer is `None`). The index fields use -1 for
      "absent": `[n]` is stored with `rindex == n` and `lindex == -1`,
      `[m:n]` with `lindex == m` and `rindex == n`. */
  datatype Signal = Signal(
    hash: string,
    reference: string,
    scope: Option<nat>,
    size: nat,
    kind: VarType,
    lindex: int,
    rindex: int)

  /** A scope of the hierarchy; the links are indices into the file's arenas
      (`parent` into the scopes, `children` into the scopes, `signals` into
      the signals). */
  datatype Scope = Scope(
    name: string,
    kind: ScopeType,
    parent: Option<nat>,
    children: seq<nat>,
    signals: seq<nat>)

  /** A signal together with the per-signal sample storage of the record:
      scalar bits, vectors (each an owned array of `size` states), reals and
      timestamps. Copying it copies every field and gives the copy its own
      arrays. */
  class SignalRecord {
    var decl: Signal
    var bits: seq<Bit>
    var vectors: seq<array<Bit>>
    var reals: seq<real>
    var timestamps: seq<nat>

    /** Every stored vector holds at least `size` states. */
    ghost predicate Valid()
      reads this, set a | a in vectors
    {
      forall a :: a in vectors ==> decl.size <= a.Length
    }

    /** The states of each vector, in order. */
    ghost function VectorContents(): seq<seq<Bit>>
      reads this, set a | a in vectors
      requires Valid()
    {
      Prefixes(vectors, decl.size)
    }

    /** A record with no hash, no scope, size 0, unknown kind and no index. */
    constructor ()
      ensures decl == Signal("", "", None, 0, VarUnknown, -1, -1)
      ensures bits == [] && vectors == [] && reals == [] && timestamps == []
      ensures Valid()
    {
      decl := Signal("", "", None, 0, VarUnknown, -1, -1);
      bits, vectors, reals, timestamps := [], [], [], [];
    }

    /** The copy constructor: every field copied, each vector deep-copied. */
    constructor Copy(other: SignalRecord)
      requires other.Valid()
      ensures decl == other.decl && bits == other.bits && reals == other.reals
      ensures timestamps == other.timestamps
      ensures |vectors| == |other.vectors|
      ensures forall a :: a in vectors ==> fresh(a)
      ensures Valid() && VectorContents() == other.VectorContents()
    {
      decl := other.decl;
      bits := other.bits;
      reals := other.reals;
      timestamps := other.timestamps;
      var copies := DeepCopy(other.vectors, other.decl.size);
      vectors := copies;
      new;
      CopiesHaveSameContents(vectors, other.vectors, decl.size);
    }

    /** Assignment: a no-op on self-assignment, otherwise a field-wise copy
        with freshly allocated vectors. */
    method Assign(other: SignalRecord)
      requires other.Valid()
      modifies this
      ensures other == this ==> unchanged(this)
      ensures other != this ==>
        decl == old(other.decl) && bits == old(other.bits) && reals == old(other.reals) &&
        timestamps == old(other.timestamps) && |vectors| == |old(other.vectors)| &&
        (forall a :: a in vectors ==> fresh(a))
      ensures other != this ==> Valid() && VectorContents() == old(other.VectorContents())
    {
      if other == this {
        return;
      }
      decl := other.decl;
      bits := other.bits;
      reals := other.reals;
      timestamps := other.timestamps;
      vectors := DeepCopy(other.vectors, other.decl.size);
      CopiesHaveSameContents(vectors, other.vectors, decl.size);
    }
  }

  /** Arrays holding the same first `n` states have the same contents. */
  lemma CopiesHaveSameContents(dst: seq<array<Bit>>, src: seq<array<Bit>>, n: nat)
    requires |dst| == |src|
    requires forall a :: a in dst ==> a.Length == n
    requires forall a :: a in src ==> n <= a.Length
    requires forall i :: 0 <= i < |dst| ==> dst[i][..] == src[i][..n]
    ensures Prefixes(dst, n) == Prefixes(src, n)
  {
    var p, q := Prefixes(dst, n), Prefixes(src, n);
    forall i | 0 <= i < |dst| ensures p[i] == q[i] {
      assert dst[i] in dst;
      assert dst[i][..n] == dst[i][..];
    }
  }

  /** The first `n` states of each array, in order. */
  ghost function Prefixes(vs: seq<array<Bit>>, n: nat): (r: seq<seq<Bit>>)
    reads set a | a in vs
    requires forall a :: a in vs ==> n <= a.Length
    ensures |r| == |vs|
    ensures forall i :: 0 <= i < |vs| ==> r[i] == vs[i][..n]
  {
    if vs == [] then [] else [vs[0][..n]] + Prefixes(vs[1..], n)
  }

  /** Allocates one array per source array and copies its first `n` states
      into it. */
  method DeepCopy(src: seq<array<Bit>>, n: nat) returns (dst: seq<array<Bit>>)
    requires forall a :: a in src ==> n <= a.Length
    ensures |dst| == |src|
    ensures forall a :: a in dst ==> fresh(a) && a.Length == n
    ensures forall i :: 0 <= i < |dst| ==> dst[i][..] == src[i][..n]
  {
    dst := [];
    var i := 0;
    while i < |src|
      invariant 0 <= i <= |src|
      invariant |dst| == i
      invariant forall a :: a in dst ==> fresh(a) && a.Length == n
      invariant forall j :: 0 <= j < i ==> dst[j][..] == src[j][..n]
    {
      var copy := CopyPrefix(src[i], n);
      dst := dst + [copy];
      i := i + 1;
    }
  }

  /** `std::copy_n` into a new array of `n` states. */
  method CopyPrefix(src: array<Bit>, n: nat) returns (dst: array<Bit>)
    requires n <= src.Length
    ensures fresh(dst) && dst.Length == n
    ensures dst[..] == src[..n]
  {
    dst := new Bit[n];
    var k := 0;
    while k < n
      invariant 0 <= k <= n
      invariant forall j :: 0 <= j < k ==> dst[j] == src[j]
    {
      dst[k] := src[k];
      k := k + 1;
    }
  }
}
