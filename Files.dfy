/** The top-level container of a parsed VCD file (VCDFile.hpp, VCDFile.cpp):
    the scope arena with its current-scope cursor, the signal arena, the
    timestamp list and one list of timed values per signal hash. */
module Files {
  import opened Wrappers
  import opened Types
  import Values

  /** One recorded value change: a time and the value the signal took. */
  datatype TimedValue = TimedValue(time: nat, value: Values.Payload)

  /** The scope being assembled from `$scope` captures. */
  datatype ScopeBuilder = ScopeBuilder(name: string, kind: ScopeType)

  /** Every link of a scope points into arenas of the given sizes. */
  predicate LinksWithin(sc: Scope, scopeCount: nat, signalCount: nat) {
    (sc.parent.Some? ==> sc.parent.value < scopeCount) &&
    (forall c :: c in sc.children ==> c < scopeCount) &&
    (forall g :: g in sc.signals ==> g < signalCount)
  }

  // -----------------------------------------------------------------------
  // The value-at-time query, stated on a list of timed values

  /** The length of the leading run of entries recorded no later than `t`:
      the scan stops at the first later entry. */
  function LeadingRun(vs: seq<TimedValue>, t: nat): (k: nat)
    ensures k <= |vs|
  {
    if vs == [] || vs[0].time > t then 0 else 1 + LeadingRun(vs[1..], t)
  }

  /** The entries are in non-decreasing time order. */
  predicate TimeOrdered(vs: seq<TimedValue>) {
    forall i, j :: 0 <= i < j < |vs| ==> vs[i].time <= vs[j].time
  }

  /** The value the scan answers: the last entry of the leading run, or
      nothing when the run is empty. */
  function ValueAt(vs: seq<TimedValue>, t: nat): Option<Values.Payload> {
    var k := LeadingRun(vs, t);
    if k == 0 then None else Some(vs[k - 1].value)
  }

  /** What remains after the query with `erase_prior`: the entries before
      the answered one are dropped; nothing is dropped when there is no
      answer. */
  function ErasePrior(vs: seq<TimedValue>, t: nat): seq<TimedValue> {
    var k := LeadingRun(vs, t);
    if k == 0 then vs else vs[k - 1..]
  }

  /** The leading run is exactly the entries up to the first one after `t`. */
  lemma {:induction false} LeadingRunCharacterized(vs: seq<TimedValue>, t: nat)
    ensures forall j :: 0 <= j < LeadingRun(vs, t) ==> vs[j].time <= t
    ensures LeadingRun(vs, t) < |vs| ==> vs[LeadingRun(vs, t)].time > t
  {
    if vs != [] && vs[0].time <= t {
      LeadingRunCharacterized(vs[1..], t);
    }
  }

  /** A prefix with those two properties is the leading run. */
  lemma {:induction false} LeadingRunUnique(vs: seq<TimedValue>, t: nat, k: nat)
    requires k <= |vs|
    requires forall j :: 0 <= j < k ==> vs[j].time <= t
    requires k < |vs| ==> vs[k].time > t
    ensures LeadingRun(vs, t) == k
  {
    if k > 0 {
      LeadingRunUnique(vs[1..], t, k - 1);
    }
  }

  /** On time-ordered entries the scan answers the step function: the value
      of the last entry recorded no later than `t`, and nothing when every
      entry is later than `t`. */
  lemma StepFunction(vs: seq<TimedValue>, t: nat)
    requires TimeOrdered(vs)
    ensures ValueAt(vs, t).None? <==> forall j :: 0 <= j < |vs| ==> vs[j].time > t
    ensures ValueAt(vs, t).Some? ==>
      (exists k :: 0 <= k < |vs| && vs[k].time <= t &&
        ValueAt(vs, t) == Some(vs[k].value) && forall j :: k < j < |vs| ==> vs[j].time > t)
  {
    LeadingRunCharacterized(vs, t);
    var k := LeadingRun(vs, t);
    if k > 0 {
      assert vs[k - 1].time <= t;
    }
  }

  /** The scan stops at the first later entry even when the list is not
      time-ordered: an entry after it is never answered. */
  lemma ScanStopsAtFirstLater(vs: seq<TimedValue>, t: nat, m: nat)
    requires m < |vs| && vs[m].time > t
    ensures LeadingRun(vs, t) <= m
  {
    LeadingRunCharacterized(vs, t);
  }

  /** With `erase_prior`, the answered entry becomes the first one, the
      entries after it are kept, and the answer itself does not change. */
  lemma EraseKeepsAnswer(vs: seq<TimedValue>, t: nat)
    ensures ValueAt(vs, t).Some? ==>
      (|ErasePrior(vs, t)| == |vs| - LeadingRun(vs, t) + 1 &&
       ErasePrior(vs, t)[0].value == ValueAt(vs, t).value)
    ensures ValueAt(vs, t).None? ==> ErasePrior(vs, t) == vs
    ensures ValueAt(ErasePrior(vs, t), t) == ValueAt(vs, t)
  {
    var k := LeadingRun(vs, t);
    LeadingRunCharacterized(vs, t);
    if k > 0 {
      var e := vs[k - 1..];
      LeadingRunUnique(e, t, 1);
    }
  }

  /** Erasing is safe for a forward scan: after a query at `t` with
      `erase_prior`, every query at a later time `u` answers what it would
      have answered on the full list. */
  lemma {:induction false} EraseSafeForForwardScan(vs: seq<TimedValue>, t: nat, u: nat)
    requires t <= u
    ensures ValueAt(ErasePrior(vs, t), u) == ValueAt(vs, u)
  {
    var k := LeadingRun(vs, t);
    LeadingRunCharacterized(vs, t);
    LeadingRunCharacterized(vs, u);
    var ku := LeadingRun(vs, u);
    if k > 0 {
      assert k <= ku;
      var e := vs[k - 1..];
      LeadingRunUnique(e, u, ku - k + 1);
    }
  }

  /** The source's loop over the list: walks the entries while they are no
      later than `t` and answers how many it walked. */
  method ScanLeadingRun(vs: seq<TimedValue>, t: nat) returns (k: nat)
    ensures k <= |vs|
    ensures forall j :: 0 <= j < k ==> vs[j].time <= t
    ensures k < |vs| ==> vs[k].time > t
  {
    k := 0;
    while k < |vs| && vs[k].time <= t
      invariant k <= |vs|
      invariant forall j :: 0 <= j < k ==> vs[j].time <= t
    {
      k := k + 1;
    }
  }

  // -----------------------------------------------------------------------
  // The container

  class VcdFile {
    /** Public metadata, with the defaults of a new container. */
    var timeUnits: TimeUnit
    var timeResolution: nat
    var date: string
    var version: string
    var comment: string
    /** The open scope, as an index into `scopes`; `None` when no scope is
        open. */
    var currentScope: Option<nat>
    /** The scope under construction (name and kind captured so far). */
    var scopeBuilder: ScopeBuilder
    /** Scopes in insertion order; their links are indices. */
    var scopes: seq<Scope>
    /** Signals in insertion order. */
    var signals: seq<Signal>
    /** Timestamps in insertion order. */
    var times: seq<nat>
    /** The timed values of each declared hash. */
    var values: map<string, seq<TimedValue>>

    /** Every index stored in the arenas and the cursor points into them,
        and the hashes with a value list are exactly the declared ones. */
    ghost predicate Valid()
      reads this
    {
      (currentScope.Some? ==> currentScope.value < |scopes|) &&
      (forall k :: 0 <= k < |scopes| ==> LinksWithin(scopes[k], |scopes|, |signals|)) &&
      (forall g :: 0 <= g < |signals| ==> signals[g].hash in values) &&
      (forall h :: h in values ==> Declared(h))
    }

    /** Some signal was declared with this hash. */
    ghost predicate Declared(hash: string)
      reads this
    {
      exists g :: 0 <= g < |signals| && signals[g].hash == hash
    }

    /** A new container: unknown time unit, resolution 0, no open scope,
        empty text fields and empty tables. */
    constructor ()
      ensures Valid()
      ensures timeUnits == TimeUnknown && timeResolution == 0
      ensures date == "" && version == "" && comment == "" && currentScope == None
      ensures scopeBuilder == ScopeBuilder("", ScopeUnknown)
      ensures scopes == [] && signals == [] && times == [] && values == map[]
    {
      timeUnits, timeResolution := TimeUnknown, 0;
      date, version, comment := "", "", "";
      currentScope := None;
      scopeBuilder := ScopeBuilder("", ScopeUnknown);
      scopes, signals, times, values := [], [], [], map[];
    }

    /** `AddScope`: appends the scope, records it as a child of the open
        scope if there is one, and makes it the open scope. The scope's own
        parent link is stored as given. */
    method AddScope(sc: Scope)
      requires Valid() && LinksWithin(sc, |scopes| + 1, |signals|)
      modifies this
      ensures Valid()
      ensures |scopes| == |old(scopes)| + 1 && scopes[|scopes| - 1] == sc
      ensures currentScope == Some(|old(scopes)|)
      ensures old(currentScope).Some? ==>
        var c := old(currentScope).value;
        scopes[..|scopes| - 1] ==
          old(scopes)[c := old(scopes)[c].(children := old(scopes)[c].children + [|old(scopes)|])]
      ensures old(currentScope).None? ==> scopes[..|scopes| - 1] == old(scopes)
      ensures signals == old(signals) && times == old(times) && values == old(values)
      ensures timeUnits == old(timeUnits) && timeResolution == old(timeResolution)
      ensures date == old(date) && version == old(version) && comment == old(comment)
      ensures scopeBuilder == old(scopeBuilder)
    {
      var index := |scopes|;
      var arena := scopes;
      if currentScope.Some? {
        var c := currentScope.value;
        arena := arena[c := arena[c].(children := arena[c].children + [index])];
      }
      scopes := arena + [sc];
      currentScope := Some(index);
      assert scopes[..|scopes| - 1] == arena;
    }

    /** `AddSignal`: requires an open scope (the source dereferences it).
        Appends the signal to the signal list and to the open scope's
        signals, and gives its hash an empty value list unless the hash
        already has one, which is then left as it is. */
    method AddSignal(sig: Signal)
      requires Valid() && currentScope.Some?
      modifies this
      ensures Valid()
      ensures signals == old(signals) + [sig]
      ensures var c := old(currentScope).value;
        scopes == old(scopes)[c := old(scopes)[c].(signals := old(scopes)[c].signals + [|old(signals)|])]
      ensures sig.hash in old(values) ==> values == old(values)
      ensures sig.hash !in old(values) ==> values == old(values)[sig.hash := []]
      ensures currentScope == old(currentScope) && times == old(times)
      ensures timeUnits == old(timeUnits) && timeResolution == old(timeResolution)
      ensures date == old(date) && version == old(version) && comment == old(comment)
      ensures scopeBuilder == old(scopeBuilder)
    {
      var index := |signals|;
      signals := signals + [sig];
      var c := currentScope.value;
      scopes := scopes[c := scopes[c].(signals := scopes[c].signals + [index])];
      if sig.hash !in values {
        values := values[sig.hash := []];
      }
      assert signals[index].hash == sig.hash;
      forall h | h in values
        ensures Declared(h)
      {
        if h != sig.hash {
          var g :| 0 <= g < |old(signals)| && old(signals)[g].hash == h;
          assert signals[g].hash == h;
        }
      }
    }

    /** `AddTimestamp`: appends, with no ordering check. */
    method AddTimestamp(t: nat)
      modifies this`times
      ensures times == old(times) + [t]
    {
      times := times + [t];
    }

    /** `AddSignalValue`: appends to the hash's list, which must exist (the
        source dereferences the null it would find otherwise). */
    method AddSignalValue(tv: TimedValue, hash: string)
      requires hash in values
      modifies this`values
      ensures values == old(values)[hash := old(values)[hash] + [tv]]
    {
      values := values[hash := values[hash] + [tv]];
    }

    /** `GetScope`: the first scope in insertion order with that name, or
        none. */
    method GetScope(name: string) returns (r: Option<nat>)
      ensures r.Some? ==>
        (r.value < |scopes| && scopes[r.value].name == name &&
         forall j :: 0 <= j < r.value ==> scopes[j].name != name)
      ensures r.None? <==> forall j :: 0 <= j < |scopes| ==> scopes[j].name != name
    {
      var k := 0;
      while k < |scopes|
        invariant k <= |scopes|
        invariant forall j :: 0 <= j < k ==> scopes[j].name != name
      {
        if scopes[k].name == name {
          return Some(k);
        }
        k := k + 1;
      }
      return None;
    }

    /** `getSignal`: the first signal declared with that hash, or none; the
        signal table keyed by hash holds one signal per hash. */
    method GetSignal(hash: string) returns (r: Option<nat>)
      ensures r.Some? ==>
        (r.value < |signals| && signals[r.value].hash == hash &&
         forall j :: 0 <= j < r.value ==> signals[j].hash != hash)
      ensures r.None? <==> forall j :: 0 <= j < |signals| ==> signals[j].hash != hash
    {
      var k := 0;
      while k < |signals|
        invariant k <= |signals|
        invariant forall j :: 0 <= j < k ==> signals[j].hash != hash
      {
        if signals[k].hash == hash {
          return Some(k);
        }
        k := k + 1;
      }
      return None;
    }

    /** `exists`: the hash has a value list. */
    function Exists(hash: string): (b: bool)
      reads this
      requires Valid()
      ensures b <==> Declared(hash)
    {
      hash in values
    }

    /** `getTimestamp`: the `index`-th timestamp appended. */
    function GetTimestamp(index: nat): (t: nat)
      reads this
      requires index < |times|
      ensures t in times
    {
      times[index]
    }

    /** `GetSignalValues`: the hash's list, or none for an unknown hash. */
    function GetSignalValues(hash: string): (r: Option<seq<TimedValue>>)
      reads this
      ensures r.Some? <==> hash in values
      ensures r.Some? ==> r.value == values[hash]
    {
      if hash in values then Some(values[hash]) else None
    }

    /** `GetSignalValue`: none for an unknown hash or an empty list;
        otherwise the value of the last entry of the leading run recorded no
        later than `t`. With `erasePrior` the entries before the answered
        one are removed; otherwise nothing changes. */
    method GetSignalValue(hash: string, t: nat, erasePrior: bool) returns (r: Option<Values.Payload>)
      modifies this`values
      ensures hash !in old(values) ==> r.None? && values == old(values)
      ensures hash in old(values) ==> r == ValueAt(old(values)[hash], t)
      ensures hash in old(values) && erasePrior ==>
        values == old(values)[hash := ErasePrior(old(values)[hash], t)]
      ensures !erasePrior ==> values == old(values)
    {
      if hash !in values {
        return None;
      }
      var vs := values[hash];
      if vs == [] {
        return None;
      }
      var k := ScanLeadingRun(vs, t);
      LeadingRunUnique(vs, t, k);
      r := if k == 0 then None else Some(vs[k - 1].value);
      if erasePrior && k > 0 {
        values := values[hash := vs[k - 1..]];
      }
    }
  }

  /** The expected answers on the list {0: '0', 5: '1', 10: 'X'}: the value
      at 7 is '1' and the value at 0 is '0'; on a list whose first entry is
      at 5, a query at 3 answers nothing. */
  lemma LookupScenario()
    ensures var vs := [TimedValue(0, Values.BitPayload(Bit0)), TimedValue(5, Values.BitPayload(Bit1)),
                       TimedValue(10, Values.BitPayload(BitX))];
      ValueAt(vs, 7) == Some(Values.BitPayload(Bit1)) &&
      ValueAt(vs, 0) == Some(Values.BitPayload(Bit0)) &&
      ValueAt(vs[1..], 3) == None
  {
    var vs := [TimedValue(0, Values.BitPayload(Bit0)), TimedValue(5, Values.BitPayload(Bit1)),
               TimedValue(10, Values.BitPayload(BitX))];
    LeadingRunUnique(vs, 7, 2);
    LeadingRunUnique(vs, 0, 1);
    LeadingRunUnique(vs[1..], 3, 0);
  }
}
