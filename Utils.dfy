/** Display names of the enumerations (Utils.cpp / Utils.hpp). */
module Utils {
  import opened Types

  /** The keyword a variable kind is written with in a `$var` declaration;
      "unknown" for the unknown kind. */
  function VarTypeName(t: VarType): (name: string)
    ensures name != "invalid"
    ensures name == "unknown" <==> t == VarUnknown
  {
    match t
    case VarUnknown => "unknown"
    case VarEvent => "event"
    case VarInteger => "integer"
    case VarParameter => "parameter"
    case VarReal => "real"
    case VarRealtime => "realtime"
    case VarReg => "reg"
    case VarSupply0 => "supply0"
    case VarSupply1 => "supply1"
    case VarTime => "time"
    case VarTri => "tri"
    case VarTriand => "triand"
    case VarTrior => "trior"
    case VarTrireg => "trireg"
    case VarTri0 => "tri0"
    case VarTri1 => "tri1"
    case VarWand => "wand"
    case VarWire => "wire"
    case VarWor => "wor"
  }

  /** Distinct kinds have distinct names. */
  lemma VarTypeNameInjective(a: VarType, b: VarType)
    ensures VarTypeName(a) == VarTypeName(b) <==> a == b
  {
  }

  /** The suffix a time unit is written with; "unknown" for the unknown unit. */
  function TimeUnitName(u: TimeUnit): (name: string)
    ensures name != "invalid"
    ensures name == "unknown" <==> u == TimeUnknown
    ensures u != TimeUnknown ==> 1 <= |name| <= 2 && name[|name| - 1] == 's'
  {
    match u
    case TimeUnknown => "unknown"
    case TimeS => "s"
    case TimeMs => "ms"
    case TimeUs => "us"
    case TimeNs => "ns"
    case TimePs => "ps"
    case TimeFs => "fs"
  }

  /** Distinct units have distinct names. */
  lemma TimeUnitNameInjective(a: TimeUnit, b: TimeUnit)
    ensures TimeUnitName(a) == TimeUnitName(b) <==> a == b
  {
  }
}
