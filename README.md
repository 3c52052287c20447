# A verified model of the vcdp VCD reader core

This project models the core of `vcdp`, a C++ reader for Value Change Dump
(VCD) files as defined in clause 18 of IEEE Std 1364-2005. The reader takes
a file in two phases:

- **Header phase.** The declaration section (`$comment`, `$date`,
  `$timescale`, `$scope`/`$upscope`, `$var`, `$version`, up to
  `$enddefinitions $end`) is collected line by line. A PEG grammar
  recognises it, and actions attached to the grammar rules fill a `VCDFile`
  container.
- **Body phase.** The value-change body is read in fixed-size chunks and cut
  into lines. Each `#<number>` line appends a timestamp.

The model covers these parts of the reader:

- the container (`VCDFile`);
- the grammar (`VCDLexical`) and its actions (`VCDActions`, both copies);
- the streaming driver (`VCDParser.cpp`);
- the signal-declaration checker (`VCDCheckers`);
- the shared types (`VCDTypes`) and values (`VCDValue`, both revisions);
- the display-name tables (`Utils`);
- the varint block store (`VListManager`).

The modules are these:

| module | file | what it holds |
|---|---|---|
| `Wrappers` | Wrappers.dfy | `Option`, `Result`, `Outcome` |
| `Types` | Types.dfy | enumerations, signal and scope records, the `VCDSignal` copy operations |
| `Utils` | Utils.dfy | the name tables |
| `Decimal` | Decimal.dfy | decimal text and numbers, as `std::stoi`/`std::stoull` read them and streams print them |
| `Checkers` | Checkers.dfy | `ValidateVCDSignal` |
| `Values` | Values.dfy | the variant revision and the tagged-union revision of `VCDValue` |
| `Lexical` | Lexical.dfy | one recogniser function per grammar rule, of the corrected grammar from the text commands up |
| `Grammar` | Grammar.dfy | lemmas about those recognisers |
| `Matching` | Matching.dfy | the grammar run as the PEG library runs it, with its actions, under the written or the corrected tables, and its agreement with the recognisers |
| `Files` | Files.dfy | the `VcdFile` class |
| `Actions` | Actions.dfy | `NormalizeSpaces`, the rule actions, and the scope tree they build |
| `VLists` | VLists.dfy | the linked block store |
| `Parser` | Parser.dfy | the header loop, the chunked body reader, and the `VcdParser` class |

Code that changes state in place is modelled as imperative Dafny:

- classes with `modifies` clauses: `VcdFile`, `VListManager`, `VcdParser`,
  the signal record and the union value;
- methods whose loops carry invariants: `NormalizeSpaces`, the header loop,
  the chunk loops, `addData`'s encoding loop and `getData`'s walk.

Each such method is proved against a specification function, and the
properties of that function are proved as lemmas. Declarative code (the PEG,
the tables, the accessors) is modelled as functions and lemmas.

The scope tree uses arenas. Scopes and signals live in sequences, and parent,
child and signal links are indices into them. A parent's index is always
smaller than its child's, so the pointer graph of the C++ code is acyclic by
construction (`Actions.Tree`).

Where the two copies of a file differ, the model follows these:

- **`include/vcdp/VCDActions.hpp`.** It is a superset of
  `src/vcdp/VCDActions.hpp`. The actions both copies share are identical, and
  only the `include` copy has the scope actions.
- **`src/vcdp/VCDFile.cpp`.** It keeps signals in a vector (`m_Signals`) and
  values in `m_ValMap`; the class declaration in `include/vcdp/VCDFile.hpp`
  keeps signals in a map keyed by hash. Signals are a sequence in the model.
  `GetSignal` returns the first one with a given hash, and `GetSignalValues`
  reads the per-hash value lists.
- **The scope actions.** `include/vcdp/VCDActions.hpp:117` calls
  `file.AddScope()` with no argument; lines 97-107 and 116 fill
  `file.current_scope_builder`, and line 36 writes `file.comment`
  (`src/vcdp/VCDActions.hpp:36` too). No `VCDFile` among the files modelled
  declares these members, and the `AddScope` there
  (`src/vcdp/VCDFile.cpp:19-24`) never sets a parent. The model
  reconstructs the call as adding `Scope(name, builder kind, open scope, [],
  [])`: the new scope's parent is the open scope. `command_upscope` reads
  that parent, so this is the only reading under which it works.
  `Actions.Upscope`, `Actions.Tree` and `Actions.NestedScopes` rest on it.
- **`AddTimestamp`.** `src/vcdp/VCDFile.cpp:38` takes a `VCDTime`, a
  32-bit `uint32_t` (`include/vcdp/VCDTypes.hpp:27`); the declaration in
  `include/vcdp/VCDFile.hpp:34` takes a `uint64_t`. The model takes a
  `nat`. The parser only ever passes `stoull`'s 64-bit values, so it
  follows the header's 64-bit revision; the 32-bit truncation of the
  `.cpp` is not modelled.
- **Single index.** The comment in `VCDTypes.hpp` says a single index `[n]` is
  stored in `lindex`. The checker and the tests store it in `rindex`, with
  `lindex == -1`, and the model does the same.

## Model

| member | source | states |
|---|---|---|
| Types.BitCode | include/vcdp/VCDTypes.hpp:36-46 | every state has a code below 9, and the code is below 4 exactly for the four core states 0, 1, X, Z |
| Types.BitCodeInjective | include/vcdp/VCDTypes.hpp:36-46 | two states have the same code iff they are the same state, so the nine codes are distinct |
| Types.SignalRecord.constructor | include/vcdp/VCDTypes.hpp:102-115 | a new signal has an empty hash and reference, no scope, size 0, unknown kind, `lindex == rindex == -1` and no samples |
| Types.SignalRecord.Copy | include/vcdp/VCDTypes.hpp:124-143 | the copy has every field of the original; each vector is a fresh array holding the original's first `size` states |
| Types.SignalRecord.Assign | include/vcdp/VCDTypes.hpp:145-171 | self-assignment changes nothing; otherwise every field equals the source's and the vectors are fresh deep copies with the same contents |
| Types.DeepCopy | include/vcdp/VCDTypes.hpp:136-142 | one fresh array per source array, of length `size`, holding that array's first `size` states, in order |
| Types.CopyPrefix | include/vcdp/VCDTypes.hpp:139-140 | `copy_n` into a new array: a fresh array equal to the first `n` states of the source |
| Types.CopiesHaveSameContents | include/vcdp/VCDTypes.hpp:138-142 | arrays that hold the same first `n` states as their sources give the same sequence of contents |
| Utils.VarTypeName | src/vcdp/Utils.cpp:6-29 | a name is never "invalid" (the default branch cannot be reached); it is "unknown" exactly for the unknown kind |
| Utils.VarTypeNameInjective | src/vcdp/Utils.cpp:8-26 | distinct kinds have distinct names |
| Utils.TimeUnitName | src/vcdp/Utils.cpp:30-41 | never "invalid"; "unknown" exactly for the unknown unit; otherwise one or two characters ending in 's' |
| Utils.TimeUnitNameInjective | src/vcdp/Utils.cpp:32-38 | distinct units have distinct names |
| Grammar.VarTypesAreTheKindNames | include/vcdp/Utils.hpp:12-29 | the header copy of the kind names gives exactly the keywords of the grammar's `var_type` for every known kind, and none for the unknown kind |
| Decimal.DigitChar | src/vcdp/VCDActions.hpp:54 | the printed digit of `d` is a digit character whose value is `d` |
| Decimal.LeadingDigits | src/vcdp/VCDActions.hpp:54 | the longest prefix made only of digits: it is all digits, and the character after it is not a digit |
| Decimal.NatToDecimal | src/vcdp/VCDParser.cpp:127 | a printed number is a non-empty run of digits without a leading zero |
| Decimal.DecimalRoundTrip | src/vcdp/VCDActions.hpp:54 | reading a printed number gives the number back |
| Decimal.PrintedNumberIsRead | src/vcdp/VCDActions.hpp:54 | `stoi` of a printed number followed by any non-digit text is that number |
| Decimal.LeadingDigitsOfDigits | src/vcdp/VCDParser.cpp:127 | the leading digit run of digits followed by a non-digit ends exactly where those digits end |
| Checkers.ValidateSignal | include/vcdp/VCDCheckers.hpp:11-35 | a signal passes iff it has a scope and its select, when present, names exactly `size` bits; an unscoped signal fails with the scope error; every failure names the signal's reference |
| Checkers.NoRightIndexOnlyNeedsScope | include/vcdp/VCDCheckers.hpp:18 | with `rindex == -1`, passing depends only on having a scope, whatever `lindex` and `size` are |
| Checkers.SingleIndexCheck | include/vcdp/VCDCheckers.hpp:28-35 | a single index passes iff `size == 1`, and otherwise fails with the index-size mismatch for that reference, index and size |
| Checkers.RangeCheck | include/vcdp/VCDCheckers.hpp:19-27 | a range passes iff `abs(lindex - rindex) + 1 == size`, and otherwise fails with the range-size mismatch carrying both bounds, that width and the size |
| Checkers.RangeWidthSymmetric | include/vcdp/VCDCheckers.hpp:21 | swapping the two bounds does not change the verdict (`[3:0]` and `[0:3]` both need size 4) |
| Checkers.ScopeCheckedFirst | include/vcdp/VCDCheckers.hpp:12-18 | an unscoped signal is reported with "Signal '<reference>' needs to be part of a scope", whatever its indices |
| Checkers.MessageOpensWithHeadline | include/vcdp/VCDCheckers.hpp:12-35 | every error message starts with the phrase of its kind followed by the signal's reference |
| Checkers.IndexMessageShape | include/vcdp/VCDCheckers.hpp:32-33 | the index mismatch message starts with "Size mismatch for signal '" and the reference |
| Checkers.RangeMessageShape | include/vcdp/VCDCheckers.hpp:24-25 | the range mismatch message starts with "Range size mismatch for signal '" and the reference |
| Checkers.IndexedExamples | include/vcdp/VCDCheckers.hpp:28-35 | `[0]` with size 1 passes; `[3:0]` with size 2 fails with a range mismatch of width 4 |
| Values.BitChar | include/vcdp/VCDValue.cpp:5-18 | a state prints as something other than '?' exactly when it is one of the four core states |
| Values.BitCharInjectiveOnCore | include/vcdp/VCDValue.cpp:7-14 | on the four core states, two states print alike iff they are equal |
| Values.PlainBits | include/vcdp/VCDValue.hpp:83-85 | one character per state, the i-th being the printed i-th state |
| Values.GetValBit | include/vcdp/VCDValue.cpp:20-25 | succeeds iff the value holds a state, giving that state; otherwise the bad-variant error |
| Values.GetValVector | include/vcdp/VCDValue.cpp:27-32 | succeeds iff the value holds a vector, giving its states; otherwise the bad-variant error |
| Values.GetValReal | include/vcdp/VCDValue.cpp:34-39 | succeeds iff the value holds a real, giving it; otherwise the bad-variant error |
| Values.ExactlyOneAccessor | src/vcdp/VCDValue.cpp:9-28 | on any value exactly one of the three accessors succeeds |
| Values.SegmentsAppend | src/vcdp/VCDValue.cpp:43-45 | the coloured text of a concatenation of states is the concatenation of their coloured texts |
| Values.UncolouredSegments | src/vcdp/VCDValue.cpp:43-45 | with empty colours, the coloured segments are exactly the plain characters |
| Values.ColouredText | src/vcdp/VCDValue.cpp:30-61 | a value renders iff its type code agrees with its payload or lies outside the enumeration; a code of 0-2 whose payload disagrees raises `bad_variant_access`; an unrecognised code renders as the coloured "<Invalid>" |
| Values.VectorTextGrows | src/vcdp/VCDValue.cpp:40-46 | appending a state to a vector appends exactly that state's coloured segment to the text |
| Values.UncolouredText | src/vcdp/VCDValue.cpp:34-46 | without colour, a scalar renders as its one character and a vector as "0b" followed by one character per state |
| Values.UnionValue.constructor | include/vcdp/VCDValue.hpp:27 | the default value is the scalar 0 |
| Values.UnionValue.FromBit | include/vcdp/VCDValue.hpp:29 | a scalar holding the given state |
| Values.UnionValue.FromBits | include/vcdp/VCDValue.hpp:31-40 | a null array or size 0 gives an empty vector with a null pointer; otherwise a fresh array holding the first `size` states in order |
| Values.UnionValue.FromReal | include/vcdp/VCDValue.hpp:43 | a real holding the given number |
| Values.UnionValue.Copy | include/vcdp/VCDValue.hpp:54-73 | same tag and size; the scalar or real is copied; a non-empty vector is a fresh array with the same states, an empty one stays null |
| Values.UnionValue.ToString | include/vcdp/VCDValue.hpp:75-97 | a scalar is one character; a vector is "0b" then one character per state, `2 + vector_size` long; a real is its text followed by "?" (the case falls through); any other tag is "?" |
| Values.UnionAgreesWithVariant | include/vcdp/VCDValue.hpp:81-87 | without colour, the union revision prints a vector exactly as the variant revision does |
| Lexical.Whitespaces | include/vcdp/VCDLexical.hpp:15 | `whitespaces` never fails and never moves backwards (maximality: Grammar.WhitespacesIsMaximalRun) |
| Lexical.MandatorySpace | include/vcdp/VCDLexical.hpp:16 | when it succeeds it has consumed at least one character |
| Lexical.Literal | include/vcdp/VCDLexical.hpp:19 | a literal matches iff the text holds it at that position, and it then ends right after it |
| Lexical.KwEnd | include/vcdp/VCDLexical.hpp:19 | "$end" with no word boundary: a match ends four characters on |
| Lexical.FirstMatch | include/vcdp/VCDLexical.hpp:42 | the alternative found is one of those tried (first-ness: Grammar.FirstMatchIsFirst) |
| Lexical.Choice | include/vcdp/VCDLexical.hpp:61-69 | an ordered choice of keywords ends inside the text (what it reads: Grammar.ChoiceReadsAKeyword) |
| Lexical.Identifier | include/vcdp/VCDLexical.hpp:29-30 | matches iff the first character is a letter or '_', and consumes at least it |
| Lexical.Symbol | include/vcdp/VCDLexical.hpp:32-33 | matches iff the first character is in '!'..'~', and consumes at least it |
| Lexical.Number | include/vcdp/VCDLexical.hpp:40 | matches iff the first character is a digit, and consumes at least it |
| Lexical.Text | include/vcdp/VCDLexical.hpp:22-23 | the corrected `text`: never fails and never moves backwards (where it stops: Grammar.TextIsMaximal) |
| Lexical.TextCharAsWritten | include/vcdp/VCDLexical.hpp:22 | `text_char` as written: it may succeed without consuming anything |
| Lexical.TextAsWritten | include/vcdp/VCDLexical.hpp:23 | `text` as written, cut off after `fuel` repetitions: when it stops, it stops inside the text |
| Lexical.BitIndexSeq | include/vcdp/VCDLexical.hpp:75 | a match consumes at least the opening bracket |
| Lexical.BitRangeSeq | include/vcdp/VCDLexical.hpp:76-77 | a match consumes at least the opening bracket |
| Lexical.VarReference | include/vcdp/VCDLexical.hpp:78 | a match consumes at least the name (which select it reads: Grammar.VarReferenceSelects) |
| Lexical.KeywordThenSpace | include/vcdp/VCDLexical.hpp:81-89 | a command keyword is followed by at least one whitespace character |
| Lexical.SpaceThenEnd | include/vcdp/VCDLexical.hpp:81-89 | the close of a command is at least one whitespace character followed by the four characters of "$end" |
| Lexical.TextCommandAsWritten | include/vcdp/VCDLexical.hpp:81-89 | `$comment`, `$date`, `$version` with the text as written: a match consumes input |
| Lexical.TextCommand | include/vcdp/VCDLexical.hpp:81-89 | the corrected text commands: `text` takes one character per step, and "$end" right after the keyword's whitespace closes an empty body (a shortcut the written rule does not have: `Matching.CommentThenDateRun` shows where the two differ); a match consumes input (partners: Grammar.EmptyTextCommand, Grammar.TextCommandTrimmed) |
| Lexical.CommandComment | include/vcdp/VCDLexical.hpp:81 | the corrected `command_comment` (over `TextCommand`): a match consumes input (partners: Grammar.TextCommandTrimmed, and Matching.CommandRunAgrees, which ties it to the corrected run) |
| Lexical.CommandDate | include/vcdp/VCDLexical.hpp:82 | the corrected `command_date` (over `TextCommand`): a match consumes input (partners: Grammar.TextCommandTrimmed, and Matching.CommandRunAgrees, which ties it to the corrected run) |
| Lexical.CommandVersion | include/vcdp/VCDLexical.hpp:89 | the corrected `command_version` (over `TextCommand`): a match consumes input (partners: Grammar.TextCommandTrimmed, and Matching.CommandRunAgrees, which ties it to the corrected run) |
| Lexical.CommandEnddefinitions | include/vcdp/VCDLexical.hpp:83 | `command_enddefinition`: a match consumes input (what it reads: Matching.ClosingLine, Grammar.MinimalHeader) |
| Lexical.ScopeIdentifierThenEnd | include/vcdp/VCDLexical.hpp:84 | the identifier and closing of `$scope`: a match consumes input (the identifier read: Grammar.IdentifierIsMaximal) |
| Lexical.CommandScope | include/vcdp/VCDLexical.hpp:84 | `command_scope`: a match consumes input (its captures, in firing order: Matching.ScopeRunAgrees) |
| Lexical.UnitThenEnd | include/vcdp/VCDLexical.hpp:85 | the unit and closing of `$timescale`: a match consumes input (what it reads: Grammar.UnitThenEndOf) |
| Lexical.CommandTimescaleWith | include/vcdp/VCDLexical.hpp:85 | `command_timescale` over a given number table: a match consumes input (what it reads: Grammar.TimescaleOfParts; with the listed table: Grammar.TimescaleAsWrittenRefusesTens) |
| Lexical.CommandTimescale | include/vcdp/VCDLexical.hpp:85 | the corrected `command_timescale` (longest number first): a match consumes input (what it reads: Grammar.TimescaleReadsNumberAndUnit) |
| Lexical.CommandUpscope | include/vcdp/VCDLexical.hpp:86 | `command_upscope`: a match consumes input (its action: Actions.ScopeThenUpscope) |
| Lexical.ReferenceThenEnd | include/vcdp/VCDLexical.hpp:87-88 | the reference and closing of `$var`: a match consumes input (the reference read: Grammar.VarReferenceSelects) |
| Lexical.VarOperands | include/vcdp/VCDLexical.hpp:87-88 | size, hash, reference and closing of `$var`: a match consumes input (the size read: Grammar.NumberIsMaximal; the hash: Grammar.SymbolIsMaximal) |
| Lexical.CommandVarWith | include/vcdp/VCDLexical.hpp:87-88 | `command_var` over a given kind table: a match consumes input and captures nothing, since no action is attached to its rules (with the listed table: Grammar.VarAsWrittenRefusesLongerKinds) |
| Lexical.CommandVar | include/vcdp/VCDLexical.hpp:87-88 | the corrected `command_var` (longer kinds first): a match consumes input and captures nothing (what it reads: Grammar.VarTypeKeywordIsRead) |
| Lexical.DeclarationCommand | include/vcdp/VCDLexical.hpp:91-92 | the corrected `declaration_command`, built from the corrected timescale, var and text commands: a match consumes input (partner: Matching.DeclarationCommandAgrees, which ties it to the corrected run) |
| Lexical.HeaderSection | include/vcdp/VCDLexical.hpp:95 | the corrected `header_section` never fails and never moves backwards (partner: Matching.HeaderSectionAgrees) |
| Lexical.DeclarationSection | include/vcdp/VCDLexical.hpp:96 | the corrected `declaration_section`: a match consumes input (partner: Matching.DeclarationSectionAgrees) |
| Lexical.VcdFile | include/vcdp/VCDLexical.hpp:99 | the corrected `vcd_file` accepts only by reaching the end of the input (partners: Grammar.MinimalHeader, Parser.AcceptedHeaderReportsNothing) |
| Grammar.WhitespacesIsMaximalRun | include/vcdp/VCDLexical.hpp:12-15 | `whitespaces` reads only whitespace and stops before a non-whitespace character |
| Grammar.WhitespacesOfRun | include/vcdp/VCDLexical.hpp:15 | conversely, a whitespace run ending before a non-whitespace character is read exactly to its end |
| Grammar.IdentRunIsMaximal | include/vcdp/VCDLexical.hpp:29 | the identifier-character run holds only identifier characters and stops before any other |
| Grammar.IdentifierIsMaximal | include/vcdp/VCDLexical.hpp:29-30 | `identifier` reads every identifier character after its first and stops before a non-identifier character |
| Grammar.SymbolRunIsMaximal | include/vcdp/VCDLexical.hpp:32 | the visible-character run holds only '!'..'~' and stops before any other |
| Grammar.SymbolIsMaximal | include/vcdp/VCDLexical.hpp:32-33 | `symbol` reads the whole run of visible characters |
| Grammar.DigitRunIsMaximal | include/vcdp/VCDLexical.hpp:40 | the digit run is all digits and stops before a non-digit |
| Grammar.NumberIsMaximal | include/vcdp/VCDLexical.hpp:40 | `number` reads the whole run of digits |
| Grammar.FirstMatchIsFirst | include/vcdp/VCDLexical.hpp:42 | the alternative picked is found at the position and no earlier one is; when none is picked, none is found |
| Grammar.ChoiceReadsAKeyword | include/vcdp/VCDLexical.hpp:61-69 | ordered choice fails iff no keyword is found, and what it reads is one of the keywords |
| Grammar.ChoiceOfFirstFound | include/vcdp/VCDLexical.hpp:61-69 | when the k-th keyword is found and no earlier one is, choice reads exactly the k-th |
| Grammar.ChoiceOfListedKeyword | include/vcdp/VCDLexical.hpp:61-69 | in a table where no keyword is a prefix of a later one, a listed keyword followed by a character foreign to the table is read whole |
| Grammar.DiffersEarlyNotPrefix | include/vcdp/VCDLexical.hpp:61-69 | keywords that differ by length or in an early character leave the table unshadowed |
| Grammar.TimeNumbersUnshadowed | include/vcdp/VCDLexical.hpp:42 | in the corrected order no time number is a prefix of a later one |
| Grammar.TimeUnitsUnshadowed | include/vcdp/VCDLexical.hpp:61-62 | no time unit is a prefix of a later one |
| Grammar.ScopeTypesUnshadowed | include/vcdp/VCDLexical.hpp:63-64 | no scope type is a prefix of a later one |
| Grammar.VarTypesDifferEarly | include/vcdp/VCDLexical.hpp:65-69 | in the corrected order every pair of kinds differs early |
| Grammar.VarTypesUnshadowed | include/vcdp/VCDLexical.hpp:65-69 | in the corrected order no kind is a prefix of a later one |
| Grammar.TimeNumbersAvoid | include/vcdp/VCDLexical.hpp:42 | no time number holds a letter or whitespace |
| Grammar.TimeUnitsAvoid | include/vcdp/VCDLexical.hpp:61-62 | no time unit holds whitespace |
| Grammar.ScopeTypesAvoid | include/vcdp/VCDLexical.hpp:63-64 | no scope type holds whitespace |
| Grammar.VarTypesAvoid | include/vcdp/VCDLexical.hpp:65-69 | no kind keyword holds whitespace |
| Grammar.ListedTablesAreShadowed | include/vcdp/VCDLexical.hpp:42-69 | as listed, "1" is a prefix of "10" and "100", "real" of "realtime", and "tri" of the five tri* kinds, so both tables are shadowed |
| Grammar.KeywordThenSpaceOf | include/vcdp/VCDLexical.hpp:81-89 | a keyword followed by a whitespace run is read up to the end of the run |
| Grammar.SpaceThenEndOf | include/vcdp/VCDLexical.hpp:81-89 | whitespace followed by "$end" closes a command right after "$end" |
| Grammar.TimescaleAsWrittenRefusesTens | include/vcdp/VCDLexical.hpp:42 | with the listed number order, a timescale whose number starts "10" is refused |
| Grammar.UnitThenEndOf | include/vcdp/VCDLexical.hpp:85 | optional whitespace, a listed unit, whitespace and "$end" are read, capturing that unit |
| Grammar.TimescaleReadsNumberAndUnit | include/vcdp/VCDLexical.hpp:85 | in the corrected grammar, every listed number with every listed unit is accepted, capturing that number and that unit |
| Grammar.TimescaleNumberOf | include/vcdp/VCDLexical.hpp:85 | the keyword with its whitespace, then a listed number followed by a letter or whitespace, is read up to the end of that number |
| Grammar.TimescaleOfParts | include/vcdp/VCDLexical.hpp:85 | a timescale is its keyword, number and unit in a row, capturing the number then the unit |
| Grammar.StuckTimescale | include/vcdp/VCDLexical.hpp:85 | "$timescale 1ns $end" is accepted, capturing "1" and "ns" (number and unit may touch) |
| Grammar.VarTypesAsWrittenClash | include/vcdp/VCDLexical.hpp:65-69 | as listed, every kind ahead of "real" and of "tri" differs from the longer kinds in its first two characters |
| Grammar.VarAsWrittenRefusesLongerKinds | include/vcdp/VCDLexical.hpp:65-69 | with the listed order, a `$var` of kind realtime, triand, trior, trireg, tri0 or tri1 is refused |
| Grammar.AsWrittenChoiceStopsShort | include/vcdp/VCDLexical.hpp:65-69 | on those kinds the listed choice stops after "real" or "tri", in front of a character that is not whitespace |
| Grammar.ChoiceStopsAtPrefix | include/vcdp/VCDLexical.hpp:65-69 | when an earlier keyword is a proper prefix of the one in the text and every keyword before it clashes, choice stops after the prefix |
| Grammar.ClashExcludes | include/vcdp/VCDLexical.hpp:65-69 | a keyword that clashes with the one in the text is not found there |
| Grammar.VarTypeKeywordIsRead | include/vcdp/VCDLexical.hpp:65-69 | in the corrected order, every known kind's keyword followed by whitespace is read whole |
| Grammar.VarReferenceSelects | include/vcdp/VCDLexical.hpp:75-78 | "data [0]" is read with its index, "data[ 3 : 0 ]" with its range (after the index fails at ':'), and "data [" as the bare name |
| Grammar.IndexedReference | include/vcdp/VCDLexical.hpp:75-78 | a name with a single index is read whole |
| Grammar.RangedReference | include/vcdp/VCDLexical.hpp:76-78 | a name with a range and inner whitespace is read whole |
| Grammar.UnclosedReference | include/vcdp/VCDLexical.hpp:78 | an unclosed bracket leaves just the name read |
| Grammar.TextIsMaximal | include/vcdp/VCDLexical.hpp:22-23 | `text` consumes text characters with no closing ahead, and stops at the end, at a closing "whitespace then $end", or at a non-text character |
| Grammar.TextAsWrittenNeverStops | include/vcdp/VCDLexical.hpp:22-23 | as written, at the end of the input or before a non-text character `text` loops without end |
| Grammar.EndAheadInRun | include/vcdp/VCDLexical.hpp:23 | inside a whitespace run the closing lookahead sees the same thing at every position |
| Grammar.TextOverRun | include/vcdp/VCDLexical.hpp:22-23 | stepping over a whitespace run one character at a time ends where stepping over it at once does |
| Grammar.TextAsWrittenAgrees | include/vcdp/VCDLexical.hpp:22-23 | wherever the written `text` stops, it stops exactly where the corrected one does |
| Grammar.EndAheadExtends | include/vcdp/VCDLexical.hpp:23 | a whitespace character in front of a closing keeps the closing in view |
| Grammar.TextCommandTrimmed | include/vcdp/VCDLexical.hpp:23 | captured text never starts or ends with whitespace |
| Grammar.TextCommandAsWrittenNeverEmpty | include/vcdp/VCDLexical.hpp:22-23 | as written, a text command that is accepted has captured non-empty text |
| Grammar.TextOverWord | include/vcdp/VCDLexical.hpp:22-23 | `text` steps over visible non-blank characters |
| Grammar.EmptyTextAsWrittenNeverStops | include/vcdp/VCDLexical.hpp:22-23 | as written, "$comment $end" at the end of the input makes `text` loop without end |
| Grammar.TextRunsPastEnd | include/vcdp/VCDLexical.hpp:22-23 | as written, `text` started inside a trailing run of visible characters never stops |
| Grammar.EmptyTextCommand | include/vcdp/VCDLexical.hpp:81-89 | in the corrected grammar a text command with an empty body is accepted, capturing "" |
| Grammar.EndMatchesEnddefinitions | include/vcdp/VCDLexical.hpp:19-23 | "$end" matches the start of "$enddefinitions", so the `text` lookahead sees a closing in front of it |
| Grammar.NoCommandAtEnddefinitions | include/vcdp/VCDLexical.hpp:91-92 | no declaration command starts at "$enddefinitions" |
| Grammar.KeywordAbsent | include/vcdp/VCDLexical.hpp:81-89 | a keyword whose second character differs from the input's is not read |
| Grammar.MinimalHeader | include/vcdp/VCDLexical.hpp:95-99 | whitespace, "$enddefinitions", whitespace, "$end", whitespace is a whole VCD file, with nothing captured |
| Matching.WrittenTextEnd | include/vcdp/VCDLexical.hpp:22-23 | where the written `text` stops, if it does: inside the input, and only where "whitespace then $end" follows |
| Matching.WrittenTextStops | include/vcdp/VCDLexical.hpp:22-23 | where `WrittenTextEnd` gives a position, the written repetition stops exactly there within one step per character; where it gives none, no number of steps makes the repetition stop |
| Matching.TextAsWrittenStopsAhead | include/vcdp/VCDLexical.hpp:23 | the written repetition stops only where the closing lookahead matches |
| Matching.WrittenTextReached | include/vcdp/VCDLexical.hpp:22-23 | when the one-step `text` halts at a closing, the written repetition reaches the same position |
| Matching.TextCommandRun | include/vcdp/VCDLexical.hpp:81-89 | a text command run under either grammar: a match ends after its start; anything but a silent failure starts at the keyword; under the corrected grammar it never spins; the text's action fires even when the closing then fails |
| Matching.ScopeRun | include/vcdp/VCDLexical.hpp:84 | `command_scope` with its actions: a match ends after its start, anything but a silent failure starts at "$scope", it never spins, and the type and identifier captures fire as soon as each is read |
| Matching.TimescaleRun | include/vcdp/VCDLexical.hpp:85 | `command_timescale` over a number table with its actions: a match ends after its start, anything but a silent failure starts at "$timescale", it never spins, and every captured number comes from the table |
| Matching.CommandRun | include/vcdp/VCDLexical.hpp:81-89 | one alternative of `declaration_command`: the same bounds, and the corrected grammar never spins |
| Matching.FirstRun | include/vcdp/VCDLexical.hpp:91-92 | ordered choice with actions: the captures of failed alternatives stay fired; a silent failure is the only outcome where no command keyword starts |
| Matching.DeclarationCommandRun | include/vcdp/VCDLexical.hpp:91-92 | `declaration_command` under either grammar: a match ends after its start, and captured numbers come from that grammar's table |
| Matching.HeaderSectionRun | include/vcdp/VCDLexical.hpp:95 | `header_section` never fails: it matches or, as written, may spin; under the corrected grammar it always matches |
| Matching.DeclarationSectionRun | include/vcdp/VCDLexical.hpp:96 | `declaration_section` with its actions: a match ends after its start, the corrected grammar never spins, captured numbers come from the table |
| Matching.CommandRunAgrees | include/vcdp/VCDLexical.hpp:81-89 | under the corrected grammar a command's run matches iff its recognizer does, at the same end and with the same captures |
| Matching.TextCommandRunAgrees | include/vcdp/VCDLexical.hpp:81-89 | the same for the three text commands |
| Matching.ScopeRunAgrees | include/vcdp/VCDLexical.hpp:84 | the same for `command_scope` |
| Matching.TimescaleRunAgrees | include/vcdp/VCDLexical.hpp:85 | the same for `command_timescale` |
| Matching.KeywordsExclusive | include/vcdp/VCDLexical.hpp:46-53 | no two of the seven command keywords start at the same place |
| Matching.NoCommandAtEnddefinitions | include/vcdp/VCDLexical.hpp:91-92 | no command keyword starts where "$enddefinitions" does |
| Matching.OthersFail | include/vcdp/VCDLexical.hpp:91-92 | where one command's keyword starts, every other corrected recognizer fails |
| Matching.DeclarationCommandAgrees | include/vcdp/VCDLexical.hpp:91-92 | under the corrected grammar the run of `declaration_command` matches iff the recognizer does, at the same end and with the same captures |
| Matching.HeaderSectionAgrees | include/vcdp/VCDLexical.hpp:95 | under the corrected grammar the run of `header_section` ends where the recognizer does, firing its captures and then those of the command that failed and ended the repetition |
| Matching.DeclarationSectionAgrees | include/vcdp/VCDLexical.hpp:96 | under the corrected grammar the run of `declaration_section` matches iff the recognizer does, at the same end and with the same captures |
| Matching.NoneRuns | include/vcdp/VCDLexical.hpp:91-92 | where no listed keyword starts, ordered choice fails and fires nothing |
| Matching.OnlyCommandRuns | include/vcdp/VCDLexical.hpp:91-92 | where the keyword of one command starts, ordered choice over distinct commands is that command's run |
| Matching.DeclarationCommandOf | include/vcdp/VCDLexical.hpp:91-92 | `declaration_command` where a command's keyword starts is that command's run, under either grammar |
| Matching.HeaderSectionAtEnddefinitions | include/vcdp/VCDLexical.hpp:95-96 | in front of "$enddefinitions" the header section stops at once and fires nothing |
| Matching.SectionAfterFailedCommand | include/vcdp/VCDLexical.hpp:95-96 | a section whose first command fails fails, and what that command fired stays fired |
| Matching.HeaderOfOneCommand | include/vcdp/VCDLexical.hpp:95 | one command followed by "$enddefinitions": the header section ends in front of it, firing what the command fired |
| Matching.ClosingLine | include/vcdp/VCDLexical.hpp:83 | "$enddefinitions $end" and a line break are read to the end of the input |
| Matching.HeaderStep | include/vcdp/VCDLexical.hpp:95 | a group that matched fires its command's captures, then those of the rest of the section |
| Matching.SectionOfHeader | include/vcdp/VCDLexical.hpp:96 | a header section closed by "$enddefinitions $end" is a matched section with the header's captures |
| Matching.SectionOfOneCommand | include/vcdp/VCDLexical.hpp:95-96 | a section of one command and the closing matches with that command's captures |
| Matching.TimescaleTenAsWritten | include/vcdp/VCDLexical.hpp:42 | as written, "$timescale 10 ns" fails after firing the number "1" |
| Matching.TimescaleTenCorrected | include/vcdp/VCDLexical.hpp:85 | corrected, it matches and fires "10" and "ns" |
| Matching.TimescaleTenRun | include/vcdp/VCDLexical.hpp:85-96 | on "$timescale 10 ns $end" and the closing line the written section fails having fired "1"; the corrected one matches with "10" and "ns" |
| Matching.CommentThenDateText | include/vcdp/VCDLexical.hpp:22-23 | the text after "$comment " runs over "$end", the line break and "$date x", up to the blank in front of the date's "$end" |
| Matching.CommentThenDateAsWritten | include/vcdp/VCDLexical.hpp:81 | as written, the comment's text swallows the date |
| Matching.CommentThenDateEmptyComment | include/vcdp/VCDLexical.hpp:81 | corrected, "$comment $end" is an empty comment |
| Matching.CommentThenDateDate | include/vcdp/VCDLexical.hpp:82 | corrected, the date "x" is then read |
| Matching.CommentThenDateRun | include/vcdp/VCDLexical.hpp:81-96 | on "$comment $end", "$date x $end" and the closing line, the written section captures the comment "$end\n$date x" and no date; the corrected one an empty comment and the date "x" |
| Matching.RealtimeAsWritten | include/vcdp/VCDLexical.hpp:65-69 | as written, "$var realtime" fails and fires nothing |
| Matching.RealtimeRun | include/vcdp/VCDLexical.hpp:87-96 | so the written section fails on a header declaring a `realtime` variable |
| Matching.NonTextCommentAsWritten | include/vcdp/VCDLexical.hpp:22-23 | as written, a comment reaching a character that is neither printable ASCII nor whitespace spins |
| Matching.NonTextCommentCorrected | include/vcdp/VCDLexical.hpp:81 | corrected, the same comment fires an empty comment and fails |
| Matching.NonTextCommentRun | include/vcdp/VCDLexical.hpp:81-96 | the written section spins on such a comment; the corrected one fails having fired the empty comment |
| Actions.SkipSpaces | include/vcdp/VCDActions.hpp:15 | where `>>` stops skipping: it stops at the end of the input or at a character that is not a separator |
| Actions.SkippedAreSpaces | include/vcdp/VCDActions.hpp:15 | everything `>>` skips is a separator |
| Actions.WordEnd | include/vcdp/VCDActions.hpp:15 | where `>>` stops reading a word: at the end of the input or at a separator |
| Actions.WordHasNoSpace | include/vcdp/VCDActions.hpp:15 | a word holds no separator |
| Actions.ReadWord | include/vcdp/VCDActions.hpp:15 | one `>>` extraction skips the separators and reads the word that follows |
| Actions.NormalizeSpaces | include/vcdp/VCDActions.hpp:9-24 | the output is the input's words in order, joined by single blanks, with no leading, trailing or doubled blank |
| Actions.JoinAppend | include/vcdp/VCDActions.hpp:16-19 | one more word adds a blank and that word |
| Actions.WordsAreWords | include/vcdp/VCDActions.hpp:15 | every word read is non-empty and holds no separator |
| Actions.JoinIsNormalized | include/vcdp/VCDActions.hpp:14-21 | words joined by blanks have no leading, trailing or doubled blank, and are non-empty when some word is |
| Actions.BlankNormalizesToEmpty | include/vcdp/VCDActions.hpp:9-24 | empty or all-separator input gives "" |
| Actions.WordsFromSkipsSpace | include/vcdp/VCDActions.hpp:15 | a separator in front of the rest does not change the words read |
| Actions.WordsFromShift | include/vcdp/VCDActions.hpp:15 | the words read from inside the second part of a concatenation are that part's words |
| Actions.WordsOfJoin | include/vcdp/VCDActions.hpp:14-21 | reading back words joined by blanks gives the same words |
| Actions.WordsOfWord | include/vcdp/VCDActions.hpp:15 | a word alone reads back as itself |
| Actions.WordsOfWordThen | include/vcdp/VCDActions.hpp:15 | a word, separators and more text read as that word, then the words of the rest |
| Actions.NormalizeIdempotent | include/vcdp/VCDActions.hpp:9-24 | normalizing twice gives the same as normalizing once |
| Actions.MultilineComment | include/vcdp/VCDActions.hpp:9-24 | a comment spread over lines with tabs and runs of blanks is stored with single blanks |
| Actions.SwallowedDateComment | include/vcdp/VCDActions.hpp:9-24 | "$end", a line break and "$date x" are stored as "$end $date x" |
| Actions.TimeUnitOf | include/vcdp/VCDActions.hpp:60-78 | a unit is known iff the text is one of the six unit keywords, and a known unit's name is that text |
| Actions.TimeUnitRoundTrip | src/vcdp/VCDActions.hpp:59-72 | reading back the printed name of a known unit gives the unit |
| Actions.ScopeTypeOf | include/vcdp/VCDActions.hpp:91-108 | a kind is known iff the text is one of the five scope keywords, and it is never the root kind |
| Actions.ScopeTypeOfInjective | include/vcdp/VCDActions.hpp:96-105 | distinct scope keywords give distinct kinds |
| Actions.TimeResolutionOf | src/vcdp/VCDActions.hpp:50-56 | the stored resolution fits the 8-bit field, and is the leading decimal value of the captured number whenever that value fits |
| Actions.TimeResolutionsFit | src/vcdp/VCDActions.hpp:50-56 | "1", "10" and "100" are stored as 1, 10 and 100 |
| Actions.OpenScope | include/vcdp/VCDActions.hpp:112-119 | the scope-identifier action adds one scope with the captured name, the builder's kind and the open scope as parent; it becomes the open scope and the last child of its parent; no other scope changes |
| Actions.Upscope | include/vcdp/VCDActions.hpp:122-128 | `$upscope` makes the open scope's parent the open scope, and leaves the scopes unchanged |
| Actions.Step | include/vcdp/VCDActions.hpp:29-128 | every action keeps the links within the scope list and never removes a scope |
| Actions.Fold | include/vcdp/VCDActions.hpp:29-128 | running the actions in firing order keeps the links within the scope list |
| Actions.FoldAppend | include/vcdp/VCDActions.hpp:29-128 | one more capture runs after the others |
| Actions.FoldOne | include/vcdp/VCDActions.hpp:29-128 | one capture runs its action |
| Actions.FoldTwo | include/vcdp/VCDActions.hpp:29-128 | two captures run their actions in firing order |
| Actions.FoldConcat | include/vcdp/VCDActions.hpp:29-128 | two batches of captures run one after the other |
| Actions.OpenScopeKeepsTree | include/vcdp/VCDActions.hpp:112-119 | opening a scope keeps the tree shape: parents come before children and every child lists its parent |
| Actions.OpenScopeChildrenFollow | include/vcdp/VCDActions.hpp:112-119 | after opening a scope, every listed child comes after its parent and names it as parent |
| Actions.OpenScopeParentsList | include/vcdp/VCDActions.hpp:112-119 | after opening a scope, every scope with a parent is among that parent's children |
| Actions.StepKeepsTree | include/vcdp/VCDActions.hpp:29-128 | every action keeps the tree shape |
| Actions.FoldKeepsTree | include/vcdp/VCDActions.hpp:29-128 | any sequence of actions keeps the tree shape |
| Actions.ScopeThenUpscope | include/vcdp/VCDActions.hpp:91-128 | a `$scope` with its `$upscope` brings the open scope back where it was and adds one child, named and typed as captured |
| Actions.UpscopeAtTopIgnored | include/vcdp/VCDActions.hpp:126 | `$upscope` with no open scope changes nothing |
| Actions.TextFieldsStored | include/vcdp/VCDActions.hpp:31-47 | the comment is stored normalized, the date and the version exactly as captured |
| Actions.SiblingTopScopes | include/vcdp/VCDActions.hpp:112-128 | three scopes each closed before the next opens are three top-level scopes with no children |
| Actions.NestedScopes | include/vcdp/VCDActions.hpp:112-128 | three scopes opened in a row are each the parent of the next, and closing all three leaves no scope open |
| Actions.HeaderCapturesWellFormed | include/vcdp/VCDActions.hpp:50-56 | every number the header grammar can capture is readable by `stoi`, so every captured action can run |
| Actions.CommandCapturesWellFormed | include/vcdp/VCDActions.hpp:50-56 | the captures of one declaration command can all run |
| Actions.TimescaleCapturesWellFormed | include/vcdp/VCDActions.hpp:50-56 | the captures of a timescale can all run |
| Actions.NumbersReadable | include/vcdp/VCDLexical.hpp:42 | every listed time number starts with a digit |
| Actions.TimescaleCaptures | include/vcdp/VCDLexical.hpp:85 | an accepted timescale captures one listed number, then a unit |
| Actions.ValidHeaderIsLinked | include/vcdp/VCDFile.hpp:74-80 | the header fields of a consistent container have their links within the scope list |
| Actions.ApplyCapture | include/vcdp/VCDActions.hpp:29-128 | running one action on the container changes its header fields as the action's function says, and nothing else |
| Actions.SetHeaderText | include/vcdp/VCDActions.hpp:29-109 | the field-setting actions (comment, date, number, unit, scope type) do what the action's function says |
| Actions.DeclareScope | include/vcdp/VCDActions.hpp:112-119 | the scope-identifier action on the container opens the scope as `OpenScope` says |
| Actions.CloseScope | include/vcdp/VCDActions.hpp:122-128 | `$upscope` on the container moves the open scope as `Upscope` says |
| Actions.ApplyAll | include/vcdp/VCDActions.hpp:29-128 | the actions of a parse, run in firing order, leave the header fields as folding them says and keep the tree shape; signals, times and values are untouched |
| Files.LeadingRun | src/vcdp/VCDFile.cpp:59-66 | the loop's stopping point lies within the list |
| Files.LeadingRunCharacterized | src/vcdp/VCDFile.cpp:59-66 | every entry before the stopping point is no later than the query, and the entry at it is later |
| Files.LeadingRunUnique | src/vcdp/VCDFile.cpp:59-66 | any prefix with those two properties is the one the loop finds |
| Files.ScanLeadingRun | src/vcdp/VCDFile.cpp:59-66 | the iterator loop stops at the first entry later than the query |
| Files.StepFunction | src/vcdp/VCDFile.cpp:49-66 | on time-ordered entries the answer is none iff every entry is later than the query, and otherwise the value of the last entry no later than it |
| Files.ScanStopsAtFirstLater | src/vcdp/VCDFile.cpp:60-64 | the loop stops at the first later entry even when the list is not time-ordered |
| Files.EraseKeepsAnswer | src/vcdp/VCDFile.cpp:68-74 | with erasing, the answered entry becomes the first; with no answer nothing is erased; the answer is unchanged afterwards |
| Files.EraseSafeForForwardScan | src/vcdp/VCDFile.cpp:68-74 | after erasing at time t, every query at a time no earlier than t answers as before |
| Files.VcdFile.constructor | include/vcdp/VCDFile.hpp:63-75 | a new container has the unknown unit, resolution 0, empty date and version, no open scope, and no scopes, signals, times or values |
| Files.VcdFile.AddScope | src/vcdp/VCDFile.cpp:19-24 | appends the scope, adds it as the last child of the open scope if any, makes it the open scope; nothing else changes |
| Files.VcdFile.AddSignal | src/vcdp/VCDFile.cpp:26-36 | with a scope open, appends the signal to the signal list and to the open scope's signals; creates an empty value list only for a new hash |
| Files.VcdFile.AddTimestamp | src/vcdp/VCDFile.cpp:38 | appends the time at the end, with no ordering check |
| Files.VcdFile.AddSignalValue | src/vcdp/VCDFile.cpp:47 | appends the timed value to the hash's existing list |
| Files.VcdFile.GetScope | src/vcdp/VCDFile.cpp:40-45 | the first scope in insertion order with that name, or none iff no scope has it |
| Files.VcdFile.GetSignal | include/vcdp/VCDFile.hpp:43-48 | the first signal with that hash, or none iff no signal has it |
| Files.VcdFile.Exists | include/vcdp/VCDFile.hpp:59-60 | true iff some signal was declared with the hash |
| Files.VcdFile.GetTimestamp | include/vcdp/VCDFile.hpp:50 | the answer is one of the appended timestamps |
| Files.VcdFile.GetSignalValues | src/vcdp/VCDFile.cpp:79-83 | the hash's list iff the hash has one, otherwise none |
| Files.VcdFile.GetSignalValue | src/vcdp/VCDFile.cpp:49-77 | none for an unknown hash; otherwise the value `ValueAt` gives; with erasing, exactly the entries before the answer are removed; without, nothing changes |
| Files.LookupScenario | src/vcdp/VCDFile.cpp:49-66 | on the list 0:'0', 5:'1', 10:'X', a query at 7 gives '1' and one at 0 gives '0'; on the list starting at 5, a query at 3 gives none |
| VLists.Encoding | include/vcdp/VListManager.hpp:53-57 | a number's encoding has at least one byte |
| VLists.EncodingRoundTrip | include/vcdp/VListManager.hpp:53-57 | every byte but the last has bit 7 clear and the last has it set, and the 7-bit groups, low first, sum back to the number |
| VLists.EncodingMarked | include/vcdp/VListManager.hpp:53-57 | only the last byte carries the end mark |
| VLists.EncodingValue | include/vcdp/VListManager.hpp:53-57 | the 7-bit groups sum back to the number |
| VLists.EncodingLength | include/vcdp/VListManager.hpp:53-59 | one byte iff the number is below 0x80; at most k bytes below 128^k |
| VLists.WordEncodingLength | include/vcdp/VListManager.hpp:50-59 | a 32-bit number takes one to five bytes |
| VLists.Decode | include/vcdp/VListManager.hpp:53-57 | reading one varint reports a length within the input |
| VLists.DecodeEncoding | include/vcdp/VListManager.hpp:53-57 | decoding an encoding, whatever follows, gives the number and the encoding's length |
| VLists.Encode | include/vcdp/VListManager.hpp:50-59 | the encoding loop over the five-byte buffer produces exactly the encoding |
| VLists.CapDouble | include/vcdp/VListManager.hpp:64 | each block is twice the size of the one before it |
| VLists.CapPositive | include/vcdp/VListManager.hpp:64 | no block is smaller than the first |
| VLists.LayoutFlatten | include/vcdp/VListManager.hpp:62-72 | the blocks, oldest first, hold the written bytes in order |
| VLists.LayoutFilled | include/vcdp/VListManager.hpp:62-72 | there are blocks iff some byte was written; each holds at least one byte and at most its capacity, and all but the newest are full |
| VLists.LayoutAppend | include/vcdp/VListManager.hpp:63-71 | writing a byte extends the newest block if it has room, and otherwise starts a new block holding just that byte |
| VLists.FlattenAppend | include/vcdp/VListManager.hpp:62-72 | a block added at the end adds its bytes at the end |
| VLists.RevIndex | include/vcdp/VListManager.hpp:66-67 | the i-th block from the head is the i-th newest |
| VLists.FlattenRev | include/vcdp/VListManager.hpp:75-90 | walking the blocks newest first neither adds nor drops a byte |
| VLists.StoredIsPermutation | include/vcdp/VListManager.hpp:75-90 | the bytes `getData` addresses are the written bytes, each exactly once |
| VLists.ThreeBytes | include/vcdp/VListManager.hpp:63-90 | bytes a, b, c go into a block of one then a block of two, and are addressed as b, c, a |
| VLists.FlattenSplit | include/vcdp/VListManager.hpp:79-89 | the bytes of the blocks from the i-th on follow those of the blocks before it |
| VLists.Block.constructor | include/vcdp/VListManager.hpp:32-46 | a block of the given size, empty, unlinked, with element size 1 |
| VLists.Allocate | include/vcdp/VListManager.hpp:32-46 | `allocate(n)` gives a fresh block with `size == n`, `offset == 0`, no next block and element size 1 |
| VLists.RevAppend | include/vcdp/VListManager.hpp:66-67 | a block added at the end is first from the head |
| VLists.RevExtendLast | include/vcdp/VListManager.hpp:70-71 | filling the newest block further fills the head block |
| VLists.GrowThenStore | include/vcdp/VListManager.hpp:63-71 | a byte stored into a new empty head block is a new newest block holding that byte |
| VLists.VListManager.constructor | include/vcdp/VListManager.hpp:22 | a new store has no head and no bytes |
| VLists.VListManager.Grow | include/vcdp/VListManager.hpp:63-68 | with no head or a full head, a fresh empty block of size 1 (first) or twice the head's size becomes the head; the bytes are unchanged |
| VLists.VListManager.Link | include/vcdp/VListManager.hpp:66-67 | the new block links to the old head and becomes the head; the shape invariant holds |
| VLists.VListManager.Store | include/vcdp/VListManager.hpp:70-71 | the byte goes at the head's offset, which grows by one; the written bytes grow by that byte |
| VLists.VListManager.HeadLayout | include/vcdp/VListManager.hpp:62-72 | the head block is the newest block of the layout: its size is the layout's capacity and its offset the newest block's length |
| VLists.VListManager.PutByte | include/vcdp/VListManager.hpp:62-72 | one turn of the byte loop appends the byte; a block is added only when there is no head (size 1) or the head is full (twice its size), and otherwise the blocks are kept |
| VLists.VListManager.AddData | include/vcdp/VListManager.hpp:48-73 | `addData` appends exactly the number's encoding to the written bytes and keeps the block invariant |
| VLists.VListManager.GetData | include/vcdp/VListManager.hpp:75-93 | an index below the number of stored bytes gives the byte at that place, newest block first; any other index gives out-of-range |
| Parser.FindChar | src/vcdp/VCDParser.cpp:110-111 | `find` for one character gives a position at or after the start that holds it |
| Parser.FindCharIsFirst | src/vcdp/VCDParser.cpp:110-111 | the character does not occur before that position, and none means it does not occur at all |
| Parser.FindText | src/vcdp/VCDParser.cpp:27-33 | `find` for a word gives a position at or after the start that holds it |
| Parser.FindTextIsFirst | src/vcdp/VCDParser.cpp:27-33 | the word does not occur before that position, and none means it does not occur at all |
| Parser.OccurrenceIsFound | src/vcdp/VCDParser.cpp:27-33 | any occurrence of the word is found |
| Parser.FindNextLine | src/vcdp/VCDParser.cpp:109-120 | the position found is at or after the start and holds '\n' or '\r' |
| Parser.FindNextLineIsFirst | src/vcdp/VCDParser.cpp:109-120 | no '\n' or '\r' occurs between the start and the position found, and none means none occurs |
| Parser.LinesRebuild | src/vcdp/VCDParser.cpp:76-95 | the lines with their breaks put back are the body again: no byte is lost or repeated |
| Parser.LinesHaveNoBreak | src/vcdp/VCDParser.cpp:76-88 | no line holds '\n' or '\r' |
| Parser.LinesAtBreak | src/vcdp/VCDParser.cpp:76-83 | the first line is everything before the first break |
| Parser.LinesOfNoBreak | src/vcdp/VCDParser.cpp:86-95 | text without breaks is one line, or none when empty |
| Parser.BreaksAppend | src/vcdp/VCDParser.cpp:76-88 | the breaks of a concatenation are the breaks of its parts |
| Parser.CrLfMakesEmptyLine | src/vcdp/VCDParser.cpp:116-123 | "\r\n" ends a line and then an empty one, which is skipped |
| Parser.SkipCSpaces | src/vcdp/VCDParser.cpp:127 | the white space `stoull` skips ends at the end of the text or at a non-space |
| Parser.Stoull | src/vcdp/VCDParser.cpp:127 | a successful `stoull` gives a 64-bit value |
| Parser.StoullReadsPrinted | src/vcdp/VCDParser.cpp:127 | `stoull` of a printed 64-bit number followed by a non-digit gives that number |
| Parser.LineEffectOf | src/vcdp/VCDParser.cpp:122-130 | a line has an effect iff it starts with '#'; a stamp is a 64-bit value |
| Parser.TimestampLine | src/vcdp/VCDParser.cpp:126-128 | "#" followed by a printed 64-bit number stamps that number |
| Parser.RunAppend | src/vcdp/VCDParser.cpp:76-95 | two batches of lines: the second runs only if the first threw nothing |
| Parser.RunStampsFromLines | src/vcdp/VCDParser.cpp:122-130 | every appended timestamp is a 64-bit value stamped by some line |
| Parser.RunOneMore | src/vcdp/VCDParser.cpp:80 | one more line after others that threw nothing adds that line's stamp or exception |
| Parser.StopsWhole | src/vcdp/VCDParser.cpp:127 | once a line has thrown, the lines after it do not run |
| Parser.LineEnd | src/vcdp/VCDParser.cpp:22 | `getline` ends the line at the next '\n' or at the end of the input |
| Parser.LineEndIsFirst | src/vcdp/VCDParser.cpp:22 | a line holds no '\n' |
| Parser.NextLine | src/vcdp/VCDParser.cpp:22 | reading goes on strictly after the start of the line |
| Parser.LineSpan | src/vcdp/VCDParser.cpp:22-23 | the input from the start of a line to where reading goes on is that line and its '\n', if any |
| Parser.GetLine | src/vcdp/VCDParser.cpp:22 | `getline` gives the text up to the next '\n', which it consumes |
| Parser.ScanHeader | src/vcdp/VCDParser.cpp:22-37 | the header loop as written consumes part of the input |
| Parser.HeaderIsConsumedInput | src/vcdp/VCDParser.cpp:22-37 | the header buffer is exactly the consumed input, with a '\n' added when the input ends without one |
| Parser.KeywordPastLine | src/vcdp/VCDParser.cpp:26-30 | a "$enddefinitions" that is not on the current line lies past it |
| Parser.ScanFindsKeyword | src/vcdp/VCDParser.cpp:22-37 | as written the loop ends iff "$enddefinitions" occurs in the input |
| Parser.NoEndConsumesAll | src/vcdp/VCDParser.cpp:22-37 | a loop that finds no end reads the whole input |
| Parser.ReadHeaderLine | src/vcdp/VCDParser.cpp:22-37 | one turn of the loop as written reads one line and either ends the scan or leaves the rest to it |
| Parser.ReadHeader | src/vcdp/VCDParser.cpp:17-37 | the loop as written gives `ScanHeader` of the input, and it ends iff "$enddefinitions" occurs |
| Parser.ScanHeaderIntended | src/vcdp/VCDParser.cpp:26-36 | the loop its comment describes consumes part of the input |
| Parser.EndSearchStart | src/vcdp/VCDParser.cpp:26-33 | before the keyword has been seen, a line holds a candidate "$end" iff it holds "$enddefinitions" |
| Parser.IntendedSeenEnds | src/vcdp/VCDParser.cpp:32-36 | once the keyword is seen, the intended loop ends only on a line holding "$end" |
| Parser.IntendedEndFollowsKeyword | src/vcdp/VCDParser.cpp:32-36 | the intended loop ends only after a "$end" that follows "$enddefinitions" |
| Parser.IntendedNeedsKeyword | src/vcdp/VCDParser.cpp:26-36 | without "$enddefinitions" the intended loop never ends |
| Parser.EnddefinitionsHoldsEnd | src/vcdp/VCDParser.cpp:27-33 | every line holding "$enddefinitions" holds "$end" |
| Parser.ReadHeaderLineIntended | src/vcdp/VCDParser.cpp:22-37 | one turn of the intended loop reads one line and either ends the scan or leaves the rest to it |
| Parser.ReadHeaderIntended | src/vcdp/VCDParser.cpp:17-37 | the intended loop gives `ScanHeaderIntended` of the input |
| Parser.HeaderReport | src/vcdp/VCDParser.cpp:39-53 | under a given grammar: no end found appends the missing-end error; an end found leaves the report unchanged iff the grammar's run does not fail, and otherwise clears the success flag and appends the internal error; under the corrected grammar, unchanged iff the recognizer accepts the buffer |
| Parser.HeaderCaptures | src/vcdp/VCDParser.cpp:44-49 | the captures a grammar fires on the buffer, including those of a command that failed part-way, can all run; none when no end was found; under the corrected grammar they are the recognizer's captures plus those of the failing command, and exactly the recognizer's when it accepts |
| Parser.AcceptedHeaderReportsNothing | src/vcdp/VCDParser.cpp:44-49 | under the corrected grammar a header the file recognizer accepts returns, adds nothing to the report, and runs exactly the recognizer's captures |
| Parser.ParseValueChangeLine | src/vcdp/VCDParser.cpp:122-130 | a '#' line appends its time or throws `stoull`'s exception; every other line changes nothing |
| Parser.DispatchChunk | src/vcdp/VCDParser.cpp:73-88 | the inner loop sends every complete line of the chunk in order, keeps the unfinished rest, and appends what those lines stamp |
| Parser.LinesFrom | src/vcdp/VCDParser.cpp:76-83 | cutting one line off the front of the text still to be split |
| Parser.ChunkStep | src/vcdp/VCDParser.cpp:65-89 | after one more chunk the lines sent so far are a prefix of the body's lines, or reading has stopped on an exception |
| Parser.ChunkLines | src/vcdp/VCDParser.cpp:65-89 | the body's lines are the lines sent, then the lines of what is carried over and still unread |
| Parser.LastLine | src/vcdp/VCDParser.cpp:91-95 | the carried-over text at the end is the body's last line, if any |
| Parser.ReadChunk | src/vcdp/VCDParser.cpp:65-89 | one pass of the outer loop keeps the reading invariant or stops on an exception |
| Parser.ReadChunks | src/vcdp/VCDParser.cpp:65-89 | the outer loop reads the whole body for every chunk size above zero |
| Parser.ScanBody | src/vcdp/VCDParser.cpp:58-98 | for every chunk size, the times appended and the exception thrown are those of running the body's lines, cut at every '\n' and '\r', in order |
| Parser.EndOnNextLineAsWritten | src/vcdp/VCDParser.cpp:22-49 | as written, on "$enddefinitions\n$end\n" the loop stops after the first line and the grammar refuses the buffer |
| Parser.EndOnNextLineIntended | src/vcdp/VCDParser.cpp:32-36 | the intended loop reads that input up to and including "$end" |
| Parser.EndOnNextLineAccepted | src/vcdp/VCDParser.cpp:44-49 | the grammar accepts that whole input, so the intended header reports nothing |
| Parser.MissingEndReported | src/vcdp/VCDParser.cpp:39-42 | without "$enddefinitions" the header step reports "Parse error: Missing $end after $enddefinitions" and reads the whole input |
| Parser.MissingEndReportedIntended | src/vcdp/VCDParser.cpp:39-42 | the intended loop reports the same error |
| Parser.TimescaleTenReported | src/vcdp/VCDParser.cpp:39-53 | as written, a header with "$timescale 10 ns" sets the resolution to 1, leaves the unit, and reports the internal error; corrected, resolution 10 in nanoseconds and nothing reported |
| Parser.TimescaleActions | src/vcdp/VCDActions.hpp:50-72 | the captured "1" sets the resolution to 1; "10" then "ns" set 10 and nanoseconds |
| Parser.TimeNumberOneAction | src/vcdp/VCDActions.hpp:50-56 | the captured "1" sets the resolution to 1 and nothing else |
| Parser.TimeNumberTenAction | src/vcdp/VCDActions.hpp:50-72 | "10" then "ns" set the resolution to 10 and the unit to nanoseconds, and nothing else |
| Parser.CommentThenDateReported | src/vcdp/VCDParser.cpp:39-53 | as written, "$comment $end" then "$date x" stores the comment "$end $date x" and no date, reporting nothing; corrected, an empty comment and the date "x" |
| Parser.CommentThenDateActions | include/vcdp/VCDActions.hpp:31-47 | the actions of those captures: the comment stored as "$end $date x", or as "" with the date "x" |
| Parser.RealtimeReported | src/vcdp/VCDParser.cpp:44-49 | as written, a header declaring a `realtime` variable reports the internal error |
| Parser.NonTextCommentHangs | src/vcdp/VCDParser.cpp:44-49 | as written, a header whose comment holds a character that is neither printable ASCII nor whitespace makes `parseHeader` never return; corrected, it reports the internal error |
| Parser.VcdParser.FinishHeader | src/vcdp/VCDParser.cpp:39-55 | under a given grammar: reports a missing end, or runs every action the grammar fires on the container and reports a refused header; when the grammar spins it does not return, and the report is left as it was |
| Parser.VcdParser.ParseHeader | src/vcdp/VCDParser.cpp:12-56 | as written, loop and grammar: clears the report, reads the header lines, runs the written grammar's actions, and leaves the report as `HeaderReport` says when it returns |
| Parser.VcdParser.ParseValueChange | src/vcdp/VCDParser.cpp:58-98 | clears the report and appends the body's timestamps, for any chunk size |
| Parser.VcdParser.Parse | src/vcdp/VCDParser.cpp:100-107 | as written: header with the written grammar, then the body; the report ends cleared whatever the header reported; when the header does not return, no timestamp is read |
| Parser.VcdParser.ParseHeaderIntended | src/vcdp/VCDParser.cpp:12-56 | `parseHeader` with the intended loop and the corrected grammar |
| Parser.VcdParser.ParseIntended | src/vcdp/VCDParser.cpp:100-107 | the header's report survives the body; header fields and timestamps as the intended scan says |

## Left out

- The files themselves: the `std::ifstream` becomes a string holding the whole input, and the chunk size becomes a parameter. The path is only used for error text, so it is not modelled.
- `file_` and `ParseResult`: `file_` becomes a method parameter. The report keeps only the success flag and the error messages.
- The grammar is modelled twice. `Lexical` holds recognizers of the corrected grammar, which answer where a rule ends and what it captures. `Matching` runs the grammar as the PEG library does, with the written tables (`AsWritten`) or the corrected ones (`Corrected`): actions fire as rules match and are not undone, and a repetition that matches nothing never returns. The driver as written (`ParseHeader`, `Parse`) uses `AsWritten`; the intended driver uses `Corrected`. The `Matching.*Agrees` lemmas prove that the corrected run and the recognizers agree.
- The `pegtl::parse_error` branch of `parseHeader`: the grammar has no `must` rules, so nothing raises it.
- `$var` has no action attached in this revision: `AddSignal` and `ValidateVCDSignal` are not reachable from the grammar. Both are modelled standalone.
- `text_char` as written can match without consuming input, so `star` never terminates on it. `TextAsWritten` keeps the written rule with a fuel bound; `Matching.WrittenTextStops` shows that no fuel makes it stop where `Matching.WrittenTextEnd` says it spins, so the bound leaves nothing unmodelled there. The corrected `text` (`Lexical.Text`) takes one character per step.
- TextCommand: besides the one-character `text`, it closes the command with an empty body when "$end" directly follows the keyword's whitespace. The written rule has no such shortcut: there `text` runs on over that "$end" (`Matching.CommentThenDateRun`).
- CommandComment: the corrected `command_comment`, over `TextCommand`. As written it is `Matching.TextCommandRun` under `AsWritten`.
- CommandDate: the corrected `command_date`, over `TextCommand`. As written it is `Matching.TextCommandRun` under `AsWritten`.
- CommandVersion: the corrected `command_version`, over `TextCommand`. As written it is `Matching.TextCommandRun` under `AsWritten`.
- DeclarationCommand: the corrected `declaration_command`, built from the corrected timescale, var and text commands. It accepts "$timescale 10 ns $end" and "$var realtime ...", and reads "$comment $end" as an empty comment, unlike the written rule. As written it is `Matching.DeclarationCommandRun` under `AsWritten`.
- HeaderSection: the corrected `header_section`, over that command set, so its captures differ from the written rule's on those inputs. As written it is `Matching.HeaderSectionRun` under `AsWritten`.
- DeclarationSection: the corrected `declaration_section`. As written it is `Matching.DeclarationSectionRun` under `AsWritten`, which the driver as written uses.
- VcdFile: the corrected `vcd_file`. It is used only to state which headers the corrected driver accepts (`Parser.AcceptedHeaderReportsNothing`).
- Floating point: reals are an opaque payload, and the text of a real is a parameter.
- ANSI colours: `BitColor` and the colour constants are parameters of the coloured rendering.
- `malloc`, `free`, `new[]`, `delete[]` and the destructors: storage is modelled with arrays and sequences, and deallocation is not modelled.
- Files.VcdFile.GetTimestamp: only the declaration is given, so the model requires an index within range instead of modelling an exception, and its contract states only that the answer is an appended timestamp.
- Files.VcdFile.AddSignalValue: requires the hash to have a list, because the source dereferences a null pointer otherwise.
- Files.VcdFile.AddSignal: requires an open scope, because the source dereferences the current scope.
- Signals are a sequence, as in `VCDFile.cpp`. The header's map keyed by hash (one signal per hash, enumerated in key order) is not modelled.
- Actions.TimeResolutionOf: the `uint8_t` truncation is modelled (the value is taken modulo 256). `stoi`'s `out_of_range` exception is not, and the contract gives the exact value only when it fits. The grammar only ever captures 1, 10 or 100, so neither case can arise.
- Parser.Stoull: the sign and the overflow are modelled as `std::stoull` defines them; locale-specific white space is not.
- VLists.VListManager.AddData: the 32-bit wrap of `head_->size * 2` and the `int` offset are not modelled, because unbounded sizes are used. They would only matter past 2^31 stored bytes.
- VLists.VListManager.GetData: the byte is returned as read. Widening it to `uint32_t` changes no value.
- The tests exercise an API (`Parse`, `GetResult`) of another revision; they are used only as examples (`MultilineComment`, `NestedScopes`, `SiblingTopScopes`, `IndexedExamples`, `LookupScenario`).
- `src/main.cpp`, `include/vcdp/VCDParser.cpp`/`.hpp` (a thin PEGTL wrapper) and `VCDValidationError.hpp` (an exception type) are not part of this model.

## Findings

| source | as written | input that shows it | evidently intended | confidence | as-written member | corrected member |
|---|---|---|---|---|---|---|
| src/vcdp/VCDParser.cpp:26-36 | the loop sets `found_enddefinitions` and then looks for "$end" on the same line, which "$enddefinitions" itself contains, so the header stops at that line | "$enddefinitions\n$end\n": the buffer lacks "$end" and the grammar refuses it ("Internal parse error...") | look for "$end" after the keyword, so that a "$end" on a following line is read | medium, not executed | Parser.EndOnNextLineAsWritten | Parser.EndOnNextLineIntended |
| src/vcdp/VCDParser.cpp:100-106 | `parse` runs `parseValueChange` after `parseHeader`, and `parseValueChange` clears `result_` first (line 60) | any input without "$enddefinitions": the header reports the missing end, and the report is then cleared | the header's errors survive the value-change phase | medium, not executed | Parser.VcdParser.Parse | Parser.VcdParser.ParseIntended |
| include/vcdp/VCDLexical.hpp:42 | `time_number` lists "1" before "10" and "100"; ordered choice commits to "1" | "$timescale 10 ns $end": "1" is read and its action stores resolution 1, then `time_unit` fails at "0" and `parseHeader` reports "Internal parse error..." (Parser.TimescaleTenReported) | longest number first, so 10 and 100 are accepted | medium, not executed | Grammar.TimescaleAsWrittenRefusesTens | Grammar.TimescaleReadsNumberAndUnit |
| include/vcdp/VCDLexical.hpp:65-69 | `var_type` lists "real" before "realtime" and "tri" before triand, trior, trireg, tri0 and tri1 | "$var realtime 1 ! t $end": "real" is read and `mandatory_space` fails at "t", so the header is reported as an internal error (Parser.RealtimeReported) | longer kinds ahead of their prefixes, so every kind is accepted | medium, not executed | Grammar.VarAsWrittenRefusesLongerKinds | Grammar.VarTypeKeywordIsRead |
| include/vcdp/VCDLexical.hpp:22-23 | `text_char`'s second alternative `whitespaces` matches the empty string, so `star` can repeat without consuming | "$comment $end" at the end of the input, or a comment holding a character outside printable ASCII and whitespace: `text` never stops and `parseHeader` never returns (Parser.NonTextCommentHangs); "$comment $end" followed by "$date x $end": the comment swallows the date (Parser.CommentThenDateReported) | one character per step, stopping at a closing, the end or a non-text character; an empty body captures "" | medium, not executed | Grammar.EmptyTextAsWrittenNeverStops | Grammar.EmptyTextCommand |
