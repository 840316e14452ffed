# RDFer in Dafny

RDFer converts XML data into RDF. A configuration document, itself XML,
describes the conversion. `<mapping>` (or `<foreach>`) selects data nodes by
XPath. `<resource>` opens an `rdf:Description`, and `<identifier>` names it.
`<triple>`, `<type>` and `<bnode>` add statements to it. `<if>`, `<else>` and
`<switch>` choose which parts of the configuration run. `<counter>` and
`<uniqueidentifier>` keep variables that `^counter_name~` and
`^uniqueidentifier_name~` read back inside values. Modifiers are named value
transformations: the built-in ones plus those a modifier library registers.
The result is written as RDF/XML. When named graphs are used, it is written
as TriG or N-Quads instead.

This project models the interpreter (`RDFer.cs`) and the output buffer it
writes to (`RdfOutput.cs`). It also models the counter and unique-identifier
variables, the modifiers (`Modifier.cs`, and `MyModifier.cs` from the custom
modifier library) and the HTML clean-up helper. Four pieces of the vendored
dotNetRDF library are modelled as well: the hash-table slots, and the SPARQL
expressions AND, isBLANK, STRSTARTS and STRENDS.

Modules, one or more per source file:

| module | file | models |
|---|---|---|
| `Wrappers` | wrappers.dfy | `Option`, `Result`, and the exception kinds the source throws |
| `DotNet` | dotnet.dfy | the parts of the .NET base library the core relies on: `Trim`, `ToLower`, `StartsWith`/`EndsWith`/`IndexOf`, `Replace`, `Split`, `int.TryParse`, `bool.TryParse`, 32-bit wrap-around, number rendering |
| `Counters` | counter.dfy | `Counter` as a class with a 32-bit wrapping step |
| `UniqueIdentifiers` | unique_identifier.dfy | `UniqueIdentifier` as a class; the identifier formula (a 64-bit product of GUID bytes, minus a tick count, in lower-case hex) |
| `HashSlots` | hash_slot.dfy | `ListSlot`, `CompactSlot` and `SetSlot` as classes over `seq`/`set` |
| `Modifiers` | modifier.dfy | the built-in modifier table and the custom-library lookup |
| `MyModifiers` | my_modifier.dfy | the five custom modifiers and the date formatting behind them |
| `CharacterConversion` | character_conversion.dfy | `CharacterConversionHelper` as a class |
| `RdfOutputs` | rdf_output.dfy | `RdfOutput` as a class: the output document as an arena of element records addressed by handle, and the triple store of sealed named graphs |
| `RdferConfig` | rdfer_config.dfy | the configuration tree, tag dispatch, and the XPath engine as an oracle over data-node handles |
| `RdferText` | rdfer_text.dfy | `SanitiseUri`, `ShortUri`, `SanitiseString`, `CountStringOccurrences`, `RemoveClosingBrackets`, `DateToInt`, `ParseFormat`, placeholder scanning |
| `RdferValues` | rdfer_values.dfy | `TryInternalFunction`, `MatchNestedInternalFunctionCalls`, `GetValues` |
| `RdferCommands` | rdfer_commands.dfy | what `<error>`, `<counter>`, `<uniqueidentifier>`, `<if>` and `<namespaces>` decide from their attributes alone |
| `SparqlExpressions` | sparql_expressions.dfy | AND, isBLANK, STRSTARTS and STRENDS over an expression datatype |
| `Rdfer` | rdfer.dfy | the interpreter as the class `RDFer`: `Start`, `ExecConfig` and every `Do…` handler |

Each loop in the source becomes a method with a `while` loop. The method is
proved equal to a specification function, and the properties are proved
about that function. Examples are `CountStringOccurrences`, `SanitiseUri`'s
hyphen loop, `GetValues`, `GetNamespaces`, `ReplaceAll`, `CopyTo`, and the
entity and `xmlns` loops of `InitialiseRdfOutput`.

Behaviour of the code that differs from its own comments or from the
evident intent. The model follows the code in each case:

- `<error exit="true">` throws (RDFer.cs:226-227). The enclosing
  `ExecConfig` catches the exception (RDFer.cs:174), so only the remaining
  siblings are abandoned. The conversion does not stop.
- A value that is exactly one `{path}` is resolved with `SelectNodes`
  (RDFer.cs:1110). A path whose XPath result is a string or a number is
  therefore an error, not a value.
- `GetValues` with `min = 0` and the attribute absent dereferences null
  (RDFer.cs:962-965). That is an error too.
- `SanitiseUri` collapses double slashes with the replacement text `"\\1/"`,
  that is `\1/` (RDFer.cs:943). .NET recognises only `$` substitutions in a
  replacement text, so `"a//b"` becomes `\1/b`. This is modelled as written
  (`SanitiseUriAsWritten`) and as intended with `$1/` (`SanitiseUri`), which
  the rest of the model uses; see Findings.
- `SanitiseUri` is not idempotent in either version (RDFer.cs:931-943). As
  written, `"a//"` gives `\1/`, and sanitising that again gives `1/`. As
  intended, `"a///"` gives `"a//"`, and sanitising that again gives `"a/"`.
- An `<if>` whose XPath yields a number never runs its body
  (RDFer.cs:557-569). The number is rendered and handed to `bool.TryParse`,
  which fails.
- `ParseFormat` has no case for `nq`/`nquads`, so they fall back to RDF/XML
  (RDFer.cs:103-128).
- `<counter>` creating a new counter with `initialValue` sets the current
  value only (RDFer.cs:282). The counter's own initial value stays 0.
- `TripleStore.Add(g, true)` merges a graph into an existing graph with the
  same URI (RdfOutput.cs:229, 257, 293). A second graph with the same name
  therefore extends the first; it is not added beside it.
- `FormatMerlinDate…`: for `"12thC BC"` the code reads the first digit run,
  which gives `-0012-01-01` (MyModifier.cs:101-113). The comment at
  MyModifier.cs:77 says 1199 BC.
- `ReplaceAll` in `CharacterConversionHelper` keeps only the replacement of
  the last pattern (CharacterConversionHelper.cs:80-86). Each iteration
  starts from the original string.

## Model

| member | source | states |
|---|---|---|
| `Counters.Step` | RDFerSolution/RDFer/Counter.cs:52-63 | one iteration moves the value by one in its direction, wrapping at the 32-bit bounds as C# `++`/`--` do |
| `Counters.SteppedIsWrappedSum` | RDFerSolution/RDFer/Counter.cs:52-63 | n iterations equal the 32-bit wrap of value ± n |
| `Counters.StepUndone` | RDFerSolution/RDFer/Counter.cs:52-63 | an increment followed by a decrement restores the value, even across the wrap |
| `Counters.Counter.constructor` | RDFerSolution/RDFer/Counter.cs:36-42 | name set, initial and current value 0, incrementing |
| `Counters.Counter.WithInitialValue` | RDFerSolution/RDFer/Counter.cs:44-50 | name, initial value and direction set; the current value starts at the initial value |
| `Counters.Counter.IterateCounter` | RDFerSolution/RDFer/Counter.cs:52-63 | the current value becomes `Step` of the old value in the counter's direction; nothing else changes |
| `Counters.FreshCounterCountsUp` | RDFerSolution/RDFer/Counter.cs:36-63 | a new counter iterated three times reads 1, 2, 3 |
| `UniqueIdentifiers.ByteProduct` | RDFerSolution/RDFer/UniqueIdentifier.cs:35 | the product of (byte + 1), starting at 1, taken in 64-bit arithmetic, lies in [0, 2^64) |
| `UniqueIdentifiers.LowerHex` | RDFerSolution/RDFer/UniqueIdentifier.cs:36 | `{0:x}` rendering is non-empty lower-case hex with no leading zero |
| `UniqueIdentifiers.HexRoundTrip` | RDFerSolution/RDFer/UniqueIdentifier.cs:36 | reading the hex rendering back gives the number |
| `UniqueIdentifiers.GenerateUniqueId` | RDFerSolution/RDFer/UniqueIdentifier.cs:33-37 | the identifier is non-empty hex whose value is (byte product − ticks) mod 2^64 |
| `UniqueIdentifiers.UniqueIdentifier.constructor` | RDFerSolution/RDFer/UniqueIdentifier.cs:23-26 | the name is set and no identifier exists yet |
| `UniqueIdentifiers.UniqueIdentifier.UniqueId` | RDFerSolution/RDFer/UniqueIdentifier.cs:13-21 | the getter generates once, on first read, then returns the stored identifier |
| `UniqueIdentifiers.UniqueIdentifier.Generate` | RDFerSolution/RDFer/UniqueIdentifier.cs:28-31 | replaces the identifier with a freshly generated one |
| `UniqueIdentifiers.ReadTwice` | RDFerSolution/RDFer/UniqueIdentifier.cs:13-21 | two reads return the same identifier, drawn from the first seed |
| `HashSlots.FirstIndex` | RDFerSolution/dotNetRdf/Common/HashSlot.cs:135-138 | the first position holding an item that `List.Remove` would remove |
| `HashSlots.RemoveFirst` | RDFerSolution/dotNetRdf/Common/HashSlot.cs:135-138 | removes the first occurrence only, or nothing when the item is absent |
| `HashSlots.RemoveFirstBag` | RDFerSolution/dotNetRdf/Common/HashSlot.cs:135-138 | removal takes exactly one copy out of the multiset; the count drops by one exactly when the item was present |
| `HashSlots.RemoveUndoesAdd` | RDFerSolution/dotNetRdf/Common/HashSlot.cs:135-147 | adding a new item and then removing it restores the list |
| `HashSlots.ListSlot.constructor` | RDFerSolution/dotNetRdf/Common/HashSlot.cs:24-28 | the slot holds exactly the value |
| `HashSlots.ListSlot.WithCapacity` | RDFerSolution/dotNetRdf/Common/HashSlot.cs:34-37 | the slot starts empty |
| `HashSlots.ListSlot.WithValueAndCapacity` | RDFerSolution/dotNetRdf/Common/HashSlot.cs:44-55 | the slot holds exactly the value, whatever the capacity |
| `HashSlots.ListSlot.Clear` | RDFerSolution/dotNetRdf/Common/HashSlot.cs:78-81 | empties the slot |
| `HashSlots.ListSlot.Contains` | RDFerSolution/dotNetRdf/Common/HashSlot.cs:88-91 | true exactly when some position holds the item |
| `HashSlots.ListSlot.IsReadOnly` | RDFerSolution/dotNetRdf/Common/HashSlot.cs:122-128 | never read-only |
| `HashSlots.ListSlot.CopyTo` | RDFerSolution/dotNetRdf/Common/HashSlot.cs:98-106 | copies the values in order from the index; an out-of-range write fails with the positions before it already written |
| `HashSlots.ListSlot.Remove` | RDFerSolution/dotNetRdf/Common/HashSlot.cs:135-138 | reports presence and removes the first occurrence |
| `HashSlots.ListSlot.Add` | RDFerSolution/dotNetRdf/Common/HashSlot.cs:144-147 | appends the item; the count grows by one |
| `HashSlots.CompactSlot.constructor` | RDFerSolution/dotNetRdf/Common/HashSlot.cs:155-158 | the slot starts empty |
| `HashSlots.CompactSlot.WithValue` | RDFerSolution/dotNetRdf/Common/HashSlot.cs:160-164 | the slot holds exactly the value |
| `HashSlots.CompactSlot.Add` | RDFerSolution/dotNetRdf/Common/HashSlot.cs:176-179 | appends at the end of the linked list |
| `HashSlots.CompactSlot.Clear` | RDFerSolution/dotNetRdf/Common/HashSlot.cs:181-184 | empties the slot |
| `HashSlots.CompactSlot.Contains` | RDFerSolution/dotNetRdf/Common/HashSlot.cs:186-189 | true exactly when some position holds the item |
| `HashSlots.CompactSlot.CopyTo` | RDFerSolution/dotNetRdf/Common/HashSlot.cs:191-194 | `LinkedList.CopyTo`: a negative index or one past the end is rejected, too little room is rejected, and otherwise the values are copied in order with the rest of the array unchanged |
| `HashSlots.CompactSlot.IsReadOnly` | RDFerSolution/dotNetRdf/Common/HashSlot.cs:204-210 | never read-only |
| `HashSlots.CompactSlot.Remove` | RDFerSolution/dotNetRdf/Common/HashSlot.cs:212-215 | reports presence and removes the first occurrence |
| `HashSlots.SetSlot.constructor` | RDFerSolution/dotNetRdf/Common/HashSlot.cs:225-228 | the slot starts empty |
| `HashSlots.SetSlot.WithValue` | RDFerSolution/dotNetRdf/Common/HashSlot.cs:230-234 | the slot holds exactly the value |
| `HashSlots.SetSlot.Add` | RDFerSolution/dotNetRdf/Common/HashSlot.cs:246-249 | set insertion; a duplicate changes neither the set nor the count |
| `HashSlots.SetSlot.Clear` | RDFerSolution/dotNetRdf/Common/HashSlot.cs:251-254 | empties the slot |
| `HashSlots.SetSlot.CopyTo` | RDFerSolution/dotNetRdf/Common/HashSlot.cs:261-264 | `HashSet.CopyTo`: a negative index or too little room is rejected, and otherwise the elements fill the range in some order with the rest unchanged |
| `HashSlots.SetSlot.WriteValues` | RDFerSolution/dotNetRdf/Common/HashSlot.cs:261-264 | writes the elements into the range from the index, as a permutation of them, leaving the rest of the array unchanged |
| `HashSlots.SetSlot.IsReadOnly` | RDFerSolution/dotNetRdf/Common/HashSlot.cs:274-280 | never read-only |
| `HashSlots.SetSlot.Remove` | RDFerSolution/dotNetRdf/Common/HashSlot.cs:282-285 | reports presence and removes the element |
| `Modifiers.CustomLookup` | RDFerSolution/RDFer/Modifier.cs:43-67 | the first library that knows the name supplies the modifier; when none does, the error names the modifier |
| `Modifiers.GetCustomModifier` | RDFerSolution/RDFer/Modifier.cs:43-67 | the loop over libraries returns `CustomLookup`'s result |
| `Modifiers.GetModifierMethod` | RDFerSolution/RDFer/Modifier.cs:16-38 | the trimmed, lower-cased name picks a built-in, and anything else goes to the libraries |
| `Modifiers.BuiltinShadowsLibraries` | RDFerSolution/RDFer/Modifier.cs:20-37 | a built-in name resolves the same way whatever libraries are loaded |
| `Modifiers.LibraryNamesAreExact` | RDFerSolution/RDFer/Modifier.cs:34-35 | libraries receive the name untrimmed, so `" encodevalue"` is unknown although `"encodevalue"` is found |
| `Modifiers.PaddedNameFolds` | RDFerSolution/RDFer/Modifier.cs:20 | trimming and lower-casing fold the padded name onto the plain one |
| `Modifiers.ExtractCurrencyOf` | RDFerSolution/RDFer/Modifier.cs:101-115 | the result is a prefix of the trimmed input, cut just before the first comma when that comma is not at position 0 |
| `Modifiers.FirstCommaPrefix` | RDFerSolution/RDFer/Modifier.cs:109-113 | `IndexOf(',')` finds the first comma, and the prefix before it holds none |
| `Modifiers.ExtractDenominationOf` | RDFerSolution/RDFer/Modifier.cs:122-142 | a non-empty result parses as a double, and currency + "," + result is the trimmed input |
| `Modifiers.DenominationAfterCurrency` | RDFerSolution/RDFer/Modifier.cs:130-137 | when the text after the first comma parses, it is the denomination |
| `MyModifiers.GetCustomModifierMethod` | RDFerSolution/CustomModifier/MyModifier.cs:15-36 | the exact registered name finds its modifier, and no other name finds one |
| `MyModifiers.LookupFindsRegistered` | RDFerSolution/CustomModifier/MyModifier.cs:15-36 | every modifier is found under its registered name |
| `MyModifiers.EncodeValueOf` | RDFerSolution/CustomModifier/MyModifier.cs:38-41 | the result holds no space and no dot, and is no longer than the input |
| `MyModifiers.EncodeValueIdempotent` | RDFerSolution/CustomModifier/MyModifier.cs:38-41 | encoding twice equals encoding once |
| `MyModifiers.FirstDigitRun` | RDFerSolution/CustomModifier/MyModifier.cs:104 | the `\d+` match, over ASCII digits, is all digits, and is empty only when the text has no digit |
| `MyModifiers.LeadingDigits` | RDFerSolution/CustomModifier/MyModifier.cs:99-105 | the maximal digit prefix |
| `MyModifiers.FormatProductionDate` | RDFerSolution/CustomModifier/MyModifier.cs:97-117 | a BC date gives "" or a negative year; any other date gives a result exactly when it parses as an int; a result ends in -MM-DD |
| `MyModifiers.BcYearIsFirstDigitRun` | RDFerSolution/CustomModifier/MyModifier.cs:102-114 | for every BC date: when its first digit run has a value that fits in 32 bits, the result is "-", that value padded to four digits, and -MM-DD; when there is no digit run or the value does not fit, the result is "" |
| `MyModifiers.FormatMerlinDate` | RDFerSolution/CustomModifier/MyModifier.cs:61-95 | empty input gives ""; BC, century and four-character inputs give "" or a date ending in -MM-DD |
| `MyModifiers.DigitsPositive` | RDFerSolution/CustomModifier/MyModifier.cs:104-107 | digits without a leading zero have a positive value |
| `MyModifiers.RenderDigits` | RDFerSolution/CustomModifier/MyModifier.cs:104-110 | parsing then rendering digits without a leading zero reproduces them |
| `MyModifiers.FourDigitYear` | RDFerSolution/CustomModifier/MyModifier.cs:49-56 | any four-digit year without a leading zero gives year-01-01 as earliest (month 1, day 1) and year-12-31 as latest (month 12, day 31) |
| `MyModifiers.FourDigitDate` | RDFerSolution/CustomModifier/MyModifier.cs:61-117 | such a year, with any month and day, formats as the year followed by -MM-DD |
| `MyModifiers.FourDigitProduction` | RDFerSolution/CustomModifier/MyModifier.cs:97-117 | the production-date formatter gives such a year back, followed by -MM-DD |
| `MyModifiers.FourCharPath` | RDFerSolution/CustomModifier/MyModifier.cs:86-89 | any four-character input takes the production-date path |
| `MyModifiers.CenturyIsUnread` | RDFerSolution/CustomModifier/MyModifier.cs:49-56 | any century of the form "DDthC" gives "" as both earliest and latest date, since the century text does not parse as an int |
| `MyModifiers.UnreadProductionDate` | RDFerSolution/CustomModifier/MyModifier.cs:82-93 | non-empty input holding "thC" goes to the production-date formatter, so its "" is the date's result |
| `MyModifiers.CenturyYearUnread` | RDFerSolution/CustomModifier/MyModifier.cs:97-117 | the production-date formatter returns "" for any "DDthC", whatever the month and day |
| `MyModifiers.CenturyNotBc` | RDFerSolution/CustomModifier/MyModifier.cs:102 | a "DDthC" century, lower-cased and trimmed, holds no "bc" |
| `MyModifiers.CenturyNotInt` | RDFerSolution/CustomModifier/MyModifier.cs:108-110 | a "DDthC" century is its own trim and does not parse as an int |
| `MyModifiers.BcCenturyTakesFirstDigits` | RDFerSolution/CustomModifier/MyModifier.cs:99-114 | any "DDthC BC" with a non-zero first digit formats as "-00DD" followed by -MM-DD: the first digit run, negated and padded to four digits |
| `MyModifiers.BcCenturyIsBc` | RDFerSolution/CustomModifier/MyModifier.cs:102-106 | a "DDthC BC" century, lower-cased and trimmed, holds "bc" |
| `MyModifiers.BcCenturyDigits` | RDFerSolution/CustomModifier/MyModifier.cs:104 | the first digit run of "DDthC BC" is its two digits |
| `MyModifiers.TwoDigitYear` | RDFerSolution/CustomModifier/MyModifier.cs:110-113 | two digits, the first non-zero, parse as their value, and the BC rendering of that value is "-00" followed by the two digits |
| `MyModifiers.ProductionPath` | RDFerSolution/CustomModifier/MyModifier.cs:86-93 | BC and century inputs are handed to the production-date formatter |
| `CharacterConversion.TagForms` | RDFerSolution/RDFer/CharacterConversionHelper.cs:73-76 | four forms per tag, the last being the escaped closing tag |
| `CharacterConversion.TagFormsShape` | RDFerSolution/RDFer/CharacterConversionHelper.cs:70-77 | four non-empty patterns per element, in element order |
| `CharacterConversion.HtmlCruftShape` | RDFerSolution/RDFer/CharacterConversionHelper.cs:65-78 | fifty non-empty fragments, the last being `&lt;/inline-equation&gt;` |
| `CharacterConversion.CharacterConversionHelper.constructor` | RDFerSolution/RDFer/CharacterConversionHelper.cs:21-24 | the fragment list is populated |
| `CharacterConversion.CharacterConversionHelper.PopulateHtmlCruft` | RDFerSolution/RDFer/CharacterConversionHelper.cs:65-78 | appends the fifty fragments |
| `CharacterConversion.CharacterConversionHelper.ReplaceAll` | RDFerSolution/RDFer/CharacterConversionHelper.cs:80-89 | the loop returns the input with the last pattern alone replaced |
| `CharacterConversion.CharacterConversionHelper.EntitiesToAccents` | RDFerSolution/RDFer/CharacterConversionHelper.cs:31-59 | equals the specification `EntitiesToAccentsOf` |
| `CharacterConversion.NoAmpersandUnchanged` | RDFerSolution/RDFer/CharacterConversionHelper.cs:31-59 | text without '&' passes through unchanged |
| `CharacterConversion.SinglePassFolding` | RDFerSolution/RDFer/CharacterConversionHelper.cs:42-44 | folding is a single pass: "&&&" becomes "&&", and "&amp;" survives because only the last ampersand pattern is applied |
| `RdferText.CharOccurrences` | RDFerSolution/RDFer/RDFer.cs:1202-1213 | the occurrence count of a one-character pattern is the character count |
| `RdferText.CountStringOccurrences` | RDFerSolution/RDFer/RDFer.cs:1202-1213 | the loop counts non-overlapping occurrences from the start |
| `RdferText.OccurrenceStep` | RDFerSolution/RDFer/RDFer.cs:1202-1213 | one step of the loop: the occurrence found from a position ends inside the text and adds one to the count from just after it |
| `RdferText.FirstCopyAt` | RDFerSolution/RDFer/RDFer.cs:1202-1213 | the count of a character from a position is one more than the count after its first occurrence |
| `RdferText.DashOthers` | RDFerSolution/RDFer/RDFer.cs:929 | every character outside the URI set becomes '-', and the others are kept |
| `RdferText.CollapseHyphensClean` | RDFerSolution/RDFer/RDFer.cs:932-935 | after collapsing, no "--" remains, and URI characters stay URI characters |
| `RdferText.CollapseFixed` | RDFerSolution/RDFer/RDFer.cs:932-935 | text without "--" is left alone |
| `RdferText.HalvingShape` | RDFerSolution/RDFer/RDFer.cs:934 | one `Replace("--","-")` pass never lengthens the text, keeps its first character, and shortens any text that has a "--" |
| `RdferText.HalvingKeepsCollapse` | RDFerSolution/RDFer/RDFer.cs:932-935 | a pass does not change where collapsing ends |
| `RdferText.CollapseDoubleHyphens` | RDFerSolution/RDFer/RDFer.cs:932-935 | the while loop ends with the collapsed text |
| `RdferText.CollapseSlashesClean` | RDFerSolution/RDFer/RDFer.cs:943 | the intended collapse (`$1/`) keeps URI characters and the absence of "--" |
| `RdferText.DropTrailingSlash` | RDFerSolution/RDFer/RDFer.cs:948-949 | dropping a trailing slash keeps the first character |
| `RdferText.SanitiseUri` | RDFerSolution/RDFer/RDFer.cs:923-953 | the method returns `SanitiseUriOf`, the cleaning with the slash collapse as intended (`$1/`) |
| `RdferText.SanitisedUriIsClean` | RDFerSolution/RDFer/RDFer.cs:923-953 | with the intended slash collapse, the result holds only URI characters, no "--", and does not start with '-' |
| `RdferText.CleanUriKept` | RDFerSolution/RDFer/RDFer.cs:923-953 | with the intended slash collapse, an already clean URI changes at most by its trailing slash |
| `RdferText.SanitiseUriNotIdempotent` | RDFerSolution/RDFer/RDFer.cs:942-949 | neither version is idempotent: as written "c//" gives `\1/` and that gives "1/"; as intended "c///" gives "c//" and that gives "c/", for any URI character c other than ':', '/' and '-' |
| `RdferText.SanitiseTripleSlash` | RDFerSolution/RDFer/RDFer.cs:942-949 | "c///" sanitises to `\1//` as written and to "c//" as intended; the trailing slash stays, as there are only two or three slashes |
| `RdferText.SanitiseDoubleSlash` | RDFerSolution/RDFer/RDFer.cs:942-949 | "c//" sanitises to `\1/` as written and to "c/" as intended |
| `RdferText.CollapseTripleSlash` | RDFerSolution/RDFer/RDFer.cs:943 | the replacement turns "c///" into `\1//` as written and into "c//" as intended, when c is not ':' |
| `RdferText.SlashesOnlyStage` | RDFerSolution/RDFer/RDFer.cs:923-953 | for text of URI characters without '-', '<' or '>', only the slash stages act, in both versions |
| `RdferText.TrailingSlashRule` | RDFerSolution/RDFer/RDFer.cs:945-949 | for any scheme ending in ':', any host and any path segment without '/' or '-', "scheme//host/" keeps its trailing slash, and "scheme//host/segment/" loses it |
| `RdferText.SiteRootClean` | RDFerSolution/RDFer/RDFer.cs:926-943 | "scheme//host/" has only URI characters, no '-', '<' or '>', and every double slash follows ':' |
| `RdferText.SegmentBelowClean` | RDFerSolution/RDFer/RDFer.cs:926-943 | adding a plain segment and '/' to such a path keeps all of these properties |
| `RdferText.CleanSlashRule` | RDFerSolution/RDFer/RDFer.cs:948-949 | a clean URI ending in '/' loses the slash exactly when it holds more than three slashes |
| `RdferText.SlashCountRule` | RDFerSolution/RDFer/RDFer.cs:948 | the trailing-slash rule counts slashes with `CountStringOccurrences` |
| `RdferText.KeptSlashes` | RDFerSolution/RDFer/RDFer.cs:943 | a text in which every double slash follows ':' is left unchanged by the intended slash collapse |
| `RdferText.CollapseSlashesAsWritten` | RDFerSolution/RDFer/RDFer.cs:943 | the collapse as written: .NET reads `\1` in a replacement literally, so each match, with the character before the slashes, becomes `\1/`; the length is kept |
| `RdferText.SlashReplacementLiteral` | RDFerSolution/RDFer/RDFer.cs:943 | for plain characters c (not ':') and b, "c//b" sanitises to `\1/b` as written, which is not made of URI characters, and to "c/b" as intended |
| `RdferText.FirstUriPrefix` | RDFerSolution/RDFer/RDFer.cs:905-922 | the first namespace, in table order, whose URI starts the value |
| `RdferText.ShortUri` | RDFerSolution/RDFer/RDFer.cs:905-922 | the loop returns the `(prefix, rest)` split of `ShortUriOf` |
| `RdferText.ShortUriExpands` | RDFerSolution/RDFer/RDFer.cs:905-922 | prefix URI + short form expands back to the value, or the prefix is empty and the value is kept |
| `RdferText.Without` | RDFerSolution/RDFer/RDFer.cs:881-901 | deleting a character set keeps exactly the other characters |
| `RdferText.SanitiseString` | RDFerSolution/RDFer/RDFer.cs:881-901 | the method returns `SanitiseStringOf` |
| `RdferText.SanitisedStringKeepsRest` | RDFerSolution/RDFer/RDFer.cs:881-901 | every deleted control character is gone and every other character survives |
| `RdferText.RemoveClosingBrackets` | RDFerSolution/RDFer/RDFer.cs:1174-1182 | unwrapping never lengthens the text |
| `RdferText.UnwrapWrapped` | RDFerSolution/RDFer/RDFer.cs:1174-1182 | `{p}` and `^p~` unwrap to p |
| `RdferText.BareTextKept` | RDFerSolution/RDFer/RDFer.cs:1174-1182 | text with no bracket at either end is unchanged |
| `RdferText.CloseAt` | RDFerSolution/RDFer/RDFer.cs:969-971 | the lazy `.*?` stops at the first closing character and never crosses a line feed |
| `RdferText.Placeholders` | RDFerSolution/RDFer/RDFer.cs:969-971 | every match is open + body + close |
| `RdferText.NoOpenNoPlaceholder` | RDFerSolution/RDFer/RDFer.cs:969-971 | text without the opening character has no match |
| `RdferText.ScanExamples` | RDFerSolution/RDFer/RDFer.cs:969-971 | "{a}-{b}" yields both placeholders, and "x^n~" yields "^n~" |
| `RdferText.MonthNumber` | RDFerSolution/RDFer/RDFer.cs:1184-1200 | a known month abbreviation maps to two digits |
| `RdferText.DateToInt` | RDFerSolution/RDFer/RDFer.cs:857-875 | "DD Mon YYYY" gives YYYYMMDD, or fails on an unknown month; other trimmed text ending in " BC" gives "-" and the text before it; other text of three or more characters gets "0000" appended; shorter text fails |
| `RdferText.FullDateShape` | RDFerSolution/RDFer/RDFer.cs:857-875 | a full date with a known month gives eight characters |
| `RdferText.FullDateExample` | RDFerSolution/RDFer/RDFer.cs:857-875 | "05 Mar 1999" gives "19990305" |
| `RdferText.ParseFormat` | RDFerSolution/RDFer/RDFer.cs:103-128 | each format name maps to its format, compared trimmed and lower-cased; no name yields N-Quads |
| `RdferText.NQuadsNameUnknown` | RDFerSolution/RDFer/RDFer.cs:103-128 | "nq" and "nquads" fall back to RDF/XML |
| `RdferValues.InternalCall` | RDFerSolution/RDFer/RDFer.cs:330-358 | only `counter_…` and `uniqueidentifier_…` are internal functions |
| `RdferValues.CounterCallReadsBack` | RDFerSolution/RDFer/RDFer.cs:334-345 | `counter_n` reads the counter's value as decimal text, which parses back, and fails when the counter is unknown |
| `RdferValues.IdentifierCallReads` | RDFerSolution/RDFer/RDFer.cs:346-356 | `uniqueidentifier_n` reads the identifier, and fails when it is unknown |
| `RdferValues.MatchNestedInternalFunctionCalls` | RDFerSolution/RDFer/RDFer.cs:1144-1156 | the loop returns `MatchNestedOf` |
| `RdferValues.UnbracketedIsSlice` | RDFerSolution/RDFer/RDFer.cs:1174-1182 | unwrapping returns a slice of the text |
| `RdferValues.NoCaretUnchanged` | RDFerSolution/RDFer/RDFer.cs:1144-1156 | text without '^' holds no nested call and is unchanged |
| `RdferValues.Kept` | RDFerSolution/RDFer/RDFer.cs:1131-1132 | a blank value is dropped, and any other value is kept with the prefix |
| `RdferValues.EmbeddedStep` | RDFerSolution/RDFer/RDFer.cs:987-1068 | one placeholder step: resolution errors propagate, and an internal call substitutes without marking a match |
| `RdferValues.CallsNeverMatch` | RDFerSolution/RDFer/RDFer.cs:1005-1009 | internal calls alone never set `matchedSomething`, so they yield no value |
| `RdferValues.WholeFrom` | RDFerSolution/RDFer/RDFer.cs:1111-1123 | the loop over selected nodes only appends, at most one value per node, each with the prefix |
| `RdferValues.Candidates` | RDFerSolution/RDFer/RDFer.cs:968-1133 | every candidate value starts with the prefix |
| `RdferValues.PlainCandidates` | RDFerSolution/RDFer/RDFer.cs:1127-1133 | a value without placeholders gives at most one value, and without a modifier it is kept as written |
| `RdferValues.EmbeddedCandidates` | RDFerSolution/RDFer/RDFer.cs:984-1076 | several placeholders give at most one value, only when something matched |
| `RdferValues.WholeCandidates` | RDFerSolution/RDFer/RDFer.cs:1078-1125 | a whole `{path}` gives prefixed values |
| `RdferValues.GetValuesOf` | RDFerSolution/RDFer/RDFer.cs:955-1142 | a missing attribute fails (missing-attribute error when `min > 0`, null dereference otherwise); a result has between min and max values, each starting with the prefix |
| `RdferValues.NodeTexts` | RDFerSolution/RDFer/RDFer.cs:1111-1123 | at most one text per node |
| `RdferValues.WholeIsNodeTexts` | RDFerSolution/RDFer/RDFer.cs:1111-1123 | without a modifier, `{p}` yields the prefixed non-blank inner texts of the selected nodes, in order |
| `RdferValues.WholePathValues` | RDFerSolution/RDFer/RDFer.cs:1093-1124 | a `{p}` over a node set gives its node texts; any other XPath result is an error |
| `RdferValues.WholeOfBracketed` | RDFerSolution/RDFer/RDFer.cs:1093-1124 | the same at the whole-value branch |
| `RdferValues.WholeOfPath` | RDFerSolution/RDFer/RDFer.cs:1093-1124 | the whole-value branch runs the node loop over the selected nodes |
| `RdferValues.WholePlaceholders` | RDFerSolution/RDFer/RDFer.cs:969-984 | `{p}` is a single placeholder, so it takes the whole-value branch |
| `RdferValues.GetValues` | RDFerSolution/RDFer/RDFer.cs:955-1142 | the method returns `GetValuesOf` |
| `RdferValues.EmbeddedValues` | RDFerSolution/RDFer/RDFer.cs:984-1076 | the method returns `EmbeddedCandidates` |
| `RdferValues.EmbeddedLoop` | RDFerSolution/RDFer/RDFer.cs:987-1070 | the loop returns `EmbeddedFrom` |
| `RdferValues.ResolvePlaceholder` | RDFerSolution/RDFer/RDFer.cs:993-1068 | the loop body returns `EmbeddedStep` |
| `RdferValues.WholeValues` | RDFerSolution/RDFer/RDFer.cs:1078-1125 | the method returns `WholeCandidates` |
| `RdferConfig.Attr` | RDFerSolution/RDFer/RDFer.cs:215 | an attribute is present exactly when it is in the element's attribute map |
| `RdferConfig.NamedLikeLowerCased` | RDFerSolution/RDFer/RDFer.cs:1169 | a child is selected exactly when its name and the wanted name agree once both are lower-cased |
| `RdferConfig.ChildrenNamedMembers` | RDFerSolution/RDFer/RDFer.cs:1164-1173 | the selection holds exactly the children whose name is like the wanted one |
| `RdferConfig.ChildrenNamedStep` | RDFerSolution/RDFer/RDFer.cs:1167-1171 | each further child extends the selection at its end when its name is like the wanted one, and leaves it unchanged otherwise, so the order of the children is kept |
| `RdferConfig.GetChildren` | RDFerSolution/RDFer/RDFer.cs:1164-1173 | the loop returns `ChildrenNamed` |
| `RdferConfig.ChildrenNamedAreChildren` | RDFerSolution/RDFer/RDFer.cs:1164-1173 | a selected child is a structurally smaller child of the node |
| `RdferConfig.DispatchIgnoresCase` | RDFerSolution/RDFer/RDFer.cs:136-171 | tag names that differ only in case dispatch alike |
| `RdferConfig.NonElementsSkipped` | RDFerSolution/RDFer/RDFer.cs:136-148 | text and comment nodes, named "#text" and "#comment", are on the skip list |
| `RdferConfig.OtherNodesUnknown` | RDFerSolution/RDFer/RDFer.cs:136-171 | a CDATA section or significant whitespace selects no handler, so it is an unknown tag |
| `RdferConfig.NodeDispatchByName` | RDFerSolution/RDFer/RDFer.cs:134-171 | the per-kind dispatch the interpreter uses agrees with the dispatch on the node's name |
| `RdferConfig.ForeachAndCase` | RDFerSolution/RDFer/RDFer.cs:151-171 | `<foreach>` runs like `<mapping>`; `<case>` outside a switch is an unknown tag |
| `RdferConfig.ElementsByTagName` | RDFerSolution/RDFer/RDFer.cs:81 | every result is an element with that exact name |
| `RdferConfig.TagFilter` | RDFerSolution/RDFer/RDFer.cs:81 | keeps only elements with that exact name |
| `RdferConfig.FirstChildElement` | RDFerSolution/RDFer/RDFer.cs:70 | the found node is a child element with that name |
| `RdferConfig.FirstNamedMapping` | RDFerSolution/RDFer/RDFer.cs:394 | the first `namedmapping` with that name in document order |
| `RdferConfig.FindNamedMapping` | RDFerSolution/RDFer/RDFer.cs:394 | an odd number of apostrophes leaves a string literal open, and the lookup fails with the XPath error; an even, non-zero number lets the rest of the name act as XPath, and the result is whatever the configuration document selects for that expression; with no apostrophe the result is the first `namedmapping` directly under a `config`, in document order, with that name, and none exactly when there is no such element |
| `RdferConfig.Apostrophes` | RDFerSolution/RDFer/RDFer.cs:394 | the count is zero exactly when the name has no apostrophe, and never more than its length |
| `RdferConfig.InjectedName` | RDFerSolution/RDFer/RDFer.cs:394 | a name a + "' or '" + b + "'='" + b, such as "a' or '1'='1", has four apostrophes, so the lookup is whatever the injected expression selects and not a search by name |
| `RdferConfig.SelectNodes` | RDFerSolution/RDFer/RDFer.cs:416 | succeeds exactly when the XPath yields a node set, and returns those nodes |
| `RdferCommands.ErrorExit` | RDFerSolution/RDFer/RDFer.cs:210-230 | a missing message or an unreadable exit value fails; exit is requested exactly when exit parses as true |
| `RdferCommands.DirectionOf` | RDFerSolution/RDFer/RDFer.cs:243-249 | decrement exactly when iteration is "decrement", trimmed and case-insensitively |
| `RdferCommands.CounterCommandOf` | RDFerSolution/RDFer/RDFer.cs:231-266 | a missing name or an unparsable initial value fails; iterate="true" iterates; anything else resets to the initial value in the given direction |
| `RdferCommands.RunCounter` | RDFerSolution/RDFer/RDFer.cs:267-294 | iterating an unknown counter fails; iterating steps only that counter; a reset sets value and direction and keeps an existing initial value (0 for a new counter); other counters are untouched |
| `RdferCommands.ResetAddsCounter` | RDFerSolution/RDFer/RDFer.cs:276-288 | a reset of an unknown counter adds it with initial value 0 and the given value and direction |
| `RdferCommands.CounterValues` | RDFerSolution/RDFer/RDFer.cs:343 | the variables seen by values are the counters' current values |
| `RdferCommands.ResetReadsBack` | RDFerSolution/RDFer/RDFer.cs:282-288 | after a reset, `counter_n` reads the value set |
| `RdferCommands.IterateThenResetRestores` | RDFerSolution/RDFer/RDFer.cs:267-294 | iterating and then resetting to the old value and direction restores the counter |
| `RdferCommands.IdentifierCommandOf` | RDFerSolution/RDFer/RDFer.cs:296-312 | a missing name or an unparsable generate fails; generate="false" does nothing; otherwise the named identifier is generated |
| `RdferCommands.PredicateParts` | RDFerSolution/RDFer/RDFer.cs:688-690 | a predicate without ':' fails with index out of range; otherwise the first two colon-free parts |
| `RdferCommands.PredicatePartsOfJoined` | RDFerSolution/RDFer/RDFer.cs:688-690 | "p:n" splits back into p and n |
| `RdferCommands.IfRuns` | RDFerSolution/RDFer/RDFer.cs:525-574 | a node set runs when non-empty, a boolean when true, a string or number when it parses as true; any other result is an error |
| `RdferCommands.TrueIsNotBlank` | RDFerSolution/RDFer/RDFer.cs:544-547 | blank text never parses as true |
| `RdferCommands.TrueText` | RDFerSolution/RDFer/RDFer.cs:547 | text that parses as true contains a 't' and an 'r' |
| `RdferCommands.NumberNeverRunsIf` | RDFerSolution/RDFer/RDFer.cs:557-571 | a rendered number has no 'r', so a numeric `<if>` never runs |
| `RdferCommands.DefaultNamespacesUsable` | RDFerSolution/RDFer/RDFer.cs:93-102 | the defaults have distinct prefixes and include rdf |
| `RdferCommands.NamespaceEntry` | RDFerSolution/RDFer/RDFer.cs:189-198 | an entry needs both prefix and uri; a non-element child dereferences null |
| `RdferCommands.AddAbsent` | RDFerSolution/RDFer/RDFer.cs:200-201 | a new prefix is appended, and a known one is ignored |
| `RdferCommands.NamespacesExtend` | RDFerSolution/RDFer/RDFer.cs:181-209 | the table only grows, keeps distinct prefixes and never rebinds a prefix; without error, every entry's prefix is bound |
| `RdferCommands.AddAbsentKeeps` | RDFerSolution/RDFer/RDFer.cs:200-201 | adding keeps prefixes distinct and existing bindings, and binds the prefix |
| `RdferCommands.LookupInPrefix` | RDFerSolution/RDFer/RDFer.cs:200-201 | an extension with distinct prefixes resolves old prefixes as before |
| `RdferCommands.GetNamespacesOf` | RDFerSolution/RDFer/RDFer.cs:181-209 | a missing `<namespaces>` is an error, and otherwise its children are read |
| `RdferCommands.FileName` | RDFerSolution/RDFer/RDFer.cs:75 | the file name is a slash-free suffix of the path |
| `RdferCommands.OutputFileStem` | RDFerSolution/RDFer/RDFer.cs:76 | a file name without '.' fails; otherwise the stem before the last '.' |
| `RdferCommands.OutputFile` | RDFerSolution/RDFer/RDFer.cs:75-78 | the output file is the stem + ".rdf" under the output path |
| `RdfOutputs.Lookup` | RDFerSolution/RDFer/RdfOutput.cs:128 | a prefix resolves exactly when bound, to its URI |
| `RdfOutputs.LookupFindsEntry` | RDFerSolution/RDFer/RdfOutput.cs:128 | with distinct prefixes, each entry resolves to its own URI |
| `RdfOutputs.LowerCaseNameChars` | RDFerSolution/RDFer/RdfOutput.cs:158 | lower-case ASCII words, such as the fixed names rdf, type and resource, pass the XML name check |
| `RdfOutputs.NameCheck` | RDFerSolution/RDFer/RdfOutput.cs:128-131 | creating an element or attribute from a prefix and a local name succeeds exactly when both are XML names and the local name is not empty; an empty local name with a valid prefix is an argument error, and any other failure is a bad XML name |
| `RdfOutputs.SplitName` | RDFerSolution/RDFer/RdfOutput.cs:148 | a qualified name splits at its first ':' into a colon-free prefix and a non-empty local name that rebuild it; a colon first or last, or none, leaves the whole name as the local name |
| `RdfOutputs.QualifiedNameOfParts` | RDFerSolution/RDFer/RdfOutput.cs:148 | "p:l" with p free of ':' is accepted exactly when p and l are non-empty XML names; an empty part fails with the whole name as a bad XML name |
| `RdfOutputs.XmlnsNameOf` | RDFerSolution/RDFer/RdfOutput.cs:81 | `xmlns:p` is a valid attribute name exactly when p is a non-empty XML name |
| `RdfOutputs.FixedNamesValid` | RDFerSolution/RDFer/RdfOutput.cs:158 | rdf:type and rdf:resource pass the name check |
| `RdfOutputs.XmlnsFailure` | RDFerSolution/RDFer/RdfOutput.cs:78-82 | declaring every prefix fails exactly when some prefix is not declarable, and then with the exception of the first such prefix in table order |
| `RdfOutputs.ElementFailure` | RDFerSolution/RDFer/RdfOutput.cs:128 | creating the element fails exactly when the prefix is unbound (KeyNotFound, checked first) or `NameCheck` fails |
| `RdfOutputs.QualifiedElementFailure` | RDFerSolution/RDFer/RdfOutput.cs:148 | creating the element from "prefix:name" fails exactly when the prefix is unbound (KeyNotFound, checked first) or the qualified name is not accepted |
| `RdfOutputs.ObjectFailure` | RDFerSolution/RDFer/RdfOutput.cs:128-131 | the object triple fails exactly when the predicate element or the attribute fails, and the predicate element's failure comes first |
| `RdfOutputs.EntityLines` | RDFerSolution/RDFer/RdfOutput.cs:67-72 | one `<!ENTITY prefix "uri">` line per namespace, in order |
| `RdfOutputs.XmlnsDeclarations` | RDFerSolution/RDFer/RdfOutput.cs:77-82 | one `xmlns:prefix` attribute per namespace, in order |
| `RdfOutputs.BuildEntityLines` | RDFerSolution/RDFer/RdfOutput.cs:67-72 | the loop returns `EntityLines` |
| `RdfOutputs.BuildXmlnsDeclarations` | RDFerSolution/RDFer/RdfOutput.cs:78-82 | the loop returns `XmlnsDeclarations` |
| `RdfOutputs.WithoutNamed` | RDFerSolution/RDFer/RdfOutput.cs:98 | drops exactly the attributes with the same qualified name |
| `RdfOutputs.AppendAttribute` | RDFerSolution/RDFer/RdfOutput.cs:98 | `Attributes.Append` replaces a same-named attribute and puts the new one last |
| `RdfOutputs.PredicateObjectElement` | RDFerSolution/RDFer/RdfOutput.cs:126-145 | a childless element with no text and exactly one attribute, whose value is the plain object URI when there is no object prefix and otherwise an entity reference to the prefix followed by the URI; whether the names are valid is decided by `ObjectFailure` |
| `RdfOutputs.TypedLiteralElement` | RDFerSolution/RDFer/RdfOutput.cs:152-164 | an empty type gives an empty element; otherwise `rdf:datatype` and the literal; whether the names are valid is decided by `ElementFailure` |
| `RdfOutputs.LanguageLiteralElement` | RDFerSolution/RDFer/RdfOutput.cs:165-177 | an empty language gives an empty element; otherwise `xml:lang` and the literal; whether the names are valid is decided by `ElementFailure` |
| `RdfOutputs.NewestDetached` | RDFerSolution/RDFer/RdfOutput.cs:203-211 | a freshly created element belongs to no parent |
| `RdfOutputs.DetachedStays` | RDFerSolution/RDFer/RdfOutput.cs:203-211 | creating another element keeps a detached one detached |
| `RdfOutputs.AttachNew` | RDFerSolution/RDFer/RdfOutput.cs:144 | the new element goes last, and only the parent's child list changes |
| `RdfOutputs.AttachNewWellFormed` | RDFerSolution/RDFer/RdfOutput.cs:144 | attaching keeps the document a forest |
| `RdfOutputs.AttachAll` | RDFerSolution/RDFer/RdfOutput.cs:144 | attaching k elements adds k records |
| `RdfOutputs.AttachAllSnoc` | RDFerSolution/RDFer/RdfOutput.cs:144 | attaching one more is one more `AttachNew` |
| `RdfOutputs.AttachAllShape` | RDFerSolution/RDFer/RdfOutput.cs:144 | the elements land in order after the old ones as the parent's last children, and nothing else changes |
| `RdfOutputs.AttachAllWellFormed` | RDFerSolution/RDFer/RdfOutput.cs:144 | attaching childless elements keeps the document a forest |
| `RdfOutputs.ArenaExtendsTransitive` | RDFerSolution/RDFer/RdfOutput.cs:144 | growth of the document composes |
| `RdfOutputs.AdoptExtends` | RDFerSolution/RDFer/RdfOutput.cs:126-145 | appending new elements, with or without hanging one under an existing element, extends the document |
| `RdfOutputs.AttachAllExtends` | RDFerSolution/RDFer/RdfOutput.cs:144 | attaching only grows the document |
| `RdfOutputs.GraphIndex` | RDFerSolution/RDFer/RdfOutput.cs:229 | finds the graph with that URI, if any |
| `RdfOutputs.StoreAddExtendsOneGraph` | RDFerSolution/RDFer/RdfOutput.cs:229 | adding with merge keeps URIs distinct and extends only the graph with that URI |
| `RdfOutputs.GraphFormat` | RDFerSolution/RDFer/RdfOutput.cs:215-220 | named graphs force TriG unless the format is already TriG or N-Quads |
| `RdfOutputs.ExtensionsDistinct` | RDFerSolution/RDFer/RdfOutput.cs:340-361 | extensions are lower case and differ per format |
| `RdfOutputs.LastIndexOf` | RDFerSolution/RDFer/RDFer.cs:76 | the last position holding the character |
| `RdfOutputs.Combine` | RDFerSolution/RDFer/RdfOutput.cs:364 | the combined path ends with the file name |
| `RdfOutputs.LowerKeepsSuffix` | RDFerSolution/RDFer/RdfOutput.cs:363 | lower-casing keeps a lower-case suffix |
| `RdfOutputs.FilePathHasExtension` | RDFerSolution/RDFer/RdfOutput.cs:338-367 | the path ends in the format's extension, and asking again changes nothing |
| `RdfOutputs.FilePathEndsWithExtension` | RDFerSolution/RDFer/RdfOutput.cs:363-366 | the returned path ends, case-insensitively, in the extension |
| `RdfOutputs.BlankNodeElement` | RDFerSolution/RDFer/RdfOutput.cs:203-211 | a name that does not split at ':' into exactly two parts fails; an unbound prefix fails with KeyNotFound; a qualified name that is not an XML name fails with `QualifiedNameCheck`'s exception; otherwise a childless element with that qualified name in the prefix's namespace |
| `RdfOutputs.RdfOutput.constructor` | RDFerSolution/RDFer/RdfOutput.cs:50-55 | path, namespaces and format set, and a fresh document with entity lines and `xmlns` declarations; every prefix must be declarable (see "## Left out") |
| `RdfOutputs.RdfOutput.WithDefaultFormat` | RDFerSolution/RDFer/RdfOutput.cs:44-49 | as above, with format RDF/XML |
| `RdfOutputs.RdfOutput.InitialiseRdfOutput` | RDFerSolution/RDFer/RdfOutput.cs:56-85 | a new empty document with the entity lines and `xmlns` declarations of the namespaces, for a table whose prefixes are all declarable |
| `RdfOutputs.RdfOutput.SetNamespaces` | RDFerSolution/RDFer/RdfOutput.cs:87-90 | replaces the namespace table only |
| `RdfOutputs.RdfOutput.AddIdentifierForResource` | RDFerSolution/RDFer/RdfOutput.cs:92-99 | sets `rdf:about` (entity + URI) on that element only |
| `RdfOutputs.RdfOutput.AppendToRoot` | RDFerSolution/RDFer/RdfOutput.cs:104 | the element becomes the root's last child |
| `RdfOutputs.RdfOutput.AddResourceWithoutIdentifier` | RDFerSolution/RDFer/RdfOutput.cs:101-106 | appends an empty `rdf:Description` under the root and returns it |
| `RdfOutputs.RdfOutput.AddResourceWithIdentifier` | RDFerSolution/RDFer/RdfOutput.cs:108-119 | appends an `rdf:Description` with `rdf:about` under the root and returns it |
| `RdfOutputs.RdfOutput.AddResource` | RDFerSolution/RDFer/RdfOutput.cs:120-125 | appends an empty `rdf:Description` under the root and returns it |
| `RdfOutputs.RdfOutput.AppendNew` | RDFerSolution/RDFer/RdfOutput.cs:144 | attaches a new element under the parent |
| `RdfOutputs.RdfOutput.AddPredicateAndObject` | RDFerSolution/RDFer/RdfOutput.cs:126-145 | fails exactly when `ObjectFailure` does, with its exception and nothing changed: an unbound prefix or an invalid name, first for the predicate element, then for the attribute; otherwise the predicate element is attached under the subject, after its other children |
| `RdfOutputs.RdfOutput.AddPredicateAndLiteral` | RDFerSolution/RDFer/RdfOutput.cs:146-151 | fails exactly when `QualifiedElementFailure` of "prefix:name" does, with its exception and nothing changed; otherwise the element with that qualified name, the prefix's namespace and the literal as text is attached under the subject |
| `RdfOutputs.RdfOutput.AddPredicateAndLiteralWithType` | RDFerSolution/RDFer/RdfOutput.cs:152-164 | fails exactly when `ElementFailure` does, with its exception and nothing changed; otherwise exactly `TypedLiteralElement` of the predicate is attached under the subject |
| `RdfOutputs.RdfOutput.AddPredicateAndLiteralWithLanguage` | RDFerSolution/RDFer/RdfOutput.cs:165-177 | fails exactly when `ElementFailure` does, with its exception and nothing changed; otherwise exactly `LanguageLiteralElement` of the predicate is attached under the subject |
| `RdfOutputs.RdfOutput.AddPredicateAndLiteralWithXsdType` | RDFerSolution/RDFer/RdfOutput.cs:179-201 | fails with `ElementFailure`'s exception, and then with KeyNotFound for an unbound xsd, with nothing changed; otherwise attaches an element with no text carrying the literal in the attribute the type names, in the xsd namespace |
| `RdfOutputs.RdfOutput.AddBnode` | RDFerSolution/RDFer/RdfOutput.cs:203-211 | fails with `BlankNodeElement`'s error and nothing changed; otherwise appends that element unattached and returns its handle |
| `RdfOutputs.RdfOutput.AppendChild` | RDFerSolution/RDFer/RDFer.cs:787-788 | adds a detached element as the parent's last child |
| `RdfOutputs.RdfOutput.AddNamedGraphToCurrentNodes` | RDFerSolution/RDFer/RdfOutput.cs:213-233 | the format switches to TriG unless it is TriG or N-Quads; a relative URI fails before the store changes; otherwise the current document joins the graph with that URI and a fresh document starts |
| `RdfOutputs.RdfOutput.SealInto` | RDFerSolution/RDFer/RdfOutput.cs:223-232 | stores the current document under the URI and restarts the document |
| `Rdfer.Thrown` | RDFerSolution/RDFer/RDFer.cs:174-179 | an exception is logged exactly when the handler failed |
| `Rdfer.NamedChildIsElement` | RDFerSolution/RDFer/RDFer.cs:1164-1173 | a child selected by a name such as "identifier" is an element |
| `Rdfer.IdentifierOf` | RDFerSolution/RDFer/RDFer.cs:360-385 | a bad modifier fails; otherwise exactly one value is sanitised and shortened |
| `Rdfer.GetModifier` | RDFerSolution/RDFer/RDFer.cs:365-367 | the method returns `ModifierOf` |
| `Rdfer.NewGenerated` | RDFerSolution/RDFer/RDFer.cs:321-326 | a new identifier with that name, already generated |
| `Rdfer.ResolveIdentifier` | RDFerSolution/RDFer/RDFer.cs:365-384 | the method returns `IdentifierOf` |
| `Rdfer.ResourceIdentifier` | RDFerSolution/RDFer/RDFer.cs:460-494 | with exactly one `<identifier>` child its identifier is resolved; otherwise there is none |
| `Rdfer.IdentifierExpands` | RDFerSolution/RDFer/RDFer.cs:370-383 | with the intended slash collapse, a resolved identifier expands back to the sanitised value, which is made of URI characters |
| `Rdfer.ObjectElement` | RDFerSolution/RDFer/RDFer.cs:703-711 | a blank sanitised URI is skipped; otherwise an `rdf:resource` element |
| `Rdfer.LiteralElement` | RDFerSolution/RDFer/RDFer.cs:718-739 | an empty literal is skipped; a plain literal is the trimmed, sanitised text |
| `Rdfer.TripleElement` | RDFerSolution/RDFer/RDFer.cs:698-740 | an object or a literal element for the predicate |
| `Rdfer.TripleElements` | RDFerSolution/RDFer/RDFer.cs:698-740 | at most one element per value |
| `Rdfer.TripleElementsShape` | RDFerSolution/RDFer/RDFer.cs:698-740 | every element carries the predicate's name and namespace |
| `Rdfer.TripleElementsEmpty` | RDFerSolution/RDFer/RDFer.cs:698-740 | no element exactly when every value is skipped |
| `Rdfer.TripleElementsSnoc` | RDFerSolution/RDFer/RDFer.cs:701-712 | one more value adds its element, if any, at the end |
| `Rdfer.TripleElementsPrefix` | RDFerSolution/RDFer/RDFer.cs:701-712 | the elements of a prefix of the values are a prefix of the elements |
| `Rdfer.TypeElement` | RDFerSolution/RDFer/RDFer.cs:756-760 | an `rdf:type` element with one `rdf:resource` attribute |
| `Rdfer.TriplePlan` | RDFerSolution/RDFer/RDFer.cs:680-741 | a missing predicate fails; a predicate without ':' fails; otherwise the prefix, the local name and the elements of the values of object or value, each carrying the predicate's qualified name and namespace; whether those names can be created is `TripleFailure`, which `DoTriple` applies before attaching anything |
| `Rdfer.TripleFailure` | RDFerSolution/RDFer/RDFer.cs:710-738 | the exception the overload a `<triple>` selects throws for the predicate: an unbound prefix gives KeyNotFound |
| `Rdfer.TripleFailureOfName` | RDFerSolution/RDFer/RDFer.cs:710-738 | with rdf and the predicate prefix bound, every overload accepts the predicate exactly when its prefix and local name are XML names and the local name is not empty |
| `Rdfer.BadLocalNameFails` | RDFerSolution/RDFer/RDFer.cs:688-690 | a predicate "dc:" or "dc:" followed by a name holding a space splits into dc and an invalid local name, so every value of the `<triple>` fails whatever overload is used |
| `Rdfer.TypeFailure` | RDFerSolution/RDFer/RDFer.cs:756-760 | an `rdf:type` element never fails once rdf is bound |
| `Rdfer.TripleValues` | RDFerSolution/RDFer/RDFer.cs:685-717 | for every namespace table, fails exactly as `TriplePlan` does, and otherwise returns the prefix, the name, whether the values are objects (the object attribute is present) and the values whose elements `TriplePlan` gives |
| `Rdfer.TypePlan` | RDFerSolution/RDFer/RDFer.cs:749-767 | a missing value fails; otherwise one `rdf:type` element per value, at least one |
| `Rdfer.TypeElements` | RDFerSolution/RDFer/RDFer.cs:754-761 | one `rdf:type` element per value, in order |
| `Rdfer.AttachOutcome` | RDFerSolution/RDFer/RDFer.cs:710-739 | with no elements nothing happens; otherwise a missing subject fails with a null reference and an element failure fails with its exception, both leaving the document unchanged; otherwise all elements are attached under the subject in order |
| `Rdfer.Listed` | RDFerSolution/RDFer/RDFer.cs:704-705 | a skipped value contributes nothing |
| `Rdfer.AttachOutcomeSnoc` | RDFerSolution/RDFer/RDFer.cs:701-712 | the loop invariant step: one more element attaches after the others |
| `Rdfer.AttachOutcomeFirstFailure` | RDFerSolution/RDFer/RDFer.cs:701-712 | the first failing element stops the loop with its exception |
| `Rdfer.AttachOutcomeExtends` | RDFerSolution/RDFer/RDFer.cs:701-712 | a triple only grows the document |
| `Rdfer.NamedMappingOf` | RDFerSolution/RDFer/RDFer.cs:387-401 | a missing name fails; an odd apostrophe count fails with the XPath error; a lookup that finds nothing fails as an unknown mapping; otherwise the result is what `FindNamedMapping` found, and with no apostrophe that is a `namedmapping` with that name |
| `Rdfer.Selected` | RDFerSolution/RDFer/RDFer.cs:408-416 | a missing match fails; otherwise the node set of the unwrapped, call-expanded XPath |
| `Rdfer.IfCondition` | RDFerSolution/RDFer/RDFer.cs:514-523 | a missing match fails; otherwise the XPath result of the unwrapped, call-expanded match |
| `Rdfer.CaseMatches` | RDFerSolution/RDFer/RDFer.cs:612-618 | the method returns `CaseMatchOf` |
| `Rdfer.ValueRuns` | RDFerSolution/RDFer/RDFer.cs:631-651 | a value case runs at least once exactly when some switch value's inner text equals its value; with a break attribute it runs at most once; never more often than there are values |
| `Rdfer.ValueStep` | RDFerSolution/RDFer/RDFer.cs:634-648 | one step of the value loop: an equal value adds one run, and ends the switch when the case has a break attribute; any other value adds nothing |
| `Rdfer.ValueScanEnd` | RDFerSolution/RDFer/RDFer.cs:634-651 | when the value loop ends, the runs are exactly `ValueRuns` copies of the case, and the switch ends exactly when the case ran and has a break attribute |
| `Rdfer.CaseOutcomeOf` | RDFerSolution/RDFer/RDFer.cs:608-657 | a failing case runs nothing; only a case with match or value runs; a case that ends the switch ran and does not allow fall-through; only a value case without break runs more than once; a case that ran and goes on allows fall-through |
| `Rdfer.RunsOf` | RDFerSolution/RDFer/RDFer.cs:606-658 | every body that ran is one of the cases visited |
| `Rdfer.NoCaseRan` | RDFerSolution/RDFer/RDFer.cs:604-662 | no case body ran exactly when no visited case's condition held, which is when the default is considered |
| `Rdfer.Advance` | RDFerSolution/RDFer/RDFer.cs:606-658 | visiting one more case appends its outcome and its runs; the visits go on when it neither failed nor ended the switch, and otherwise end with its exception |
| `Rdfer.VisitedAll` | RDFerSolution/RDFer/RDFer.cs:606-658 | visiting every case without failure or break ends with no exception |
| `Rdfer.SwitchValuesOf` | RDFerSolution/RDFer/RDFer.cs:592-600 | without a match attribute there are no switch values (null); otherwise the nodes `Selected` gives, or its error |
| `Rdfer.ResourceNode.constructor` | RDFerSolution/RDFer/RDFer.cs:457 | a resource with its element and identifier flag |
| `Rdfer.RDFer.CounterTable` | RDFerSolution/RDFer/RDFer.cs:36 | the counters as a table whose values are the variables values read |
| `Rdfer.RDFer.constructor` | RDFerSolution/RDFer/RDFer.cs:41-61 | inputs stored; no output, no counters, no identifiers yet |
| `Rdfer.RDFer.DoError` | RDFerSolution/RDFer/RDFer.cs:210-230 | fails as `ErrorExit` says, throws when exit is true, and otherwise only logs |
| `Rdfer.RDFer.DoCounter` | RDFerSolution/RDFer/RDFer.cs:231-295 | the counter table becomes `RunCounter` of the command, or is unchanged on error |
| `Rdfer.RDFer.IterateNamed` | RDFerSolution/RDFer/RDFer.cs:267-271 | iterates the named counter |
| `Rdfer.RDFer.ResetNamed` | RDFerSolution/RDFer/RDFer.cs:272-294 | resets or creates the named counter |
| `Rdfer.RDFer.ResetExisting` | RDFerSolution/RDFer/RDFer.cs:276-283 | resets an existing counter in place |
| `Rdfer.RDFer.AddCounter` | RDFerSolution/RDFer/RDFer.cs:280-288 | adds a new counter with the given value and direction |
| `Rdfer.RDFer.NewCounter` | RDFerSolution/RDFer/RDFer.cs:280-283 | a new counter has the name, initial value 0, and the given value and direction |
| `Rdfer.RDFer.DoUniqueidentifier` | RDFerSolution/RDFer/RDFer.cs:296-328 | generates the named identifier from the next seed, or changes nothing |
| `Rdfer.RDFer.GenerateNamed` | RDFerSolution/RDFer/RDFer.cs:317-326 | regenerates an existing identifier |
| `Rdfer.RDFer.AddUniqueIdentifier` | RDFerSolution/RDFer/RDFer.cs:319-326 | adds and generates a new identifier |
| `Rdfer.RDFer.DoIdentifier` | RDFerSolution/RDFer/RDFer.cs:360-385 | marks the resource identified, then sets `rdf:about` from `IdentifierOf`, or leaves the document unchanged on error |
| `Rdfer.RDFer.DoUsenamedmapping` | RDFerSolution/RDFer/RDFer.cs:387-401 | fails as `NamedMappingOf` says, with the document unchanged; otherwise it fails only when the fuel is spent, and keeps the interpreter's invariants while the mapping runs |
| `Rdfer.RDFer.DoMapping` | RDFerSolution/RDFer/RDFer.cs:403-449 | a selection error is logged with the document unchanged; otherwise nothing is logged, and the interpreter's invariants hold after the pass over the selected nodes |
| `Rdfer.RDFer.MapDataNode` | RDFerSolution/RDFer/RDFer.cs:418-443 | one data node's pass keeps the interpreter's invariants and its subject |
| `Rdfer.RDFer.SealNamedGraph` | RDFerSolution/RDFer/RDFer.cs:430 | the format becomes `GraphFormat` of the old one; with an absolute URI the document so far is added to the store under that URI, and the current document restarts with no roots and fresh entity lines and `xmlns` declarations; otherwise the store and the current document are unchanged; the element records stay in both cases |
| `Rdfer.RDFer.DoResource` | RDFerSolution/RDFer/RDFer.cs:451-508 | a single `<identifier>` decides `rdf:about`; the description then runs its children |
| `Rdfer.RDFer.CreateDescription` | RDFerSolution/RDFer/RDFer.cs:491-498 | appends the description with or without `rdf:about` |
| `Rdfer.RDFer.DoIf` | RDFerSolution/RDFer/RDFer.cs:509-581 | a condition error is logged with the match flag and document unchanged; otherwise the body runs exactly when `IfRuns` |
| `Rdfer.RDFer.DoElse` | RDFerSolution/RDFer/RDFer.cs:582-586 | after a matched `<if>` nothing changes; otherwise the children run with the interpreter's invariants kept |
| `Rdfer.RDFer.DoSwitch` | RDFerSolution/RDFer/RDFer.cs:588-679 | an error selecting the switch values is logged and nothing runs; otherwise `SwitchDone`: the k-th case has the outcome `CaseOutcomeOf` gives with the variables then current, the visits stop at the first case that fails or ends the switch, a case error is logged and the default does not run, and otherwise the default runs exactly when no case body ran and there is one default, more than one being logged |
| `Rdfer.RDFer.SwitchOver` | RDFerSolution/RDFer/RDFer.cs:602-673 | the cases, then the default, end as `SwitchDone` says |
| `Rdfer.RDFer.VisitCase` | RDFerSolution/RDFer/RDFer.cs:606-658 | one case visited: its outcome is appended; the visits go on exactly when it neither failed nor ended the switch, and otherwise are over as `CasesDone` says |
| `Rdfer.RDFer.RunCases` | RDFerSolution/RDFer/RDFer.cs:604-658 | the visits of the cases end as `CasesDone` says, and `caseMatched` holds exactly when some case body ran |
| `Rdfer.RDFer.RunDefault` | RDFerSolution/RDFer/RDFer.cs:662-673 | more than one default is logged as an error and none runs; otherwise a single default runs, and without one nothing runs |
| `Rdfer.RDFer.RunCase` | RDFerSolution/RDFer/RDFer.cs:610-657 | the case's error, runs and stop are those of `CaseOutcomeOf` with the variables on entry: a match case fails with the path's error or runs once exactly when its path selects a node, a value case runs as `ValueRuns` says, a case with neither attribute fails |
| `Rdfer.RDFer.RunValueCase` | RDFerSolution/RDFer/RDFer.cs:631-651 | the loop runs the body `ValueRuns` times, matched exactly when it ran, and ends the switch exactly when it ran and the case has a break attribute |
| `Rdfer.RDFer.DoTriple` | RDFerSolution/RDFer/RDFer.cs:680-748 | fails as `TriplePlan` says with the document unchanged; otherwise the document and logged exception are `AttachOutcome` of its elements, where the element failure is `TripleFailure` of the predicate for the overload the attributes select |
| `Rdfer.RDFer.AttachObject` | RDFerSolution/RDFer/RDFer.cs:706-711 | an unknown predicate prefix fails with the document unchanged; otherwise the predicate element, with `rdf:resource` set to the shortened object, is attached under the subject |
| `Rdfer.RDFer.AddTripleElements` | RDFerSolution/RDFer/RDFer.cs:701-740 | the loop produces `AttachOutcome` of `TripleElements` |
| `Rdfer.RDFer.AddTripleElement` | RDFerSolution/RDFer/RDFer.cs:703-739 | a skipped value changes nothing; no subject dereferences null; an unbound prefix fails; otherwise the element is attached under the subject |
| `Rdfer.RDFer.AddObject` | RDFerSolution/RDFer/RDFer.cs:703-711 | the same for object values |
| `Rdfer.RDFer.AddLiteral` | RDFerSolution/RDFer/RDFer.cs:718-739 | the same for literal values |
| `Rdfer.RDFer.DoType` | RDFerSolution/RDFer/RDFer.cs:749-767 | fails as `TypePlan` says; otherwise `AttachOutcome` of the `rdf:type` elements, whose names never fail once rdf is bound (`TypeFailure`) |
| `Rdfer.RDFer.AddTypeElements` | RDFerSolution/RDFer/RDFer.cs:754-761 | the loop produces `AttachOutcome` of `TypeElements` |
| `Rdfer.RDFer.DoBnode` | RDFerSolution/RDFer/RDFer.cs:769-795 | a missing predicate or type fails with the document unchanged; otherwise the logged exception is `BnodeOutcome`'s: the predicate's `BlankNodeElement` error with nothing added, the type's error with the predicate element added unattached, or a null reference without a subject, and on failure the document is exactly `BnodeOutcome`'s; on success the document extends the linked blank node, whose children then run |
| `Rdfer.RDFer.BuildBnode` | RDFerSolution/RDFer/RDFer.cs:778-788 | the document and exception are exactly `BnodeOutcome` of the predicate and type elements: type nested under predicate, predicate under the subject, and the type element's handle returned |
| `Rdfer.RDFer.LinkBnode` | RDFerSolution/RDFer/RDFer.cs:787-788 | the document becomes `BnodeArena`: the type element goes under the predicate element, and that goes under the subject; with no subject the call fails with a null reference |
| `Rdfer.BnodeArena` | RDFerSolution/RDFer/RDFer.cs:786-787 | two records are added, the predicate holding the type as its only child; only the subject changes among the old records, gaining the predicate as its last child; the document only grows |
| `Rdfer.BnodeOutcome` | RDFerSolution/RDFer/RDFer.cs:782-787 | no exception exactly when both names are valid and there is a subject; a bad predicate name adds nothing, a bad type name adds the unattached predicate element, and otherwise the document is `BnodeArena`; it always extends the old document |
| `Rdfer.RDFer.BuildTypeBnode` | RDFerSolution/RDFer/RDFer.cs:784-787 | after the predicate element was created, the type element is created and linked, ending as `BnodeOutcome` says |
| `Rdfer.RDFer.RunBnodeChildren` | RDFerSolution/RDFer/RDFer.cs:783-788 | running the `<bnode>` children keeps the interpreter's invariants and the enclosing subject |
| `Rdfer.RDFer.Invoke` | RDFerSolution/RDFer/RDFer.cs:164-169 | only handlers without their own catch let an exception escape |
| `Rdfer.RDFer.InvokeEscaping` | RDFerSolution/RDFer/RDFer.cs:164-169 | `<identifier>` without a subject throws a null reference, is passed over when the subject is identified, and otherwise identifies the subject and lets `IdentifierOf`'s error escape with the document unchanged; `<usenamedmapping>` lets `NamedMappingOf`'s error escape with the document unchanged, and otherwise escapes only when the fuel is spent |
| `Rdfer.RDFer.InvokeCommand` | RDFerSolution/RDFer/RDFer.cs:164-169 | `<error>` escapes as `ErrorExit` says; `<counter>` changes the counters as `CounterEffect` says; `<uniqueidentifier>` binds the variables as `IdentifierEffect` says; the exception escaping is the handler's |
| `Rdfer.RDFer.InvokeCounter` | RDFerSolution/RDFer/RDFer.cs:164-169 | the counters become `RunCounter` of the command with no exception escaping, or stay as they were and the error escapes |
| `Rdfer.RDFer.InvokeUniqueidentifier` | RDFerSolution/RDFer/RDFer.cs:164-169 | the name is bound to the next generated identifier, drawing one seed, or the variables stay as they were and any error escapes |
| `Rdfer.RDFer.InvokeCatching` | RDFerSolution/RDFer/RDFer.cs:164-169 | handlers with their own catch let nothing escape and keep the interpreter's invariants |
| `Rdfer.NoneUnknownEach` | RDFerSolution/RDFer/RDFer.cs:134-171 | a walk that passed every child met no unknown tag |
| `Rdfer.RDFer.ExecChild` | RDFerSolution/RDFer/RDFer.cs:136-171 | one child: an error comes back only from a child that may end its siblings, and a child that comes back without one was not an unknown tag |
| `Rdfer.RDFer.ExecConfig` | RDFerSolution/RDFer/RDFer.cs:130-180 | without a logged exception no child was an unknown tag; a logged exception came from a child that may end its siblings |
| `Rdfer.RDFer.InitialiseNamespaces` | RDFerSolution/RDFer/RDFer.cs:93-102 | the table becomes owl, rdf, rdfs |
| `Rdfer.RDFer.GetNamespaces` | RDFerSolution/RDFer/RDFer.cs:181-209 | the loop produces `GetNamespacesOf` |
| `Rdfer.RDFer.Start` | RDFerSolution/RDFer/RDFer.cs:62-92 | namespaces are the defaults extended by the configuration; a data file without '.' fails before output; a prefix that cannot be declared as `xmlns:prefix` fails with `XmlnsFailure` before output; otherwise a fresh output is opened at the file path with the interpreter's namespaces |
| `Rdfer.RDFer.OpenAndRun` | RDFerSolution/RDFer/RDFer.cs:75-86 | opens a fresh output at the file path, sharing the interpreter's namespace table, and keeps the interpreter valid while the configuration runs |
| `Rdfer.RDFer.PrepareNamespaces` | RDFerSolution/RDFer/RDFer.cs:67-70 | defaults followed by the configuration's namespaces |
| `Rdfer.RDFer.OpenOutput` | RDFerSolution/RDFer/RDFer.cs:78 | creates the output at the given path |
| `Rdfer.RDFer.RunConfigs` | RDFerSolution/RDFer/RDFer.cs:81-86 | running the `config` elements, with no subject, keeps the interpreter's invariants and only grows the document |
| `SparqlExpressions.AsBoolean` | RDFerSolution/dotNetRdf/Query/Expressions/Conditional/AndExpression.cs:69 | the effective boolean value when the node has one; a null node throws a non-query exception, a node without a value a query exception |
| `SparqlExpressions.AsSafeBoolean` | RDFerSolution/dotNetRdf/Query/Expressions/Conditional/AndExpression.cs:85 | true exactly for a node whose effective boolean value is true |
| `SparqlExpressions.TryAnd` | RDFerSolution/dotNetRdf/Query/Expressions/Conditional/AndExpression.cs:67-80 | the try block gives a value exactly when the left operand is false, or it is true and the right one has a value; that value is true exactly when both are true; a left exception is passed on |
| `SparqlExpressions.AndOf` | RDFerSolution/dotNetRdf/Query/Expressions/Conditional/AndExpression.cs:64-102 | every value is a boolean node; a false left operand gives false; when the left one is not false, an exception from the right one escapes as it is; any other exception is a query exception |
| `SparqlExpressions.StrStartsValue` | RDFerSolution/dotNetRdf/Query/Expressions/Functions/Sparql/String/StrStartsFunction.cs:28-31 | STRSTARTS is the ordinal prefix test, character by character |
| `SparqlExpressions.StrEndsValue` | RDFerSolution/dotNetRdf/Query/Expressions/Functions/Sparql/String/StrEndsFunction.cs:28-31 | STRENDS is the ordinal suffix test, character by character |
| `SparqlExpressions.StringFunctionOf` | RDFerSolution/dotNetRdf/Query/Expressions/Functions/Sparql/String/StrStartsFunction.cs:28-31 | an operand's exception is passed on, the string's first; a value exactly when both operands are literals, and then the boolean node of the test on their texts; two values that are not both literals give a query exception |
| `SparqlExpressions.Evaluate` | RDFerSolution/dotNetRdf/Query/Expressions/Functions/Sparql/Boolean/IsBlankFunction.cs:27-38 | every expression but a leaf evaluates to a boolean node or throws; isBLANK throws exactly when its operand does |
| `SparqlExpressions.Type` | RDFerSolution/dotNetRdf/Query/Expressions/Conditional/AndExpression.cs:134-140 | AND, and only AND among the four, is a binary operator; the other three are functions |
| `SparqlExpressions.Functor` | RDFerSolution/dotNetRdf/Query/Expressions/Conditional/AndExpression.cs:145-151 | each of the four kinds has its own functor: "&&", ISBLANK, STRSTARTS, STRENDS |
| `SparqlExpressions.OperandText` | RDFerSolution/dotNetRdf/Query/Expressions/Conditional/AndExpression.cs:111-127 | a binary-operator operand of AND is its text in parentheses, any other operand its text alone |
| `SparqlExpressions.TextShape` | RDFerSolution/dotNetRdf/Query/Expressions/Conditional/AndExpression.cs:108-129 | the text of isBLANK, STRSTARTS and STRENDS is the keyword, "(", the operands' texts and ")"; AND's text joins its operands' texts with " && " |
| `SparqlExpressions.IsBlankValue` | RDFerSolution/dotNetRdf/Query/Expressions/Functions/Sparql/Boolean/IsBlankFunction.cs:27-38 | true exactly for a non-null blank node |
| `SparqlExpressions.StrStartsMeansPrefix` | RDFerSolution/dotNetRdf/Query/Expressions/Functions/Sparql/String/StrStartsFunction.cs:28-31 | STRSTARTS holds exactly when the argument is a prefix; the empty argument always holds |
| `SparqlExpressions.StrEndsMeansSuffix` | RDFerSolution/dotNetRdf/Query/Expressions/Functions/Sparql/String/StrEndsFunction.cs:28-31 | STRENDS holds exactly when the argument is a suffix; the empty argument always holds |
| `SparqlExpressions.Transform` | RDFerSolution/dotNetRdf/Query/Expressions/Conditional/AndExpression.cs:158-161 | transforming gives the same kind of expression over the transformed operands, in the same order |
| `SparqlExpressions.AndFollowsTruthTable` | RDFerSolution/dotNetRdf/Query/Expressions/Conditional/AndExpression.cs:64-100 | AND follows the three-valued truth table except in one case |
| `SparqlExpressions.AndSwallowsRightEbvError` | RDFerSolution/dotNetRdf/Query/Expressions/Conditional/AndExpression.cs:85-99 | the exception: a right operand without a boolean value, next to a non-false left operand, gives false where the table gives error |
| `SparqlExpressions.FalseLeftDecides` | RDFerSolution/dotNetRdf/Query/Expressions/Conditional/AndExpression.cs:64-100 | a false left operand gives false whatever the right does |
| `SparqlExpressions.TrueLeftDefers` | RDFerSolution/dotNetRdf/Query/Expressions/Conditional/AndExpression.cs:64-100 | a true left operand gives the right operand's value |
| `SparqlExpressions.ErrorLeftTrueRight` | RDFerSolution/dotNetRdf/Query/Expressions/Conditional/AndExpression.cs:85-99 | a left error next to a true right operand is rethrown, wrapped when it is not a query exception |
| `SparqlExpressions.AndGroupingVisible` | RDFerSolution/dotNetRdf/Query/Expressions/Conditional/AndExpression.cs:108-128 | nested ANDs are parenthesised, so both groupings render differently |
| `SparqlExpressions.IsBlankOfNull` | RDFerSolution/dotNetRdf/Query/Expressions/Functions/Sparql/Boolean/IsBlankFunction.cs:27-38 | a null operand gives false |
| `SparqlExpressions.TransformIdentityAndComposition` | RDFerSolution/dotNetRdf/Query/Expressions/Functions/Sparql/Boolean/IsBlankFunction.cs:76-79 | transforming with the identity is the identity, and two transforms compose |

## Left out

- I/O: reading the two input documents, console logging and stack traces,
  and `Dispose`'s writers (RDF/XML, TriG, Turtle, N-Triples, N3, N-Quads)
  are not modelled.
- `GetXmlDocumentAsGraph`, the RDF/XML parsing of the output document, is not
  modelled, nor are its exceptions (RdfOutput.cs:326, 333). A sealed graph
  is a snapshot of the document's element records.
- `RdfOutputs.RdfOutput.AddNamedGraphToCurrentNodes`: its iff covers only the
  named-graph URI's failure. The parse of the output document runs first in
  the source and can throw before that URI is read; see the line above.
- `GetNamespacesFromData`/`AddNamespaceFromNode`, the XPath namespace manager
  built from the data document, are not modelled. XPath evaluation is an
  oracle (`DataDocument.evaluate`) that is given the path.
- XPath itself, `double` parsing and rendering, MD5, `DateTime.Parse`,
  title casing and `Uri.IsAbsoluteUri` are outside the model. They appear as
  function values of a `Runtime` record, or as parameters.
- `GetCustomModifier` loads assemblies from a directory. The model takes the
  loaded libraries as a sequence of lookup functions. `MyModifier` is one of
  them.
- `Guid.NewGuid()` and `DateTime.Now.Ticks` are parameters (a `Seed`). The
  interpreter draws the n-th seed from a function it is given.
- Culture-sensitive string operations (`ToLower`, `StartsWith`, `EndsWith`,
  `Trim`) are modelled ordinally, with ASCII case mapping.
- Entity references in attribute values are values (`EntityThen(prefix,
  uri)`), not expanded text.
- `ExecConfig`'s recursion through the handlers is bounded by a `fuel`
  parameter. Running out of fuel is the `NestingTooDeep` error, which the
  source does not have.
- Which handlers catch their own exceptions is kept; the message texts are
  not.
- `HashSlots.ListSlot.WithCapacity`: requires a non-negative capacity. A
  negative capacity makes `List<T>` throw, and that throw is not modelled.
- `RdferText.CountStringOccurrences`: requires a non-empty pattern. The
  source would loop for ever on an empty one.
- `SparqlExpressions` evaluates deterministically. The second evaluation of
  the right operand in AND's catch block gives the same outcome as the first.
- `MyModifier.UnitToMilliUnit` and `SetToTitleCasingOfLabel` rely on `double`
  arithmetic and on culture title casing. They are applied through the
  `Runtime` record, with no property stated about them.
- The regular expression that looks for missing ampersands in
  `EntitiesToAccents` has no effect on the result, and is not modelled.
- `RdferConfig.ConfigNode`: processing instructions and entity-reference
  nodes are not modelled. Their names are their target or their entity's
  name, so one could select a handler and reach it with a node that has no
  attributes.
- `Program.cs` (command-line handling) and `XmlSplitter.cs` are not part of
  this model.
- `ResourceNode`'s own source file is not part of this model. Its two fields
  are taken from how `RDFer.cs` uses them.
- The walk through the configuration (`ExecConfig` and the handlers that
  call it back) is not traced child by child. The methods below state the
  interpreter's invariants (`Ready`, `Kept`: same output and namespace
  table, a document that only grows, the subject kept) and their own
  decisions, but not what the children they run add to the document.
- `Rdfer.RDFer.ExecConfig`: states which children could have ended the walk,
  not what each child's handler did.
- `Rdfer.RDFer.ExecChild`: states whether the child could end the walk, not
  what its handler did.
- `Rdfer.RDFer.DoUsenamedmapping`: does not state that the mapping's children
  run; only the interpreter's invariants are kept while they do.
- `Rdfer.RDFer.DoMapping`: does not state that the children run once per
  selected node, in order, with that node as context.
- `Rdfer.RDFer.MapDataNode`: does not state when the output is sealed into a
  named graph; that is `SealNamedGraph`'s contract.
- `Rdfer.RDFer.DoElse`: does not state that the children run when the flag is
  false.
- `Rdfer.RDFer.RunBnodeChildren`: does not state what the children add
  with the type element as their subject; only the interpreter's invariants
  and the enclosing subject are kept.
- `Rdfer.RDFer.InvokeCatching`: states only the interpreter's invariants;
  each handler's own contract says what it does.
- `Rdfer.RDFer.RunConfigs`: does not state that every `config` element runs,
  in document order.
- `SparqlExpressions.StringFunctionOf`: `BaseBinaryStringFunction` is not part
  of this model. Its argument checks are reduced to "both operands are
  literals"; `IsValidArgumentPair`'s checks of language tags and datatypes
  are left out.
- `MyModifiers.FirstDigitRun`: ASCII digits only. .NET's `\d` also matches
  the other Unicode decimal digits.
- `RdfOutputs.DirectoryName`, `RdfOutputs.FileStem` and
  `RdferCommands.FileName`: paths are separated by '/' only, and a relative
  path is not resolved against the working directory as `FileInfo` does.
- `RdfOutputs.NameChar`: uses the name-character ranges of section 2.3 of
  XML 1.0 (fifth edition) in place of .NET's own character tables. A
  character outside the Basic Multilingual Plane is one `char` here, and
  surrogate pairs are not modelled.
- The document type's internal subset (the `<!ENTITY>` lines) is kept as
  text and not parsed, so a prefix or a URI that the DTD parser would refuse
  is not modelled as failing.
- `CreateAttribute`'s check that reserves the `xmlns` prefix and the
  `xmlns` namespace URI is not modelled.
- `RdfOutputs.RdfOutput.constructor`, `RdfOutputs.RdfOutput.WithDefaultFormat`,
  `RdfOutputs.RdfOutput.InitialiseRdfOutput` and
  `RdfOutputs.RdfOutput.SetNamespaces`: require every prefix to be
  declarable as `xmlns:prefix`, where the source would throw from
  `SetAttribute`. `Rdfer.RDFer.Start` checks `XmlnsFailure` before creating
  the output and logs that exception, so the whole run still models the
  failure.

## Findings

| source | as written | input that shows it | evidently intended | confidence | as-written member | corrected member |
|---|---|---|---|---|---|---|
| RDFerSolution/RDFer/RDFer.cs:943 | `Regex.Replace(newValue, "([^:])//", "\\1/")`: .NET reads `\1` in a replacement text literally, so the match, with the character before the slashes, becomes `\1/` | `"a//b"` gives `\1/b` | `"$1/"`, keeping the character: `"a//b"` gives `"a/b"` | high; not executed | `RdferText.SlashReplacementLiteral` | `RdferText.SanitisedUriIsClean` |
