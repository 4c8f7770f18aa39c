# EnhancedSpigot, modelled in Dafny

EnhancedSpigot is a library for Minecraft server plugins. This project models the deterministic logic under its game-server glue and proves properties of that model. The logic covered here is:

- **Value types and text codecs.** `EnhancedTime` durations (`XdXhXmXs` parsing, `<key:extra>` rendering, ticks, equality). `SemanticVersion` parsing and ordering. `TextCase`. `PermissionUtil.getValueFromPermission`. The string fallback of `ConditionUtil`. The boolean, integer, enum and time parsers and converters.
- **Menus.** The 9-column grid geometry of `MenuContainer`. The page handling and the row-major and pattern fills of `PagedMenuContainer`. The container list, slot rendering and click lookup of `EnhancedMenu`. `ConfigMenuSettings` (rows clamp, slot lists). `MenuAction.parse`.
- **Commands.** `CommandPath`. The parts of `EnhancedCommand` that derive the command name, the permission nodes, the declared variants and the usage string, and its variant selection in `execute`. The plugin tag and group path of `CommandController`. The two converter/parser registries. `FilterContainer`.
- **Data.** `DataCache` over a key-value store. `MigrationController` over a version table. The `AsyncJob` priority order.
- **Registries.** `DependencyProvider` and `ConfigSerializerRegistry`.

How the model is built:

- Each source file becomes one module; the three menu classes, which refer to one another, share the module `Menus`.
- Objects whose fields the source updates are classes: the registries, `MenuContainer`, `PagedMenuContainer`, `EnhancedMenu`, `CommandPath`, `DataCache` and `MigrationController`. Their methods carry `modifies` clauses and state the whole new state.
- Code that loops becomes methods with loop invariants. Each such method is proved equal to a specification function, and the properties are lemmas about that function.
- Java semantics are written out where they matter:
  - 32-bit `int` wrap-around (`JavaInt.Wrap`, `i++` as `JavaInt.Increment`) and `Integer.parseInt` over ASCII digits;
  - `String.split` dropping trailing empty strings, and `replace` as one left-to-right pass;
  - ASCII case mapping;
  - exceptions as `Result`/`Status` values, and `null` returns as `Option`.
- Host objects are replaced by plain data:
  - a class is a name, a primitive flag or an enum's constants;
  - an item is an id with an air flag;
  - a sender is a player flag and a predicate on permission nodes;
  - parsers, converters, filters and the expression evaluator of `ConditionUtil` are parameters;
  - HashMap iteration order is a parameter or an arbitrary choice.

## Model

| member | source | states |
|---|---|---|
| ArgumentRegistry.Entries | EnhancedSpigot-Commands/src/main/java/dev/projectenhanced/enhancedspigot/command/parser/CommandArgumentRegistry.java:90-97 | registerParsers registers the parsers in the given order, each under the class of its own type argument |
| ArgumentRegistry.CommandArgumentRegistry.constructor | EnhancedSpigot-Commands/src/main/java/dev/projectenhanced/enhancedspigot/command/parser/CommandArgumentRegistry.java:49-61 | a new registry holds the twelve built-in parsers, registered in the constructor's order |
| ArgumentRegistry.CommandArgumentRegistry.RegisterParser | EnhancedSpigot-Commands/src/main/java/dev/projectenhanced/enhancedspigot/command/parser/CommandArgumentRegistry.java:74-81 | the class is bound to the parser, and so is the primitive type of a wrapper class; no other binding changes |
| ArgumentRegistry.CommandArgumentRegistry.RegisterParsers | EnhancedSpigot-Commands/src/main/java/dev/projectenhanced/enhancedspigot/command/parser/CommandArgumentRegistry.java:90-97 | the parsers are registered one after another, later ones overwriting earlier bindings |
| ArgumentRegistry.CommandArgumentRegistry.UnregisterParser | EnhancedSpigot-Commands/src/main/java/dev/projectenhanced/enhancedspigot/command/parser/CommandArgumentRegistry.java:127-129 | only the binding of that class is removed (a primitive alias stays) |
| ArgumentRegistry.CommandArgumentRegistry.GetParser | EnhancedSpigot-Commands/src/main/java/dev/projectenhanced/enhancedspigot/command/parser/CommandArgumentRegistry.java:138-140 | the bound parser, and null exactly when the class has none |
| ArgumentRegistry.CommandArgumentRegistry.CanConvert | EnhancedSpigot-Commands/src/main/java/dev/projectenhanced/enhancedspigot/command/parser/CommandArgumentRegistry.java:150-159 | an enum class goes to the enum parser; a non-enum class without a parser gives false; otherwise the bound parser's canConvert, whose only exception is the time parser's |
| ArgumentRegistry.CommandArgumentRegistry.Convert | EnhancedSpigot-Commands/src/main/java/dev/projectenhanced/enhancedspigot/command/parser/CommandArgumentRegistry.java:169-181 | an enum class goes to the enum parser; otherwise IllegalArgumentException when there is no parser or canConvert is false, canConvert's exception when it throws, and the bound parser's converted value when it is true |
| ArgumentRegistry.CommandArgumentRegistry.Complete | EnhancedSpigot-Commands/src/main/java/dev/projectenhanced/enhancedspigot/command/parser/CommandArgumentRegistry.java:191-203 | IllegalArgumentException exactly for a non-enum class without a parser; otherwise that parser's completions |
| ArgumentRegistry.FreshIntegerParser | EnhancedSpigot-Commands/src/main/java/dev/projectenhanced/enhancedspigot/command/parser/CommandArgumentRegistry.java:49-81 | a new registry parses both Integer and int with IntegerParser: no later built-in parser overwrites them |
| Classes.Lookup | EnhancedSpigot-Commands/src/main/java/dev/projectenhanced/enhancedspigot/command/parser/CommandArgumentRegistry.java:205-223 | a value is found exactly when some pair has the key, and the value is that pair's |
| Classes.GetPrimitive | EnhancedSpigot-Commands/src/main/java/dev/projectenhanced/enhancedspigot/command/parser/CommandArgumentRegistry.java:205-223 | a primitive type exactly for the eight wrapper classes, the one the table pairs with that wrapper |
| Classes.WithAlias | EnhancedSpigot-Commands/src/main/java/dev/projectenhanced/enhancedspigot/command/parser/CommandArgumentRegistry.java:74-81 | binds the class and its primitive counterpart to the object; the key set grows by just those; all other bindings are kept |
| Classes.IntegerIsBoxedInt | EnhancedSpigot-Commands/src/main/java/dev/projectenhanced/enhancedspigot/command/parser/CommandArgumentRegistry.java:211 | the primitive counterpart of Integer is int |
| Classes.OnlyIntegerBoxesInt | EnhancedSpigot-Commands/src/main/java/dev/projectenhanced/enhancedspigot/command/parser/CommandArgumentRegistry.java:205-223 | Integer is the only class whose primitive counterpart is int |
| Classes.RegisterAllAppend | EnhancedSpigot-Commands/src/main/java/dev/projectenhanced/enhancedspigot/command/parser/CommandArgumentRegistry.java:49-61 | registering two batches one after the other is registering their concatenation |
| Classes.RegisterAllKeeps | EnhancedSpigot-Commands/src/main/java/dev/projectenhanced/enhancedspigot/command/parser/CommandArgumentRegistry.java:90-97 | a binding that no later entry names, directly or as its primitive, survives the batch |
| Classes.AliasSurvivesRemoval | EnhancedSpigot-Commands/src/main/java/dev/projectenhanced/enhancedspigot/command/parser/CommandArgumentRegistry.java:127-129 | after registering a wrapper class and unregistering it, its primitive type is still bound to the same object |
| Booleans.Complete | EnhancedSpigot-Commands/src/main/java/dev/projectenhanced/enhancedspigot/command/parser/java/BooleanParser.java:40-44 | the completions are exactly the words among "true", "yes", "false", "no" that start with the argument, each once, in that order |
| Booleans.AcceptedWords | EnhancedSpigot-Commands/src/main/java/dev/projectenhanced/enhancedspigot/command/parser/java/BooleanParser.java:29-37 | a string is accepted iff its lower-casing is one of the four words, and it converts to true iff that word is "true" or "yes" |
| Booleans.AcceptedButFalse | EnhancedSpigot-Commons/src/main/java/dev/projectenhanced/enhancedspigot/common/converter/java/BooleanStringConverter.java:34-41 | an accepted string that does not convert to true reads "false" or "no", ignoring case |
| Booleans.RoundTrip | EnhancedSpigot-Commons/src/main/java/dev/projectenhanced/enhancedspigot/common/converter/java/BooleanStringConverter.java:29-41 | fromString(asString(b)) == b, and asString(b) is always accepted |
| Booleans.CompleteInOrder | EnhancedSpigot-Commands/src/main/java/dev/projectenhanced/enhancedspigot/command/parser/java/BooleanParser.java:40-44 | filtering the four words keeps "true", "yes", "false", "no" in that order, each exactly when it starts with the argument |
| Booleans.CompleteEmpty | EnhancedSpigot-Commons/src/main/java/dev/projectenhanced/enhancedspigot/common/converter/java/BooleanStringConverter.java:44-48 | completing the empty argument offers all four words |
| ConverterRegistry.Entries | EnhancedSpigot-Commons/src/main/java/dev/projectenhanced/enhancedspigot/common/converter/StringConverterRegistry.java:75-81 | registerConverters registers the converters in the given order, each under the class of its own type argument |
| ConverterRegistry.Effective | EnhancedSpigot-Commons/src/main/java/dev/projectenhanced/enhancedspigot/common/converter/StringConverterRegistry.java:103-105 | a new EnumStringConverter over the constants for an enum class; for any other class the bound converter, absent exactly when none is bound |
| ConverterRegistry.StringConverterRegistry.constructor | EnhancedSpigot-Commons/src/main/java/dev/projectenhanced/enhancedspigot/common/converter/StringConverterRegistry.java:39-47 | a new registry holds the eleven built-in converters, registered in the constructor's order |
| ConverterRegistry.StringConverterRegistry.RegisterConverter | EnhancedSpigot-Commons/src/main/java/dev/projectenhanced/enhancedspigot/common/converter/StringConverterRegistry.java:60-66 | the class is bound to the converter, and so is the primitive type of a wrapper class; no other binding changes |
| ConverterRegistry.StringConverterRegistry.RegisterConverters | EnhancedSpigot-Commons/src/main/java/dev/projectenhanced/enhancedspigot/common/converter/StringConverterRegistry.java:75-81 | the converters are registered one after another, later ones overwriting earlier bindings |
| ConverterRegistry.StringConverterRegistry.GetConverter | EnhancedSpigot-Commons/src/main/java/dev/projectenhanced/enhancedspigot/common/converter/StringConverterRegistry.java:90-92 | the bound converter, and null exactly when the class has none |
| ConverterRegistry.StringConverterRegistry.Convert | EnhancedSpigot-Commons/src/main/java/dev/projectenhanced/enhancedspigot/common/converter/StringConverterRegistry.java:118-128 | IllegalArgumentException unless canConvert holds; otherwise the effective converter's fromString |
| ConverterRegistry.StringConverterRegistry.Complete | EnhancedSpigot-Commons/src/main/java/dev/projectenhanced/enhancedspigot/common/converter/StringConverterRegistry.java:138-148 | IllegalArgumentException exactly for a non-enum class without a converter; otherwise the completions of the class's converter, or of the enum converter for an enum without one |
| ConverterRegistry.EnumConversion | EnhancedSpigot-Commons/src/main/java/dev/projectenhanced/enhancedspigot/common/converter/StringConverterRegistry.java:102-128 | for an enum class, the text converts iff its upper-casing names a constant, and it converts to that constant |
| ConverterRegistry.FreshBooleanConverter | EnhancedSpigot-Commons/src/main/java/dev/projectenhanced/enhancedspigot/common/converter/StringConverterRegistry.java:39-66 | a new registry converts both Boolean and boolean with BooleanStringConverter |
| ConverterRegistry.BooleanIsBoxedBoolean | EnhancedSpigot-Commons/src/main/java/dev/projectenhanced/enhancedspigot/common/converter/StringConverterRegistry.java:152 | the primitive counterpart of Boolean is boolean |
| ConverterRegistry.OnlyBooleanBoxesBoolean | EnhancedSpigot-Commons/src/main/java/dev/projectenhanced/enhancedspigot/common/converter/StringConverterRegistry.java:150-168 | Boolean is the only class whose primitive counterpart is boolean |
| EnumConverter.FromString | EnhancedSpigot-Commons/src/main/java/dev/projectenhanced/enhancedspigot/common/converter/custom/EnumStringConverter.java:37-39 | the constant named by the upper-cased text, and IllegalArgumentException exactly when no constant has that name |
| EnumConverter.Complete | EnhancedSpigot-Commons/src/main/java/dev/projectenhanced/enhancedspigot/common/converter/custom/EnumStringConverter.java:52-58 | each name a constant starting with the upper-cased argument, a prefix of all such names in declaration order, and exactly min(30, number of matches) of them: the first 30 matches |
| EnumConverter.CanConvertIff | EnhancedSpigot-Commons/src/main/java/dev/projectenhanced/enhancedspigot/common/converter/custom/EnumStringConverter.java:42-49 | canConvert holds exactly when the upper-cased text is the name of some constant |
| EnumConverter.RoundTrip | EnhancedSpigot-Commons/src/main/java/dev/projectenhanced/enhancedspigot/common/converter/custom/EnumStringConverter.java:32-39 | a constant with an upper-case name comes back from fromString(asString(c)) |
| EnumConverter.CaseInsensitive | EnhancedSpigot-Commons/src/main/java/dev/projectenhanced/enhancedspigot/common/converter/custom/EnumStringConverter.java:37-39 | a text and its upper-casing convert alike |
| EnumConverter.CompleteAllWhenFew | EnhancedSpigot-Commons/src/main/java/dev/projectenhanced/enhancedspigot/common/converter/custom/EnumStringConverter.java:52-58 | when at most 30 names match, every matching name is offered |
| IntegerParser.Convert | EnhancedSpigot-Commands/src/main/java/dev/projectenhanced/enhancedspigot/command/parser/java/IntegerParser.java:28-30 | a success is a 32-bit int from a nonempty text; every failure is a NumberFormatException |
| IntegerParser.Complete | EnhancedSpigot-Commands/src/main/java/dev/projectenhanced/enhancedspigot/command/parser/java/IntegerParser.java:43-45 | no suggestions, whatever the argument |
| IntegerParser.AcceptedForm | EnhancedSpigot-Commands/src/main/java/dev/projectenhanced/enhancedspigot/command/parser/java/IntegerParser.java:33-40 | canConvert holds exactly for digits, optionally after one sign, whose value fits in an int |
| IntegerParser.Rejected | EnhancedSpigot-Commands/src/main/java/dev/projectenhanced/enhancedspigot/command/parser/java/IntegerParser.java:33-40 | the empty text, a lone sign and any text holding a space are rejected |
| IntegerParser.ConvertToString | EnhancedSpigot-Commands/src/main/java/dev/projectenhanced/enhancedspigot/command/parser/java/IntegerParser.java:28-30 | every int comes back from convert(Integer.toString(n)) |
| IntegerParser.Overflow | EnhancedSpigot-Commands/src/main/java/dev/projectenhanced/enhancedspigot/command/parser/java/IntegerParser.java:33-40 | a numeral above Integer.MAX_VALUE, signed with + or not, is rejected rather than wrapped |
| TimeParser.Convert | EnhancedSpigot-Commands/src/main/java/dev/projectenhanced/enhancedspigot/command/parser/custom/TimeParser.java:29-31 | the time keeps the text and the milliseconds its parse gives; it fails only when that parse fails |
| TimeParser.CanConvert | EnhancedSpigot-Commands/src/main/java/dev/projectenhanced/enhancedspigot/command/parser/custom/TimeParser.java:34-37 | true for the placeholder in any case; otherwise whether the parsed duration is at least 1000 ms, with the parse's exception passed on |
| TimeParser.Complete | EnhancedSpigot-Commands/src/main/java/dev/projectenhanced/enhancedspigot/command/parser/custom/TimeParser.java:40-42 | the placeholder alone |
| TimeParser.NoDigitsRun | EnhancedSpigot-Commands/src/main/java/dev/projectenhanced/enhancedspigot/command/parser/custom/TimeParser.java:34-37 | a text without digits leaves the scan state untouched |
| TimeParser.PlaceholderIsZero | EnhancedSpigot-Commands/src/main/java/dev/projectenhanced/enhancedspigot/command/parser/custom/TimeParser.java:35 | the placeholder parses to zero milliseconds and is still accepted |
| TimeParser.NoDigitsRejected | EnhancedSpigot-Commands/src/main/java/dev/projectenhanced/enhancedspigot/command/parser/custom/TimeParser.java:34-37 | any other text without digits is rejected as shorter than a second |
| Time.ToMillis | EnhancedSpigot-Utils/src/main/java/dev/projectenhanced/enhancedspigot/util/time/EnhancedTime.java:66-114 | the loop over the characters returns what the scan specification gives, including the NumberFormatException of a number too large for an int |
| Time.TotalSeconds | EnhancedSpigot-Utils/src/main/java/dev/projectenhanced/enhancedspigot/util/time/EnhancedTime.java:109-111 | the three wrapping int additions that fold days into hours, hours into minutes and minutes into seconds end at the 32-bit wrap of the exact total of seconds |
| Time.DigitsAccumulate | EnhancedSpigot-Utils/src/main/java/dev/projectenhanced/enhancedspigot/util/time/EnhancedTime.java:74-85 | a run of digits only extends the pending numeral |
| Time.UnitAfterNumber | EnhancedSpigot-Utils/src/main/java/dev/projectenhanced/enhancedspigot/util/time/EnhancedTime.java:87-106 | a number before d, h, m or s sets that unit when it fits in an int, and throws NumberFormatException when it does not |
| Time.BareCharIgnored | EnhancedSpigot-Utils/src/main/java/dev/projectenhanced/enhancedspigot/util/time/EnhancedTime.java:87-89 | a non-digit with no pending digits is skipped |
| Time.OtherCharDiscards | EnhancedSpigot-Utils/src/main/java/dev/projectenhanced/enhancedspigot/util/time/EnhancedTime.java:91-106 | a non-digit that is not a unit letter drops the pending digits |
| Time.RepeatedUnitKeepsLast | EnhancedSpigot-Utils/src/main/java/dev/projectenhanced/enhancedspigot/util/time/EnhancedTime.java:91-106 | a unit written twice keeps the later value |
| Time.ScanCanonical | EnhancedSpigot-Utils/src/main/java/dev/projectenhanced/enhancedspigot/util/time/EnhancedTime.java:66-107 | scanning "XdXhXmXs" yields exactly the four numbers |
| Time.ParsedCanonical | EnhancedSpigot-Utils/src/main/java/dev/projectenhanced/enhancedspigot/util/time/EnhancedTime.java:109-113 | "XdXhXmXs" parses to 1000 times the int-wrapped total of seconds, and to the exact total when it fits in an int |
| Time.DaysWrapAround | EnhancedSpigot-Utils/src/main/java/dev/projectenhanced/enhancedspigot/util/time/EnhancedTime.java:109-113 | from 24856 to 49710 days, the int total of seconds wraps and the duration comes out negative |
| Time.Decompose | EnhancedSpigot-Utils/src/main/java/dev/projectenhanced/enhancedspigot/util/time/EnhancedTime.java:117-123 | hours, minutes and seconds lie in their ranges and recompose the int-narrowed whole seconds; for a non-negative time that fits, the days are non-negative and the parts sum to the seconds |
| Time.TokenFor | EnhancedSpigot-Utils/src/main/java/dev/projectenhanced/enhancedspigot/util/time/EnhancedTime.java:134-141 | a match of the key's token pattern at the head of the template spans part of it and names that key |
| Time.TokenAt | EnhancedSpigot-Utils/src/main/java/dev/projectenhanced/enhancedspigot/util/time/EnhancedTime.java:133-141 | a token at the head of the template is one of the four keys |
| Time.GetTicks | EnhancedSpigot-Utils/src/main/java/dev/projectenhanced/enhancedspigot/util/time/EnhancedTime.java:62-64 | a multiple of 20, namely 20 per whole second, the seconds truncated toward zero for both signs |
| Time.EqualsHashEqually | EnhancedSpigot-Utils/src/main/java/dev/projectenhanced/enhancedspigot/util/time/EnhancedTime.java:169-180 | two times that equals accepts, which compares the millis alone, have equal hash codes |
| Time.TokenForText | EnhancedSpigot-Utils/src/main/java/dev/projectenhanced/enhancedspigot/util/time/EnhancedTime.java:134-141 | a written token with a nonempty extra without '>' is matched in full |
| Time.OtherKeyNoToken | EnhancedSpigot-Utils/src/main/java/dev/projectenhanced/enhancedspigot/util/time/EnhancedTime.java:133-141 | a template starting with one key's token does not match another key's pattern |
| Time.RewriteToken | EnhancedSpigot-Utils/src/main/java/dev/projectenhanced/enhancedspigot/util/time/EnhancedTime.java:138-152 | a token is replaced by its value and extra text, or by nothing when the value is not positive, and the rewriting goes on after it |
| Time.RewriteFourTokens | EnhancedSpigot-Utils/src/main/java/dev/projectenhanced/enhancedspigot/util/time/EnhancedTime.java:131-157 | a template of the four tokens renders as the four pieces in order |
| Time.FormatTokens | EnhancedSpigot-Utils/src/main/java/dev/projectenhanced/enhancedspigot/util/time/EnhancedTime.java:183 | the default template is the four tokens with extras "d ", "h ", "m " and "s" |
| Time.TextRendering | EnhancedSpigot-Utils/src/main/java/dev/projectenhanced/enhancedspigot/util/time/EnhancedTime.java:160-162 | the text field lists each positive unit with its letter, or reads "now" when none is positive |
| Time.SubSecondIsNow | EnhancedSpigot-Utils/src/main/java/dev/projectenhanced/enhancedspigot/util/time/EnhancedTime.java:155-157 | a duration below one second renders as "now" |
| Time.ScanPiece | EnhancedSpigot-Utils/src/main/java/dev/projectenhanced/enhancedspigot/util/time/EnhancedTime.java:66-107 | parsing one rendered unit piece sets that unit to the value |
| Time.InputFormatTokens | EnhancedSpigot-Utils/src/main/java/dev/projectenhanced/enhancedspigot/util/time/EnhancedTime.java:43 | the input template is the four tokens with extras "d", "h", "m" and "s" |
| Time.ScanPieces | EnhancedSpigot-Utils/src/main/java/dev/projectenhanced/enhancedspigot/util/time/EnhancedTime.java:66-107 | parsing the rendered pieces of non-negative units gives those units back |
| Time.InputRendering | EnhancedSpigot-Utils/src/main/java/dev/projectenhanced/enhancedspigot/util/time/EnhancedTime.java:40-44 | the input field of a time made from millis is its four unit pieces in order |
| Time.MillisOfDecompose | EnhancedSpigot-Utils/src/main/java/dev/projectenhanced/enhancedspigot/util/time/EnhancedTime.java:109-123 | recomposing the decomposed units gives the millis rounded down to a whole second |
| Time.FromText | EnhancedSpigot-Utils/src/main/java/dev/projectenhanced/enhancedspigot/util/time/EnhancedTime.java:51-55 | the text constructor fails exactly when the parse does, with its exception; otherwise it keeps the text as its input, takes the parsed millis, and renders and compares like new EnhancedTime of those millis |
| Time.InputRoundTrip | EnhancedSpigot-Utils/src/main/java/dev/projectenhanced/enhancedspigot/util/time/EnhancedTime.java:40-55 | re-parsing the input of new EnhancedTime(millis) gives millis rounded down to a whole second, as long as the seconds fit in an int |
| Versions.Parse | EnhancedSpigot-Utils/src/main/java/dev/projectenhanced/enhancedspigot/util/SemanticVersion.java:41-58 | success exactly for two or three dot-separated parts that all parse as ints, with each field the value of its part and a missing patch 0; every failure is IllegalArgumentException |
| Versions.IsNewerThan | EnhancedSpigot-Utils/src/main/java/dev/projectenhanced/enhancedspigot/util/SemanticVersion.java:71-77 | strict lexicographic order on (major, minor, patch) |
| Versions.IsNewerOrEqual | EnhancedSpigot-Utils/src/main/java/dev/projectenhanced/enhancedspigot/util/SemanticVersion.java:85-87 | newer or equal holds exactly when the other version is not newer |
| Versions.IsNewerThanText | EnhancedSpigot-Utils/src/main/java/dev/projectenhanced/enhancedspigot/util/SemanticVersion.java:95-97 | defined exactly when the text parses, and then the comparison with the parsed version |
| Versions.IsNewerOrEqualText | EnhancedSpigot-Utils/src/main/java/dev/projectenhanced/enhancedspigot/util/SemanticVersion.java:105-107 | defined exactly when the text parses, and then the comparison with the parsed version |
| Versions.Trichotomy | EnhancedSpigot-Utils/src/main/java/dev/projectenhanced/enhancedspigot/util/SemanticVersion.java:71-77 | of a newer than b, b newer than a and a equal to b exactly one holds |
| Versions.Transitive | EnhancedSpigot-Utils/src/main/java/dev/projectenhanced/enhancedspigot/util/SemanticVersion.java:71-77 | newer than is transitive |
| Versions.TwoPartsHavePatchZero | EnhancedSpigot-Utils/src/main/java/dev/projectenhanced/enhancedspigot/util/SemanticVersion.java:44-46 | "A.B" parses as A.B.0 |
| Versions.ThreePartsRoundTrip | EnhancedSpigot-Utils/src/main/java/dev/projectenhanced/enhancedspigot/util/SemanticVersion.java:41-58 | the three numbers of a version written with dots parse back to that version |
| TextCase.UpperRun | EnhancedSpigot-Utils/src/main/java/dev/projectenhanced/enhancedspigot/util/TextCase.java:21 | the longest run of upper-case letters at the head of the text, which the regex's [A-Z]+ consumes |
| TextCase.SeparateIsInsert | EnhancedSpigot-Utils/src/main/java/dev/projectenhanced/enhancedspigot/util/TextCase.java:20-26 | the left-to-right regex rewriting puts the separator exactly after each lower-case letter that an upper-case letter follows |
| TextCase.KebabHasNoUpper | EnhancedSpigot-Utils/src/main/java/dev/projectenhanced/enhancedspigot/util/TextCase.java:20-26 | kebab case holds no upper-case letter |
| TextCase.KebabIdempotent | EnhancedSpigot-Utils/src/main/java/dev/projectenhanced/enhancedspigot/util/TextCase.java:20-26 | a text without capitals is left alone, so converting twice is converting once |
| TextCase.SnakeIsKebabWithUnderscore | EnhancedSpigot-Utils/src/main/java/dev/projectenhanced/enhancedspigot/util/TextCase.java:28-34 | for a text without '-', snake case is kebab case with '_' in place of '-' |
| TextCase.UpperRunGetsOneSeparator | EnhancedSpigot-Utils/src/main/java/dev/projectenhanced/enhancedspigot/util/TextCase.java:20-26 | "useSSL" becomes "use-ssl": one separator before a whole run of capitals |
| TextCase.CapitalAfterDigit | EnhancedSpigot-Utils/src/main/java/dev/projectenhanced/enhancedspigot/util/TextCase.java:20-26 | "a1B" becomes "a1b": a capital after a digit gets no separator |
| Permissions.GetValueFromPermission | EnhancedSpigot-Utils/src/main/java/dev/projectenhanced/enhancedspigot/util/PermissionUtil.java:37-57 | the loop's result is the default folded with the converted values of the granted permissions under the prefix, each replacing the running value only when it compares strictly greater |
| Permissions.CandidatesStep | EnhancedSpigot-Utils/src/main/java/dev/projectenhanced/enhancedspigot/util/PermissionUtil.java:40-51 | a permission is considered exactly when it is granted, starts with the prefix and its suffix converts |
| Permissions.NoCandidateGivesDefault | EnhancedSpigot-Utils/src/main/java/dev/projectenhanced/enhancedspigot/util/PermissionUtil.java:38-56 | with no granted permission under the prefix, the default is returned |
| Permissions.IgnoredEntries | EnhancedSpigot-Utils/src/main/java/dev/projectenhanced/enhancedspigot/util/PermissionUtil.java:41-51 | a permission that is not granted, lacks the prefix or has a suffix the converter rejects changes nothing |
| Permissions.ResultIsMaximum | EnhancedSpigot-Utils/src/main/java/dev/projectenhanced/enhancedspigot/util/PermissionUtil.java:53 | for a comparator ordering strictly, the result is the default or a greater candidate, and no candidate and not the default beats it |
| Permissions.TiesKeepDefault | EnhancedSpigot-Utils/src/main/java/dev/projectenhanced/enhancedspigot/util/PermissionUtil.java:53 | when no value beats the default strictly, the default is kept even if some value ties with it |
| Conditions.SpacesAreIgnored | EnhancedSpigot-Utils/src/main/java/dev/projectenhanced/enhancedspigot/util/ConditionUtil.java:26 | a condition and its text without spaces have the same outcome |
| Conditions.EvaluatorFirst | EnhancedSpigot-Utils/src/main/java/dev/projectenhanced/enhancedspigot/util/ConditionUtil.java:33-39 | the evaluator's answer decides whenever the evaluator does not throw; only then is the string comparison used |
| Conditions.TripleEqualsIsExact | EnhancedSpigot-Utils/src/main/java/dev/projectenhanced/enhancedspigot/util/ConditionUtil.java:43-46 | "a===b" with no '=' in a compares a and b exactly |
| Conditions.DoubleEqualsIgnoresCase | EnhancedSpigot-Utils/src/main/java/dev/projectenhanced/enhancedspigot/util/ConditionUtil.java:47-50 | "a==b" with no other '=' compares a and b ignoring case |
| Conditions.NoOperatorIsFalse | EnhancedSpigot-Utils/src/main/java/dev/projectenhanced/enhancedspigot/util/ConditionUtil.java:51 | without "==" the string comparison is false |
| Dependencies.DependencyProvider.constructor | EnhancedSpigot-Utils/src/main/java/dev/projectenhanced/enhancedspigot/util/DependencyProvider.java:28-30 | a new provider holds no bindings |
| Dependencies.DependencyProvider.Register | EnhancedSpigot-Utils/src/main/java/dev/projectenhanced/enhancedspigot/util/DependencyProvider.java:32-37 | the object is returned and bound under every listed class; every other class keeps its binding or its absence |
| Dependencies.DependencyProvider.RegisterOwn | EnhancedSpigot-Utils/src/main/java/dev/projectenhanced/enhancedspigot/util/DependencyProvider.java:39-41 | the object is returned and bound under its own runtime class alone |
| Dependencies.DependencyProvider.Provide | EnhancedSpigot-Utils/src/main/java/dev/projectenhanced/enhancedspigot/util/DependencyProvider.java:48-50 | the bound object, and null exactly for an unregistered class |
| Dependencies.DependencyProvider.VisitValues | EnhancedSpigot-Utils/src/main/java/dev/projectenhanced/enhancedspigot/util/DependencyProvider.java:52-66 | one pass over the values calls each selected object once per class it is bound under, in some order |
| Dependencies.DependencyProvider.ReloadAll | EnhancedSpigot-Utils/src/main/java/dev/projectenhanced/enhancedspigot/util/DependencyProvider.java:52-58 | reload() reaches every reloadable object once per class it is bound under, and nothing else |
| Dependencies.DependencyProvider.CloseAll | EnhancedSpigot-Utils/src/main/java/dev/projectenhanced/enhancedspigot/util/DependencyProvider.java:60-66 | close() reaches every closable object once per class it is bound under, and nothing else |
| Dependencies.BoundStep | EnhancedSpigot-Utils/src/main/java/dev/projectenhanced/enhancedspigot/util/DependencyProvider.java:53-57 | visiting one more binding adds one call exactly when that binding holds the object |
| Serializers.Defaults | EnhancedSpigot-Configs/src/main/java/dev/projectenhanced/enhancedspigot/config/serializer/ConfigSerializerRegistry.java:39-47 | a new registry binds World, Location, ItemStack, EnhancedTime and BigDecimal, none of them to the enum serializer |
| Serializers.SerializerFor | EnhancedSpigot-Configs/src/main/java/dev/projectenhanced/enhancedspigot/config/serializer/ConfigSerializerRegistry.java:75-80 | the exact binding when there is one; otherwise the enum serializer exactly for an enum class, and null for any other |
| Serializers.ConfigSerializerRegistry.constructor | EnhancedSpigot-Configs/src/main/java/dev/projectenhanced/enhancedspigot/config/serializer/ConfigSerializerRegistry.java:39-47 | a new registry holds the five default bindings |
| Serializers.ConfigSerializerRegistry.RegisterSerializer | EnhancedSpigot-Configs/src/main/java/dev/projectenhanced/enhancedspigot/config/serializer/ConfigSerializerRegistry.java:61-65 | the serializer is bound under every listed class; every other class keeps its binding or its absence |
| Serializers.FreshLookups | EnhancedSpigot-Configs/src/main/java/dev/projectenhanced/enhancedspigot/config/serializer/ConfigSerializerRegistry.java:39-80 | in a new registry an enum class gets the enum serializer, EnhancedTime its own, and an unlisted ordinary class nothing |
| Serializers.ExactBindingBeatsEnum | EnhancedSpigot-Configs/src/main/java/dev/projectenhanced/enhancedspigot/config/serializer/ConfigSerializerRegistry.java:76-78 | an exact binding wins over the enum fallback even for an enum class |
| Filters.FirstPass | EnhancedSpigot-Commons/src/main/java/dev/projectenhanced/enhancedspigot/common/filter/FilterContainer.java:71-79 | the index of the first passing OR filter: every earlier one fails, and the one there passes |
| Filters.PassFilters | EnhancedSpigot-Commons/src/main/java/dev/projectenhanced/enhancedspigot/common/filter/FilterContainer.java:65-91 | the result is empty on success and otherwise the message of the heaviest examined failure; the filters run are the OR filters up to the first passing one, then all AND filters |
| Filters.ScanOr | EnhancedSpigot-Commons/src/main/java/dev/projectenhanced/enhancedspigot/common/filter/FilterContainer.java:71-79 | the OR loop passes exactly when there are no OR filters or one passes, and records the heaviest failure before it |
| Filters.ScanAnd | EnhancedSpigot-Commons/src/main/java/dev/projectenhanced/enhancedspigot/common/filter/FilterContainer.java:81-86 | the AND loop passes exactly when every AND filter passes, runs them all, and records the heaviest failure so far |
| Filters.PickAllIsHeaviest | EnhancedSpigot-Commons/src/main/java/dev/projectenhanced/enhancedspigot/common/filter/FilterContainer.java:78-85 | the recorded failure is the first of maximal weight: no examined failure is heavier and every earlier one is strictly lighter |
| Filters.FailureHasCulprit | EnhancedSpigot-Commons/src/main/java/dev/projectenhanced/enhancedspigot/common/filter/FilterContainer.java:88-90 | whenever the filters fail, some failure is recorded, so the message lookup never meets null |
| Filters.EmptyIffPasses | EnhancedSpigot-Commons/src/main/java/dev/projectenhanced/enhancedspigot/common/filter/FilterContainer.java:88-90 | with non-empty messages, the result is empty exactly when the filters pass |
| Filters.EarlierOrFailureCounts | EnhancedSpigot-Commons/src/main/java/dev/projectenhanced/enhancedspigot/common/filter/FilterContainer.java:71-86 | an OR filter that failed before a later one passed still supplies the message when a lighter AND filter fails |
| MenuGrid.AsWrittenAcceptsOverflowingWidth | EnhancedSpigot-Menus/src/main/java/dev/projectenhanced/enhancedspigot/menu/container/MenuContainer.java:60-68 | the width check as written, in 32-bit arithmetic, accepts a box of width 2^31 - 1 at column 2 that does not fit the 9 columns |
| MenuGrid.AsWrittenWithoutOverflow | EnhancedSpigot-Menus/src/main/java/dev/projectenhanced/enhancedspigot/menu/container/MenuContainer.java:60-68 | when the sums do not overflow, the three constructor checks accept exactly the boxes inside the 9-column grid of the menu's rows |
| MenuGrid.SlotOfLoc | EnhancedSpigot-Menus/src/main/java/dev/projectenhanced/enhancedspigot/menu/container/MenuContainer.java:176-207 | converting any menu slot to a container location and back gives the same slot |
| MenuGrid.LocOfSlot | EnhancedSpigot-Menus/src/main/java/dev/projectenhanced/enhancedspigot/menu/container/MenuContainer.java:176-207 | a location inside a box that lies within the 9 columns survives the trip to a slot and back |
| MenuGrid.FittingBoxSlots | EnhancedSpigot-Menus/src/main/java/dev/projectenhanced/enhancedspigot/menu/container/MenuContainer.java:60-68 | every cell of an accepted box maps to a slot inside the menu's inventory, and back to the same cell |
| MenuGrid.FillCovers | EnhancedSpigot-Menus/src/main/java/dev/projectenhanced/enhancedspigot/menu/container/MenuContainer.java:143-149 | fill puts the item in every cell of the box and keeps every key outside the box as it was |
| MenuGrid.FillEmptyKeeps | EnhancedSpigot-Menus/src/main/java/dev/projectenhanced/enhancedspigot/menu/container/MenuContainer.java:156-167 | fillEmptySlots keeps every non-air item, gives the item to every empty or air cell of the box, and keeps keys outside the box |
| MenuGrid.PutLast | EnhancedSpigot-Menus/src/main/java/dev/projectenhanced/enhancedspigot/menu/container/PagedMenuContainer.java:213-214 | setItem on the last new page fails with IllegalArgumentException exactly outside the box; otherwise only that cell of the last page changes |
| MenuGrid.Advance | EnhancedSpigot-Menus/src/main/java/dev/projectenhanced/enhancedspigot/menu/container/PagedMenuContainer.java:157-172 | one do-while scan never loses pages, opens pages only up to the limit, and settles on an enabled pattern cell inside the box, or on (0, 0) |
| MenuGrid.Probe | EnhancedSpigot-Menus/src/main/java/dev/projectenhanced/enhancedspigot/menu/container/PagedMenuContainer.java:172 | the do-while condition keeps the page-count and landing-cell guarantees of the scan |
| MenuGrid.PatternLimitOverwrites | EnhancedSpigot-Menus/src/main/java/dev/projectenhanced/enhancedspigot/menu/container/PagedMenuContainer.java:163-175 | at the page limit the pattern fill breaks at (0, 0) and the next item overwrites that cell, while fillWithItems stops instead |
| DefaultLayout.MaxPages | EnhancedSpigot-Menus/src/main/java/dev/projectenhanced/enhancedspigot/menu/container/PagedMenuContainer.java:207 | the pages a fill may use are at least the limit and at least the first page |
| DefaultLayout.Placed | EnhancedSpigot-Menus/src/main/java/dev/projectenhanced/enhancedspigot/menu/container/PagedMenuContainer.java:199-212 | the number of items placed is all of them or exactly what the allowed pages hold, and never more |
| DefaultLayout.RowMajorPages | EnhancedSpigot-Menus/src/main/java/dev/projectenhanced/enhancedspigot/menu/container/PagedMenuContainer.java:199-217 | the row-major pages of the first n items: enough pages for them, page p holding items from p * capacity on |
| DefaultLayout.CellAtInBox | EnhancedSpigot-Menus/src/main/java/dev/projectenhanced/enhancedspigot/menu/container/PagedMenuContainer.java:199-217 | a row-major index below the capacity names a cell of the box, whose index is that number |
| DefaultLayout.CellIndexInBox | EnhancedSpigot-Menus/src/main/java/dev/projectenhanced/enhancedspigot/menu/container/PagedMenuContainer.java:199-217 | every cell of the box has a row-major index below the capacity, naming that cell |
| DefaultLayout.PageSettled | EnhancedSpigot-Menus/src/main/java/dev/projectenhanced/enhancedspigot/menu/container/PagedMenuContainer.java:199-217 | a page whose cells all come before item m is not changed by placing further items |
| DefaultLayout.PageUntouched | EnhancedSpigot-Menus/src/main/java/dev/projectenhanced/enhancedspigot/menu/container/PagedMenuContainer.java:193-194 | a page whose cells all come at or after item m still holds only air |
| DefaultLayout.PagePut | EnhancedSpigot-Menus/src/main/java/dev/projectenhanced/enhancedspigot/menu/container/PagedMenuContainer.java:213-214 | placing item m writes exactly its own cell of the page it belongs to |
| DefaultLayout.DefaultLayoutIsRowMajor | EnhancedSpigot-Menus/src/main/java/dev/projectenhanced/enhancedspigot/menu/container/PagedMenuContainer.java:229-231 | fillWithItems(items, pagesLimit) on a box of a menu lays out the items it has room for row by row, page after page, and drops the rest |
| DefaultLayout.RowMajorPlacement | EnhancedSpigot-Menus/src/main/java/dev/projectenhanced/enhancedspigot/menu/container/PagedMenuContainer.java:229-231 | item i lands on page i / (width * height), in the cell with row-major index i % (width * height) |
| DefaultLayout.LimitReached | EnhancedSpigot-Menus/src/main/java/dev/projectenhanced/enhancedspigot/menu/container/PagedMenuContainer.java:207-211 | when the page limit stops the loop, the last page is full |
| DefaultLayout.LayoutStops | EnhancedSpigot-Menus/src/main/java/dev/projectenhanced/enhancedspigot/menu/container/PagedMenuContainer.java:204-211 | a turn past the bottom row at the page limit ends the loop with the pages built so far |
| DefaultLayout.LayoutOpensPage | EnhancedSpigot-Menus/src/main/java/dev/projectenhanced/enhancedspigot/menu/container/PagedMenuContainer.java:204-214 | a turn past the bottom row under the limit opens a fresh page and puts the item in its corner |
| DefaultLayout.LayoutNextCell | EnhancedSpigot-Menus/src/main/java/dev/projectenhanced/enhancedspigot/menu/container/PagedMenuContainer.java:200-216 | any other turn writes the cell at the cursor, wrapped to the next row past the row's end, and moves one cell right |
| DefaultLayout.DefaultLayoutFrom | EnhancedSpigot-Menus/src/main/java/dev/projectenhanced/enhancedspigot/menu/container/PagedMenuContainer.java:199-217 | the induction over the items placed so far: the rest of the loop always ends in the row-major pages |
| Menus.MenuContainer.InMenu | EnhancedSpigot-Menus/src/main/java/dev/projectenhanced/enhancedspigot/menu/container/MenuContainer.java:51-71 | a container that passed the checks has the given box and is filled with air |
| Menus.MenuContainer.PageOf | EnhancedSpigot-Menus/src/main/java/dev/projectenhanced/enhancedspigot/menu/container/MenuContainer.java:78-88 | a page of a paged container takes the paged container's box and is filled with air |
| Menus.MenuContainer.SetItem | EnhancedSpigot-Menus/src/main/java/dev/projectenhanced/enhancedspigot/menu/container/MenuContainer.java:97-105 | outside the box it raises IllegalArgumentException and changes nothing; inside it changes that cell alone |
| Menus.MenuContainer.RemoveItem | EnhancedSpigot-Menus/src/main/java/dev/projectenhanced/enhancedspigot/menu/container/MenuContainer.java:113-115 | exactly that key is removed, with no bounds check |
| Menus.MenuContainer.GetItem | EnhancedSpigot-Menus/src/main/java/dev/projectenhanced/enhancedspigot/menu/container/MenuContainer.java:123-136 | the item stored at the location, or None when the location holds nothing |
| Menus.MenuContainer.Fill | EnhancedSpigot-Menus/src/main/java/dev/projectenhanced/enhancedspigot/menu/container/MenuContainer.java:143-149 | the new items are those of fill: every cell of the box holds the item, the rest is kept |
| Menus.MenuContainer.FillEmptySlots | EnhancedSpigot-Menus/src/main/java/dev/projectenhanced/enhancedspigot/menu/container/MenuContainer.java:156-167 | the new items are those of fillEmptySlots: only empty or air cells get the item |
| Menus.MenuContainer.FillCells | EnhancedSpigot-Menus/src/main/java/dev/projectenhanced/enhancedspigot/menu/container/MenuContainer.java:143-167 | the nested column and row loops leave exactly the filled map, keeping the keys inside the box |
| Menus.MenuContainer.FillColumn | EnhancedSpigot-Menus/src/main/java/dev/projectenhanced/enhancedspigot/menu/container/MenuContainer.java:145-147 | the row loop of one column extends the fill from the columns before it to that whole column, in both fill and fillEmptySlots |
| Menus.MenuContainer.FillCell | EnhancedSpigot-Menus/src/main/java/dev/projectenhanced/enhancedspigot/menu/container/MenuContainer.java:159-164 | one cell gets the item unless only empty cells are wanted and it holds a non-air item, and no other cell changes |
| Menus.NewMenuContainer | EnhancedSpigot-Menus/src/main/java/dev/projectenhanced/enhancedspigot/menu/container/MenuContainer.java:51-71 | the intended box check: IllegalArgumentException exactly when the box does not fit the menu; otherwise a fresh container of that box, full of air (the check as written wraps, see Findings) |
| Menus.FirstCover | EnhancedSpigot-Menus/src/main/java/dev/projectenhanced/enhancedspigot/menu/EnhancedMenu.java:134-150 | the index of the first container whose rectangle holds the cell, none before it doing so, or the count of containers when none does |
| Menus.FirstCoverAt | EnhancedSpigot-Menus/src/main/java/dev/projectenhanced/enhancedspigot/menu/EnhancedMenu.java:134-150 | the first covering index is the one with no covering container before it |
| Menus.LastHolder | EnhancedSpigot-Menus/src/main/java/dev/projectenhanced/enhancedspigot/menu/EnhancedMenu.java:155-168 | the index of the last container holding an item for the slot, none after it doing so, or -1 |
| Menus.RenderLastWins | EnhancedSpigot-Menus/src/main/java/dev/projectenhanced/enhancedspigot/menu/EnhancedMenu.java:155-168 | after update a slot shows the item of the last container that holds it, and keeps its old content when none does |
| Menus.EnhancedMenu.constructor | EnhancedSpigot-Menus/src/main/java/dev/projectenhanced/enhancedspigot/menu/EnhancedMenu.java:58-71 | a menu of rows * 9 empty slots and no containers |
| Menus.EnhancedMenu.AddContainer | EnhancedSpigot-Menus/src/main/java/dev/projectenhanced/enhancedspigot/menu/EnhancedMenu.java:86-93 | a container of another menu raises IllegalArgumentException and changes nothing; otherwise it is appended and the inventory redrawn |
| Collections.RemoveFirst | EnhancedSpigot-Menus/src/main/java/dev/projectenhanced/enhancedspigot/menu/EnhancedMenu.java:101 | List.remove(Object): unchanged when the element is absent, otherwise exactly the first occurrence is dropped |
| Menus.EnhancedMenu.RemoveContainer | EnhancedSpigot-Menus/src/main/java/dev/projectenhanced/enhancedspigot/menu/EnhancedMenu.java:100-103 | the first occurrence is removed and the inventory is redrawn from the remaining containers |
| Menus.EnhancedMenu.ResetContainers | EnhancedSpigot-Menus/src/main/java/dev/projectenhanced/enhancedspigot/menu/EnhancedMenu.java:108-111 | no containers remain and the inventory is left as it was |
| Menus.EnhancedMenu.Update | EnhancedSpigot-Menus/src/main/java/dev/projectenhanced/enhancedspigot/menu/EnhancedMenu.java:155-168 | the slot loop leaves the inventory drawn from every container in order |
| Menus.EnhancedMenu.DrawContainer | EnhancedSpigot-Menus/src/main/java/dev/projectenhanced/enhancedspigot/menu/EnhancedMenu.java:157-166 | writing one container leaves the inventory as drawing that container's items at their menu slots over the old contents, every other slot unchanged |
| Menus.EnhancedMenu.GetContainerAt | EnhancedSpigot-Menus/src/main/java/dev/projectenhanced/enhancedspigot/menu/EnhancedMenu.java:134-150 | the first container whose rectangle holds the slot's column and row, or None when there is none |
| Menus.EnhancedMenu.ClickedItem | EnhancedSpigot-Menus/src/main/java/dev/projectenhanced/enhancedspigot/menu/EnhancedMenu.java:199-224 | a click goes to the item at the slot's location in that first container, or to nothing |
| Menus.NewMenu | EnhancedSpigot-Menus/src/main/java/dev/projectenhanced/enhancedspigot/menu/EnhancedMenu.java:58-71 | IllegalArgumentException exactly when rows is outside 1..6; otherwise a fresh empty menu |
| Menus.PagedMenuContainer.constructor | EnhancedSpigot-Menus/src/main/java/dev/projectenhanced/enhancedspigot/menu/container/PagedMenuContainer.java:44-48 | the box of the container, filled with air, with no pages and page 0 |
| Menus.PagedMenuContainer.Update | EnhancedSpigot-Menus/src/main/java/dev/projectenhanced/enhancedspigot/menu/container/PagedMenuContainer.java:93-101 | a page index inside the pages shows that page's items and redraws the menu; otherwise IndexOutOfBounds after clearing the items |
| Menus.PagedMenuContainer.AddPage | EnhancedSpigot-Menus/src/main/java/dev/projectenhanced/enhancedspigot/menu/container/PagedMenuContainer.java:55-65 | a page of another container raises IllegalStateException and changes nothing; otherwise it is appended and the first page added is shown |
| Menus.PagedMenuContainer.RemovePage | EnhancedSpigot-Menus/src/main/java/dev/projectenhanced/enhancedspigot/menu/container/PagedMenuContainer.java:72-80 | the first occurrence is removed and an index past the end moves to the last page, or 0 |
| Menus.PagedMenuContainer.ClearPages | EnhancedSpigot-Menus/src/main/java/dev/projectenhanced/enhancedspigot/menu/container/PagedMenuContainer.java:85-88 | no pages and page 0 |
| Menus.PagedMenuContainer.SetPage | EnhancedSpigot-Menus/src/main/java/dev/projectenhanced/enhancedspigot/menu/container/PagedMenuContainer.java:108-111 | the index is set without a check, and update shows it or raises IndexOutOfBounds |
| Menus.PagedMenuContainer.PreviousPage | EnhancedSpigot-Menus/src/main/java/dev/projectenhanced/enhancedspigot/menu/container/PagedMenuContainer.java:116-120 | moves one page back only from a page after the first; otherwise nothing changes |
| Menus.PagedMenuContainer.NextPage | EnhancedSpigot-Menus/src/main/java/dev/projectenhanced/enhancedspigot/menu/container/PagedMenuContainer.java:125-129 | moves one page on only from a page before the last; otherwise nothing changes |
| Menus.PagedMenuContainer.FillWithItems | EnhancedSpigot-Menus/src/main/java/dev/projectenhanced/enhancedspigot/menu/container/PagedMenuContainer.java:191-220 | the new pages hold exactly the layout of the loop and the first is shown, or the exception setItem raised leaves no pages |
| Menus.PagedMenuContainer.FillWithItemsCorner | EnhancedSpigot-Menus/src/main/java/dev/projectenhanced/enhancedspigot/menu/container/PagedMenuContainer.java:229-231 | fillWithItems from the corner, one cell at a time |
| Menus.PagedMenuContainer.FillWithItemsAll | EnhancedSpigot-Menus/src/main/java/dev/projectenhanced/enhancedspigot/menu/container/PagedMenuContainer.java:239-241 | fillWithItems with no page limit but Integer.MAX_VALUE |
| Menus.PagedMenuContainer.FillPatternWithItems | EnhancedSpigot-Menus/src/main/java/dev/projectenhanced/enhancedspigot/menu/container/PagedMenuContainer.java:148-179 | the new pages hold exactly the pattern layout and the first is shown, or a pattern index exception leaves no pages |
| Menus.PagedMenuContainer.FillPatternWithItemsAll | EnhancedSpigot-Menus/src/main/java/dev/projectenhanced/enhancedspigot/menu/container/PagedMenuContainer.java:137-139 | fillPatternWithItems with no page limit but Integer.MAX_VALUE |
| Menus.PagedMenuContainer.BuildPatternPages | EnhancedSpigot-Menus/src/main/java/dev/projectenhanced/enhancedspigot/menu/container/PagedMenuContainer.java:149-176 | the item loop builds fresh pages holding the pattern layout, or fails with its exception |
| Menus.PagedMenuContainer.Seek | EnhancedSpigot-Menus/src/main/java/dev/projectenhanced/enhancedspigot/menu/container/PagedMenuContainer.java:157-172 | the do-while scan ends where the pattern scan says, having opened fresh air pages for the pages it counted |
| Menus.PagedMenuContainer.SeekStep | EnhancedSpigot-Menus/src/main/java/dev/projectenhanced/enhancedspigot/menu/container/PagedMenuContainer.java:158-171 | one pass of the do-while either stops where the pattern scan stops (the IndexOutOfBounds of reading a row the pattern lacks, or the position and page count it gives) or reaches a state the scan continues from unchanged, appending at most one fresh air page and always making progress |
| Menus.PagedMenuContainer.BuildPages | EnhancedSpigot-Menus/src/main/java/dev/projectenhanced/enhancedspigot/menu/container/PagedMenuContainer.java:192-217 | the item loop builds fresh pages holding the layout, or fails with its exception |
| Menus.PagedMenuContainer.AddPages | EnhancedSpigot-Menus/src/main/java/dev/projectenhanced/enhancedspigot/menu/container/PagedMenuContainer.java:219 | adding the new pages to an empty container keeps them all in order and shows the first |
| Menus.NewPaged | EnhancedSpigot-Menus/src/main/java/dev/projectenhanced/enhancedspigot/menu/container/PagedMenuContainer.java:44-48 | the intended box check, reached through the MenuContainer constructor: IllegalArgumentException exactly when the box does not fit; otherwise a fresh paged container with no pages (the check as written wraps, see Findings) |
| MenuSettings.GetRows | EnhancedSpigot-Menus/src/main/java/dev/projectenhanced/enhancedspigot/menu/impl/menu/config/ConfigMenuSettings.java:52-54 | the configured rows clamped into 1..6: kept inside, 6 above, 1 below |
| MenuSettings.ParseSlots | EnhancedSpigot-Menus/src/main/java/dev/projectenhanced/enhancedspigot/menu/impl/menu/config/ConfigMenuSettings.java:99-125 | the loop returns exactly the slot list of the text, or NumberFormat |
| MenuSettings.ParseElement | EnhancedSpigot-Menus/src/main/java/dev/projectenhanced/enhancedspigot/menu/impl/menu/config/ConfigMenuSettings.java:105-121 | one comma-separated element gives exactly its slots: the counted-up range between its bounds in either order, a single number, or NumberFormat |
| MenuSettings.AsWrittenRangeToMaxNeverEnds | EnhancedSpigot-Menus/src/main/java/dev/projectenhanced/enhancedspigot/menu/impl/menu/config/ConfigMenuSettings.java:116-118 | as written, a range up to Integer.MAX_VALUE adds a slot on every pass, however many, and the slot after Integer.MAX_VALUE is Integer.MIN_VALUE |
| MenuSettings.CountUp | EnhancedSpigot-Menus/src/main/java/dev/projectenhanced/enhancedspigot/menu/impl/menu/config/ConfigMenuSettings.java:116-118 | counting up from the first bound to the second collects exactly the ascending range between them |
| MenuSettings.FailingElement | EnhancedSpigot-Menus/src/main/java/dev/projectenhanced/enhancedspigot/menu/impl/menu/config/ConfigMenuSettings.java:104-121 | one element that does not parse makes the whole list fail with NumberFormat |
| MenuSettings.OnlyNumberFormat | EnhancedSpigot-Menus/src/main/java/dev/projectenhanced/enhancedspigot/menu/impl/menu/config/ConfigMenuSettings.java:104-121 | the only failure of the slot list is NumberFormat |
| MenuSettings.RangeElement | EnhancedSpigot-Menus/src/main/java/dev/projectenhanced/enhancedspigot/menu/impl/menu/config/ConfigMenuSettings.java:105-118 | "a-b" stands for every integer from the smaller bound to the larger, |a - b| + 1 of them, ascending |
| MenuSettings.PlainElement | EnhancedSpigot-Menus/src/main/java/dev/projectenhanced/enhancedspigot/menu/impl/menu/config/ConfigMenuSettings.java:119-120 | an element without '-' stands for its own integer |
| MenuSettings.NegativeRejected | EnhancedSpigot-Menus/src/main/java/dev/projectenhanced/enhancedspigot/menu/impl/menu/config/ConfigMenuSettings.java:105-107 | a leading '-' is read as a range with an empty left side, rejected by Integer.parseInt |
| MenuSettings.SpacesIgnored | EnhancedSpigot-Menus/src/main/java/dev/projectenhanced/enhancedspigot/menu/impl/menu/config/ConfigMenuSettings.java:100 | spaces anywhere in the text do not change the slots |
| MenuSettings.SlotsOfAppend | EnhancedSpigot-Menus/src/main/java/dev/projectenhanced/enhancedspigot/menu/impl/menu/config/ConfigMenuSettings.java:104-122 | elements are read left to right and their slots concatenated, duplicates kept, the first failure winning |
| MenuSettings.JoinedElements | EnhancedSpigot-Menus/src/main/java/dev/projectenhanced/enhancedspigot/menu/impl/menu/config/ConfigMenuSettings.java:100-101 | a comma-joined text of space-free, comma-free elements lists exactly their slots |
| MenuSettings.RangeAndSlotExample | EnhancedSpigot-Menus/src/main/java/dev/projectenhanced/enhancedspigot/menu/impl/menu/config/ConfigMenuSettings.java:99-125 | the text "1-3, 7" stands for the slots 1, 2, 3 and 7 |
| MenuSettings.UnionAdd | EnhancedSpigot-Menus/src/main/java/dev/projectenhanced/enhancedspigot/menu/impl/menu/config/ConfigMenuSettings.java:91-94 | adding a spec to an id adds exactly its slots to the id's set |
| MenuSettings.GetDynamicSlots | EnhancedSpigot-Menus/src/main/java/dev/projectenhanced/enhancedspigot/menu/impl/menu/config/ConfigMenuSettings.java:86-97 | fails with NumberFormat exactly when some spec fails; otherwise each id maps to the union of the slot lists of its specs |
| MenuActions.Token | EnhancedSpigot-Menus/src/main/java/dev/projectenhanced/enhancedspigot/menu/impl/menu/config/MenuAction.java:33-34 | the first word of the data, bracketed |
| MenuActions.FirstCustom | EnhancedSpigot-Menus/src/main/java/dev/projectenhanced/enhancedspigot/menu/impl/menu/config/MenuAction.java:56-59 | the first custom key equal to the token ignoring case, or None exactly when no key is |
| MenuActions.ParseAsWritten | EnhancedSpigot-Menus/src/main/java/dev/projectenhanced/enhancedspigot/menu/impl/menu/config/MenuAction.java:32-62 | as written, no built-in action is ever returned: a custom key equal to the bracketed token ignoring case, or the no-op exactly when none is |
| MenuActions.ParseDefaultAsWritten | EnhancedSpigot-Menus/src/main/java/dev/projectenhanced/enhancedspigot/menu/impl/menu/config/MenuAction.java:28-30 | as written, parse(data) always returns the no-op |
| MenuActions.Parse | EnhancedSpigot-Menus/src/main/java/dev/projectenhanced/enhancedspigot/menu/impl/menu/config/MenuAction.java:32-62 | with the labels bracketed like the token, the words menu-previous, menu-next and menu-close select the built-in actions and nothing else does |
| MenuActions.ParseDefault | EnhancedSpigot-Menus/src/main/java/dev/projectenhanced/enhancedspigot/menu/impl/menu/config/MenuAction.java:28-30 | with corrected labels, parse(data) returns an action exactly for the three built-in words |
| MenuActions.NextUnreachableAsWritten | EnhancedSpigot-Menus/src/main/java/dev/projectenhanced/enhancedspigot/menu/impl/menu/config/MenuAction.java:34-43 | the data "menu-next" selects the no-op as written, while the corrected parse pages forward |
| MenuActions.FirstWordOnly | EnhancedSpigot-Menus/src/main/java/dev/projectenhanced/enhancedspigot/menu/impl/menu/config/MenuAction.java:33 | only the first word of the data decides the action |
| CommandPaths.CommandPath.Empty | EnhancedSpigot-Commands/src/main/java/dev/projectenhanced/enhancedspigot/command/model/CommandPath.java:30-33 | the empty path: no text, no segments |
| CommandPaths.CommandPath.FromSegments | EnhancedSpigot-Commands/src/main/java/dev/projectenhanced/enhancedspigot/command/model/CommandPath.java:35-38 | the given segments, and their text joined by spaces |
| CommandPaths.CommandPath.FromString | EnhancedSpigot-Commands/src/main/java/dev/projectenhanced/enhancedspigot/command/model/CommandPath.java:40-43 | the given text, and its segments split on spaces with trailing empty pieces dropped |
| CommandPaths.CommandPath.Add | EnhancedSpigot-Commands/src/main/java/dev/projectenhanced/enhancedspigot/command/model/CommandPath.java:50-59 | an element that is blank once its spaces are removed changes nothing; otherwise it is appended after a space and the whole text re-split |
| CommandPaths.CommandPath.PermissionStr | EnhancedSpigot-Commands/src/main/java/dev/projectenhanced/enhancedspigot/command/model/CommandPath.java:61-63 | for a canonical path, splitting the dotted permission text on '.' gives back the segments unless a segment holds a dot |
| CommandPaths.CommandPath.Clone | EnhancedSpigot-Commands/src/main/java/dev/projectenhanced/enhancedspigot/command/model/CommandPath.java:66-72 | a fresh path with the same text and segments |
| CommandPaths.AddToClone | EnhancedSpigot-Commands/src/main/java/dev/projectenhanced/enhancedspigot/command/EnhancedCommand.java:138-144 | adding to a clone leaves the original path unchanged |
| CommandPaths.EqualityIgnoresSegments | EnhancedSpigot-Commands/src/main/java/dev/projectenhanced/enhancedspigot/command/model/CommandPath.java:74-85 | equality compares only the text: one segment "a b" equals the two segments "a", "b" |
| CommandPaths.DotsSplit | EnhancedSpigot-Commands/src/main/java/dev/projectenhanced/enhancedspigot/command/model/CommandPath.java:61-63 | the dotted permission text of canonical segments without dots splits back into them |
| CommandPaths.AddAppends | EnhancedSpigot-Commands/src/main/java/dev/projectenhanced/enhancedspigot/command/model/CommandPath.java:50-59 | adding a non-empty word without spaces to a canonical path appends exactly that segment, keeping text and segments in step |
| CommandPaths.AddBlankIsNoOp | EnhancedSpigot-Commands/src/main/java/dev/projectenhanced/enhancedspigot/command/model/CommandPath.java:51-53 | adding an element made only of spaces leaves text and segments as they were |
| CommandPaths.EmptyTextHasOneSegment | EnhancedSpigot-Commands/src/main/java/dev/projectenhanced/enhancedspigot/command/model/CommandPath.java:40-43 | the text constructor on the empty text gives one empty segment |
| CommandModel.Bracketed | EnhancedSpigot-Commands/src/main/java/dev/projectenhanced/enhancedspigot/command/EnhancedCommand.java:638-644 | one "<name>" word per argument, in order |
| CommandModel.ArgsUsageJoin | EnhancedSpigot-Commands/src/main/java/dev/projectenhanced/enhancedspigot/command/EnhancedCommand.java:638-644 | the argument part of the usage is empty without arguments, else a space and the bracketed names joined by spaces |
| CommandModel.CommandStrWords | EnhancedSpigot-Commands/src/main/java/dev/projectenhanced/enhancedspigot/command/EnhancedCommand.java:629-646 | the usage string is "/cmd", the path segments and the bracketed argument names, joined by single spaces |
| CommandScan.CommandName | EnhancedSpigot-Commands/src/main/java/dev/projectenhanced/enhancedspigot/command/EnhancedCommand.java:82-84 | the command name is never longer than the class name, and is the lower-cased name when it holds no "command" |
| CommandScan.SuffixRemoved | EnhancedSpigot-Commands/src/main/java/dev/projectenhanced/enhancedspigot/command/EnhancedCommand.java:82-84 | a class named <p>Command with no 'c' in p has the command name p lower-cased |
| CommandScan.SinglePassLeavesCommand | EnhancedSpigot-Commands/src/main/java/dev/projectenhanced/enhancedspigot/command/EnhancedCommand.java:82-84 | the one-pass replace leaves "command" behind for the class CommCommandAnd |
| CommandScan.Wildcards | EnhancedSpigot-Commands/src/main/java/dev/projectenhanced/enhancedspigot/command/EnhancedCommand.java:182-187 | one ".*" node per counted prefix |
| CommandScan.PrefixCount | EnhancedSpigot-Commands/src/main/java/dev/projectenhanced/enhancedspigot/command/EnhancedCommand.java:178-181 | a main command counts all its segments, a subcommand all but the last, never more than there are |
| CommandScan.DerivePermissions | EnhancedSpigot-Commands/src/main/java/dev/projectenhanced/enhancedspigot/command/EnhancedCommand.java:166-206 | the permission list built by scanClass is exactly the permission-node list of the subcommand |
| CommandScan.FixedTail | EnhancedSpigot-Commands/src/main/java/dev/projectenhanced/enhancedspigot/command/EnhancedCommand.java:188-205 | the nodes added after the wildcard loop are exactly the fixed tail nodes |
| CommandScan.PrefixWildcards | EnhancedSpigot-Commands/src/main/java/dev/projectenhanced/enhancedspigot/command/EnhancedCommand.java:177-187 | the loop adding one segment at a time emits exactly the wildcards of the counted prefixes |
| CommandScan.PermissionsEmptyIff | EnhancedSpigot-Commands/src/main/java/dev/projectenhanced/enhancedspigot/command/EnhancedCommand.java:167 | the permission list is empty exactly when the method or its class carries @WithoutPermission |
| CommandScan.PermissionsLayout | EnhancedSpigot-Commands/src/main/java/dev/projectenhanced/enhancedspigot/command/EnhancedCommand.java:166-206 | without @WithoutPermission: the specific node first, then one wildcard per prefix and the fixed wildcards, "command.*" always, the custom permissions last |
| CommandScan.TailLayout | EnhancedSpigot-Commands/src/main/java/dev/projectenhanced/enhancedspigot/command/EnhancedCommand.java:188-205 | the fixed tail holds the command wildcard, the group wildcard when there is a group, "command.*", then the custom permissions |
| CommandScan.PrefixStateCanonical | EnhancedSpigot-Commands/src/main/java/dev/projectenhanced/enhancedspigot/command/EnhancedCommand.java:177-183 | adding canonical segments one at a time to an empty path gives exactly the first k of them |
| CommandScan.WildcardsCanonical | EnhancedSpigot-Commands/src/main/java/dev/projectenhanced/enhancedspigot/command/EnhancedCommand.java:182-187 | on a canonical path the i-th wildcard is the dotted prefix of i + 1 segments followed by ".*" |
| CommandScan.GiveExample | EnhancedSpigot-Commands/src/main/java/dev/projectenhanced/enhancedspigot/command/EnhancedCommand.java:166-198 | the plain subcommand "give" of "eco" outside any group has the nodes command.eco.give, command.eco.* and command.* |
| CommandScan.NodeCollapses | EnhancedSpigot-Commands/src/main/java/dev/projectenhanced/enhancedspigot/command/EnhancedCommand.java:174-175 | outside a group the ".." of an empty group collapses to one dot |
| CommandScan.ArgsOf | EnhancedSpigot-Commands/src/main/java/dev/projectenhanced/enhancedspigot/command/EnhancedCommand.java:226-265 | one argument per parameter after the source, with its class, filters and parser, the endless last one renamed "[name]" |
| CommandScan.Declare | EnhancedSpigot-Commands/src/main/java/dev/projectenhanced/enhancedspigot/command/EnhancedCommand.java:122-275 | a variant exactly for a non-synthetic, non-ignored method with a Player or CommandSender source; its path, permissions, arguments, endless and player flags as scanClass sets them |
| CommandScan.MainKeepsClassPath | EnhancedSpigot-Commands/src/main/java/dev/projectenhanced/enhancedspigot/command/EnhancedCommand.java:139-144 | a main command keeps its class's path |
| CommandDispatch.Returns | EnhancedSpigot-Commands/src/main/java/dev/projectenhanced/enhancedspigot/command/EnhancedCommand.java:383-459 | execute returns true exactly when the method ran or the help was shown, false for the other outcomes, and rethrows the exception of a throwing canConvert |
| CommandDispatch.Possible | EnhancedSpigot-Commands/src/main/java/dev/projectenhanced/enhancedspigot/command/EnhancedCommand.java:311-325 | the keys whose segments match the first words ignoring case, all of them and only those |
| CommandDispatch.VariantCandidates | EnhancedSpigot-Commands/src/main/java/dev/projectenhanced/enhancedspigot/command/EnhancedCommand.java:331-336 | each variant of a key paired with the words after the key's path, in order |
| CommandDispatch.Checked | EnhancedSpigot-Commands/src/main/java/dev/projectenhanced/enhancedspigot/command/EnhancedCommand.java:347-352 | the type check looks at every argument but an endless last one |
| CommandDispatch.HasPermission | EnhancedSpigot-Commands/src/main/java/dev/projectenhanced/enhancedspigot/command/EnhancedCommand.java:667-675 | the sender holds one of the nodes, or the variant needs none |
| CommandDispatch.HoldsAny | EnhancedSpigot-Commands/src/main/java/dev/projectenhanced/enhancedspigot/command/EnhancedCommand.java:668-672 | some node of the list is held |
| CommandDispatch.FinalArgs | EnhancedSpigot-Commands/src/main/java/dev/projectenhanced/enhancedspigot/command/EnhancedCommand.java:386-409 | the sender first, then one value per argument |
| CommandDispatch.FirstFailingArg | EnhancedSpigot-Commands/src/main/java/dev/projectenhanced/enhancedspigot/command/EnhancedCommand.java:421-433 | the first argument whose filters reject its value, every one before it passing |
| CommandDispatch.StepUndecided | EnhancedSpigot-Commands/src/main/java/dev/projectenhanced/enhancedspigot/command/EnhancedCommand.java:336-437 | a variant that neither runs, denies nor throws in its type check lets the loop go on, and sets found exactly when it was well typed |
| CommandDispatch.RunDecided | EnhancedSpigot-Commands/src/main/java/dev/projectenhanced/enhancedspigot/command/EnhancedCommand.java:336-446 | the first variant that runs, denies or throws decides execute: it is invoked with its final arguments, execute reports no permission, or execute throws the type check's exception |
| CommandDispatch.RunUndecided | EnhancedSpigot-Commands/src/main/java/dev/projectenhanced/enhancedspigot/command/EnhancedCommand.java:449-459 | with no deciding variant, the outcome is the last filter failure's message, the only-player message, or the help when no variant was well typed |
| CommandDispatch.LastFailureUntyped | EnhancedSpigot-Commands/src/main/java/dev/projectenhanced/enhancedspigot/command/EnhancedCommand.java:410-437 | the last filter failure is carried from variant to variant |
| CommandDispatch.HelpIffNothingFits | EnhancedSpigot-Commands/src/main/java/dev/projectenhanced/enhancedspigot/command/EnhancedCommand.java:449-459 | the help is shown exactly when no variant of a matching key is well typed for the words |
| CommandDispatch.CandidatesMatch | EnhancedSpigot-Commands/src/main/java/dev/projectenhanced/enhancedspigot/command/EnhancedCommand.java:331-336 | every variant tried belongs to a key whose path matches the first words and sees the words after that path |
| CommandDispatch.AddExample | EnhancedSpigot-Commands/src/main/java/dev/projectenhanced/enhancedspigot/command/EnhancedCommand.java:310-446 | the words "ADD 3" invoke the permitted one-argument variant "add" with the sender and the converted 3 |
| CommandDispatch.PossiblePaths | EnhancedSpigot-Commands/src/main/java/dev/projectenhanced/enhancedspigot/command/EnhancedCommand.java:311-325 | the first loop collects exactly the matching keys, in the map's order |
| CommandDispatch.TypeCheck | EnhancedSpigot-Commands/src/main/java/dev/projectenhanced/enhancedspigot/command/EnhancedCommand.java:346-370 | true exactly when every checked word converts; false or the exception exactly as the first canConvert that does not return true, every earlier one returning true |
| CommandDispatch.FirstUnconvertible | EnhancedSpigot-Commands/src/main/java/dev/projectenhanced/enhancedspigot/command/EnhancedCommand.java:347-368 | the first checked argument whose canConvert does not return true, all before it converting |
| CommandDispatch.ThrowEscapes | EnhancedSpigot-Commands/src/main/java/dev/projectenhanced/enhancedspigot/command/EnhancedCommand.java:310-370 | a canConvert that throws for the only argument of the only variant makes execute throw that exception |
| CommandDispatch.CorrectTypes | EnhancedSpigot-Commands/src/main/java/dev/projectenhanced/enhancedspigot/command/EnhancedCommand.java:346-370 | the loop's verdict is the type check: true when every checked word converts by its custom parser or else the registry, false at the first that does not, the exception of the first canConvert that throws |
| CommandDispatch.BuildFinalArgs | EnhancedSpigot-Commands/src/main/java/dev/projectenhanced/enhancedspigot/command/EnhancedCommand.java:386-409 | the array holds the sender and the argument values, the endless one the remaining words joined by spaces |
| CommandDispatch.CheckFilters | EnhancedSpigot-Commands/src/main/java/dev/projectenhanced/enhancedspigot/command/EnhancedCommand.java:678-705 | the two loops pass exactly when filters are absent, or some OR filter (if any) and every AND filter accept |
| CommandDispatch.FirstRejected | EnhancedSpigot-Commands/src/main/java/dev/projectenhanced/enhancedspigot/command/EnhancedCommand.java:421-433 | the loop stops at the first argument whose filters reject its value |
| CommandDispatch.TryVariant | EnhancedSpigot-Commands/src/main/java/dev/projectenhanced/enhancedspigot/command/EnhancedCommand.java:337-445 | the body of the inner loop takes exactly the step the model gives for that variant, including ending execute with a thrown type-check exception |
| CommandDispatch.Execute | EnhancedSpigot-Commands/src/main/java/dev/projectenhanced/enhancedspigot/command/EnhancedCommand.java:310-460 | execute's outcome, a thrown exception included, is the dispatch of the words over the keys in order |
| CommandControl.PluginTag | EnhancedSpigot-Commands/src/main/java/dev/projectenhanced/enhancedspigot/command/CommandController.java:50-52 | the tag has the name's length, each character lower-cased and '-' turned into '_' |
| CommandControl.TagIsSnakeLower | EnhancedSpigot-Commands/src/main/java/dev/projectenhanced/enhancedspigot/command/CommandController.java:50-52 | the tag holds no '-' and no upper-case letter |
| CommandControl.GroupPath | EnhancedSpigot-Commands/src/main/java/dev/projectenhanced/enhancedspigot/command/CommandController.java:85-96 | the group path is the segments of the class name after the package and before the simple name, joined by dots |
| CommandControl.BuildGroupPath | EnhancedSpigot-Commands/src/main/java/dev/projectenhanced/enhancedspigot/command/CommandController.java:87-96 | the append loop and the trailing-dot deletion give exactly those segments joined by dots |
| CommandControl.GroupPathOfClass | EnhancedSpigot-Commands/src/main/java/dev/projectenhanced/enhancedspigot/command/CommandController.java:85-96 | a class <package>.<group...>.<Simple> gets the group segments joined by dots |
| CommandControl.DirectClassHasNoGroup | EnhancedSpigot-Commands/src/main/java/dev/projectenhanced/enhancedspigot/command/CommandController.java:85-96 | a class directly in the commands package has the empty group path |
| CommandControl.NoTrailingDot | EnhancedSpigot-Commands/src/main/java/dev/projectenhanced/enhancedspigot/command/CommandController.java:85-96 | the group path never ends with a dot |
| Cache.LoadedAll | EnhancedSpigot-Data/src/main/java/dev/projectenhanced/enhancedspigot/data/cache/DataCache.java:145-161 | every cached key and every stored key is cached after loadAll |
| Cache.LoadAllIgnoringCached | EnhancedSpigot-Data/src/main/java/dev/projectenhanced/enhancedspigot/data/cache/DataCache.java:145-161 | loadAll(true) only adds the rows not cached yet, keeping every cached value |
| Cache.LoadAllOverwriting | EnhancedSpigot-Data/src/main/java/dev/projectenhanced/enhancedspigot/data/cache/DataCache.java:145-161 | loadAll(false) overwrites each cached entry the store also has |
| Cache.DataCache.constructor | EnhancedSpigot-Data/src/main/java/dev/projectenhanced/enhancedspigot/data/cache/DataCache.java:56-72 | an empty cache over the given table |
| Cache.DataCache.Get | EnhancedSpigot-Data/src/main/java/dev/projectenhanced/enhancedspigot/data/cache/DataCache.java:75-79 | a cached value, else the loaded row, else None; a value exactly when the key exists |
| Cache.DataCache.Set | EnhancedSpigot-Data/src/main/java/dev/projectenhanced/enhancedspigot/data/cache/DataCache.java:97-99 | the cache takes the value; the table is untouched |
| Cache.DataCache.Invalidate | EnhancedSpigot-Data/src/main/java/dev/projectenhanced/enhancedspigot/data/cache/DataCache.java:102-104 | the key alone leaves the cache |
| Cache.DataCache.InvalidateAll | EnhancedSpigot-Data/src/main/java/dev/projectenhanced/enhancedspigot/data/cache/DataCache.java:107-109 | the cache is emptied |
| Cache.DataCache.Remove | EnhancedSpigot-Data/src/main/java/dev/projectenhanced/enhancedspigot/data/cache/DataCache.java:117-119 | the row is deleted; a cached copy survives |
| Cache.DataCache.RemoveAll | EnhancedSpigot-Data/src/main/java/dev/projectenhanced/enhancedspigot/data/cache/DataCache.java:122-125 | the table is emptied; the cache survives |
| Cache.DataCache.Load | EnhancedSpigot-Data/src/main/java/dev/projectenhanced/enhancedspigot/data/cache/DataCache.java:128-137 | a present row is returned and cached; a missing row gives None and leaves the cache alone |
| Cache.DataCache.LoadAll | EnhancedSpigot-Data/src/main/java/dev/projectenhanced/enhancedspigot/data/cache/DataCache.java:140-161 | the loop leaves the cache of loadAll and returns every cached value |
| Cache.DataCache.Modify | EnhancedSpigot-Data/src/main/java/dev/projectenhanced/enhancedspigot/data/cache/DataCache.java:164-173 | a missing key changes nothing; a cached entry is updated in the cache only; an uncached row is updated, saved, and not cached |
| Cache.DataCache.Save | EnhancedSpigot-Data/src/main/java/dev/projectenhanced/enhancedspigot/data/cache/DataCache.java:248-252 | the cached value is written under its id; an uncached key writes nothing |
| Cache.DataCache.SaveValue | EnhancedSpigot-Data/src/main/java/dev/projectenhanced/enhancedspigot/data/cache/DataCache.java:255-262 | the value's row is created or replaced under its id |
| Cache.DataCache.SaveAll | EnhancedSpigot-Data/src/main/java/dev/projectenhanced/enhancedspigot/data/cache/DataCache.java:266-269 | every cached value is written under its id, the other rows kept; with the cache keyed by ids the table takes the whole cache |
| JavaInt.IncrementsWrap | EnhancedSpigot-Data/src/main/java/dev/projectenhanced/enhancedspigot/data/migration/MigrationController.java:91 | n executions of `i++` on an int add n and wrap once into the 32-bit range |
| JavaInt.IncrementsCycles | EnhancedSpigot-Data/src/main/java/dev/projectenhanced/enhancedspigot/data/migration/MigrationController.java:91 | every whole number of 2^32 executions of `i++` brings an int back to its value |
| Migrations.Pending | EnhancedSpigot-Data/src/main/java/dev/projectenhanced/enhancedspigot/data/migration/MigrationController.java:91-96 | the registered versions between the bounds, ascending, all of them |
| Migrations.NextVersion | EnhancedSpigot-Data/src/main/java/dev/projectenhanced/enhancedspigot/data/migration/MigrationController.java:91 | the int after Integer.MAX_VALUE is Integer.MIN_VALUE |
| Migrations.UpToDateRunsNothing | EnhancedSpigot-Data/src/main/java/dev/projectenhanced/enhancedspigot/data/migration/MigrationController.java:86-100 | nothing is pending when the stored version is current |
| Migrations.MaxStoredRunsEverything | EnhancedSpigot-Data/src/main/java/dev/projectenhanced/enhancedspigot/data/migration/MigrationController.java:88-96 | a stored Integer.MAX_VALUE wraps, so every registered migration runs once |
| Migrations.NoRepeats | EnhancedSpigot-Data/src/main/java/dev/projectenhanced/enhancedspigot/data/migration/MigrationController.java:91-96 | no migration runs twice |
| Migrations.MigrationController.constructor | EnhancedSpigot-Data/src/main/java/dev/projectenhanced/enhancedspigot/data/migration/MigrationController.java:39-61 | no migrations, and the current version recorded for a tag the table lacks |
| Migrations.MigrationController.RegisterMigration | EnhancedSpigot-Data/src/main/java/dev/projectenhanced/enhancedspigot/data/migration/MigrationController.java:63-67 | a version above the current one raises IllegalArgumentException and changes nothing; otherwise it replaces that version's migration |
| Migrations.MigrationController.CheckAndCreateInfo | EnhancedSpigot-Data/src/main/java/dev/projectenhanced/enhancedspigot/data/migration/MigrationController.java:69-73 | a row with the current version is created exactly when the tag has none |
| Migrations.MigrationController.Start | EnhancedSpigot-Data/src/main/java/dev/projectenhanced/enhancedspigot/data/migration/MigrationController.java:86-100 | the registered migrations after the stored version (plus one as an int) run in ascending order, each once, then the current version is stored; at currentVersion == Integer.MAX_VALUE this is the intended ending, see Findings |
| Migrations.MigrationController.RunFrom | EnhancedSpigot-Data/src/main/java/dev/projectenhanced/enhancedspigot/data/migration/MigrationController.java:91-96 | the loop runs each registered version from the first up to the current one, in order |
| Migrations.AsWrittenRanSplit | EnhancedSpigot-Data/src/main/java/dev/projectenhanced/enhancedspigot/data/migration/MigrationController.java:91 | at currentVersion == Integer.MAX_VALUE the guard always holds, so a + b passes of the wrapping loop are a passes followed by b passes from the counter a increments later |
| Migrations.AsWrittenStartNeverEnds | EnhancedSpigot-Data/src/main/java/dev/projectenhanced/enhancedspigot/data/migration/MigrationController.java:86-100 | as written, at currentVersion == Integer.MAX_VALUE every 2^32 passes bring the counter back, and the passes start over |
| Migrations.AsWrittenFirstRunsTwice | EnhancedSpigot-Data/src/main/java/dev/projectenhanced/enhancedspigot/data/migration/MigrationController.java:91-96 | as written, at currentVersion == Integer.MAX_VALUE a registered first version runs again after 2^32 passes |
| Migrations.StartTwice | EnhancedSpigot-Data/src/main/java/dev/projectenhanced/enhancedspigot/data/migration/MigrationController.java:86-100 | a second start runs nothing |
| Migrations.FreshTableRunsNothing | EnhancedSpigot-Data/src/main/java/dev/projectenhanced/enhancedspigot/data/migration/MigrationController.java:69-100 | on a table without the tag, the first start runs no migration |
| Jobs.Compare | EnhancedSpigot-Data/src/main/java/dev/projectenhanced/enhancedspigot/data/util/AsyncJob.java:43-46 | -1, 0 or 1 as the first is smaller, equal or larger |
| Jobs.CompareTo | EnhancedSpigot-Data/src/main/java/dev/projectenhanced/enhancedspigot/data/util/AsyncJob.java:41-47 | negative exactly when the first job has higher priority, or equal priority and a smaller operation id; zero exactly for equal keys |
| Jobs.HigherPriorityFirst | EnhancedSpigot-Data/src/main/java/dev/projectenhanced/enhancedspigot/data/util/AsyncJob.java:43 | a higher priority job sorts first, whatever the ids |
| Jobs.EqualPriorityByOperation | EnhancedSpigot-Data/src/main/java/dev/projectenhanced/enhancedspigot/data/util/AsyncJob.java:44-46 | between equal priorities the smaller operation id sorts first |
| Jobs.Reflexive | EnhancedSpigot-Data/src/main/java/dev/projectenhanced/enhancedspigot/data/util/AsyncJob.java:41-47 | every job compares equal to itself |
| Jobs.Antisymmetric | EnhancedSpigot-Data/src/main/java/dev/projectenhanced/enhancedspigot/data/util/AsyncJob.java:41-47 | swapping the jobs negates the comparison |
| Jobs.Transitive | EnhancedSpigot-Data/src/main/java/dev/projectenhanced/enhancedspigot/data/util/AsyncJob.java:41-47 | the order is transitive, strictly so when a step is strict |
| Jobs.ZeroIsConsistent | EnhancedSpigot-Data/src/main/java/dev/projectenhanced/enhancedspigot/data/util/AsyncJob.java:41-47 | jobs that compare equal compare alike against any third job |
| MenuGrid.PaintStep | EnhancedSpigot-Menus/src/main/java/dev/projectenhanced/enhancedspigot/menu/container/MenuContainer.java:143-167 | one visit of the fill loops overwrites its cell exactly when replaceable and leaves the other cells as they were |
| Menus.PagedMenuContainer.PlaceItem | EnhancedSpigot-Menus/src/main/java/dev/projectenhanced/enhancedspigot/menu/container/PagedMenuContainer.java:199-216 | one turn of the fillWithItems loop: it stops at the limit with the pages so far, fails with setItem's exception, or continues the layout with the item placed |
| Menus.PagedMenuContainer.PlacePatternItem | EnhancedSpigot-Menus/src/main/java/dev/projectenhanced/enhancedspigot/menu/container/PagedMenuContainer.java:156-176 | one turn of the fillPatternWithItems loop: it fails with the scan's or setItem's exception, or continues the pattern layout with the item placed |
| Menus.PagedMenuContainer.OpenPage | EnhancedSpigot-Menus/src/main/java/dev/projectenhanced/enhancedspigot/menu/container/PagedMenuContainer.java:167 | a fresh air page is appended to the new pages |
| Menus.PagedMenuContainer.PutOnLast | EnhancedSpigot-Menus/src/main/java/dev/projectenhanced/enhancedspigot/menu/container/PagedMenuContainer.java:174-175 | setItem on the last new page changes exactly what the layout's setItem changes, or fails the same way |

## Left out

- I/O and the host: databases, files, the scheduler, the network, Bukkit events, item stacks and text components. They appear only as the plain data or parameters listed above.
- Thread safety and asynchrony: `AsyncJob.run`, the executors, and the asynchronous caches. Only the synchronous logic is modelled.
- Java `null` arguments: the model takes no null inputs. Null results are modelled as `Option`.
- Non-ASCII text: case mapping and `equalsIgnoreCase` are modelled over ASCII letters only.
- IntegerParser.Convert, IntegerParser.AcceptedForm: digits are ASCII '0'..'9' only. The other Unicode decimal digits that `Integer.parseInt` accepts (as in "٣") are a NumberFormatException in the model.
- Time.ToMillis: only ASCII '0'..'9' count as digits. The source's `Integer.parseInt` of each one-character string also accepts the other Unicode decimal digits (as in "1٣s"), which the model treats as other characters.
- Versions.Parse: a part parses as an int over ASCII digits only; the other Unicode decimal digits that `Integer.parseInt` accepts are a failure in the model.
- The expression evaluator (EvalEx) inside `ConditionUtil` is a parameter returning `None` where it throws.
- `getMinecraftVersion` is not part of this model, because it reads the running server.
- `EnumParser` is not part of this model. The registries treat enum parsing and every parser or converter outside the modelled ones as parameters.
- `registerParsers(package, jar)` and the other registrations by package scanning use reflection over a jar and are left out. Registration of explicit parsers is modelled.
- Time.As: the source collects each token into a HashMap and then applies it with the regex `String.replaceAll`. The model rewrites the tokens in one left-to-right scan. The two agree when the extra texts contain no '<' and no regex metacharacters.
- `EnhancedCommand` tab completion, help and messages are left out because they format text components from locale objects. `execute` reports them only as outcomes (no permission, filter message, only-player, help).
- Reflection in `scanClass` is not modelled:
  - the order of `getDeclaredMethods`;
  - descriptions and the `commands.yml` variant file;
  - building the `subCommands` map, which is a parameter of `execute` in insertion order.
- `scanClass` puts the key of a method whose source parameter is neither a Player nor a CommandSender into `subCommands` before skipping it. The model does not capture that; such a key has no variants, so it changes no outcome of `execute`.
- The exception that `execute` rethrows when the invoked method throws is left out: invocation ends the model with the `Invoked` outcome.
- `execute` checks `notPassObj != null`. The model has no null converted values, so that branch is not modelled.
- EnhancedMenu: `onUpdate` (scheduled item refresh), `onGlobalClick`, `onDrag`, `onClose`, `open`, `updateTitle` and `blockClick` are event and inventory plumbing. The slot array stands for the Bukkit inventory.
- ConfigMenuSettings: `getTitle` and `getStaticItems` build text and item stacks, so they are left out. Their slot parsing is modelled by `MenuSettings.SlotList`.
- MenuActions.Parse: the actions are returned as identifiers, not closures; what the closures do to a menu is not modelled.
- MenuSettings.ParseSlots: a range whose upper end is Integer.MAX_VALUE never ends in the source, because `i++` wraps; the model returns the finite range (see Findings). Digits are ASCII '0'..'9' only: the other Unicode decimal digits that `Integer.parseInt` accepts through `Character.digit` (as in "1-٣") are not modelled.
- MenuSettings.ParseElement: the non-ASCII Unicode decimal digits that `Integer.parseInt` accepts are not modelled; such an element is a NumberFormat failure in the model.
- Menu slot arithmetic (`getMenuLocFromContainerLoc`) is modelled on unbounded integers. Accepted boxes keep it small, so no int overflow arises for them.
- The cursor of `fillPatternWithItems` steps with an unbounded `+ 1`. It never leaves the 9 columns and the pattern's rows, so no int wrap-around arises there. `fillWithItems` wraps both of its offsets.
- DataCache: the `afterLoad`, `dbToJava`, `beforeSave` and `javaToDb` hooks are identity in the model.
- DataCache: a DAO exception that the source logs and swallows is not modelled, since the store map never fails.
- DataCache: `modifyMultiple`, `modifyAll`, `loopAll` and `create` are left out. They batch the modelled operations, run asynchronously, or schedule a reload.
- Cache.DataCache.Modify: the action is a function from the old value to the new value. A Java consumer that mutates the object would also change any alias of it; the model does not capture that aliasing.
- Menus.NewMenuContainer, Menus.NewPaged: the model applies the intended box check. As written, the sums `(x - 1) + width` and `(y - 1) + height` are 32-bit and wrap, so the source also accepts boxes that overflow the grid (see Findings; MenuGrid.AsWrittenAcceptsOverflowingWidth, and MenuGrid.AsWrittenWithoutOverflow for the agreement without overflow).
- Migrations.MigrationController.Start: at currentVersion == Integer.MAX_VALUE the source's `i <= currentVersion` loop never ends, because `i++` wraps; the method models the intended loop, which ends (see Findings).
- Migrations.StartTwice and Migrations.FreshTableRunsNothing require currentVersion < Integer.MAX_VALUE: at Integer.MAX_VALUE the stored version plus one wraps to Integer.MIN_VALUE, so the next start runs every migration again (Migrations.MaxStoredRunsEverything).
- Migrations: what a migration does is left out; the model records only the versions it ran. A migration that throws is swallowed by `tryRun` in the source, which the model matches by recording the version regardless.
- `DependencyProvider.isRegistered` is the key test of the binding map. It is a predicate without its own row; `Provide` states it.
- Reference definitions have no row of their own. Each is a function or predicate whose meaning is stated by the rows of the lemmas and methods that name it:
  - `Time.As`, `Time.FromMillis`: Time.TextRendering, Time.SubSecondIsNow, Time.InputRendering, Time.InputRoundTrip;
  - `Time.HashCode`, `Time.Equals`: Time.EqualsHashEqually;
  - `Booleans.FromString`, `Booleans.CanConvert`, `Booleans.AsString`: Booleans.AcceptedWords, Booleans.AcceptedButFalse, Booleans.RoundTrip;
  - `IntegerParser.CanConvert`: IntegerParser.AcceptedForm, IntegerParser.Rejected, IntegerParser.Overflow;
  - `EnumConverter.AsString`, `EnumConverter.CanConvert`: EnumConverter.CanConvertIff, EnumConverter.RoundTrip, EnumConverter.CaseInsensitive;
  - `ConverterRegistry.StringConverterRegistry.CanConvert`: ConverterRegistry.StringConverterRegistry.Convert, ConverterRegistry.EnumConversion;
  - `TextCase.CamelToKebabCase`, `TextCase.CamelToSnakeCase`: TextCase.KebabHasNoUpper, TextCase.KebabIdempotent, TextCase.SnakeIsKebabWithUnderscore, TextCase.UpperRunGetsOneSeparator, TextCase.CapitalAfterDigit;
  - `Conditions.CheckStringsEquality`, `Conditions.PassCondition`: Conditions.EvaluatorFirst, Conditions.SpacesAreIgnored, Conditions.TripleEqualsIsExact, Conditions.DoubleEqualsIgnoresCase, Conditions.NoOperatorIsFalse;
  - `Filters.Passes`, `Filters.Outcome`: Filters.PassFilters, Filters.EmptyIffPasses, Filters.FailureHasCulprit;
  - `Serializers.ConfigSerializerRegistry.GetSerializer`, which is Serializers.SerializerFor on the current bindings: Serializers.SerializerFor, Serializers.FreshLookups, Serializers.ExactBindingBeatsEnum;
  - `MenuSettings.SlotList`: MenuSettings.ParseSlots, MenuSettings.SpacesIgnored, MenuSettings.SlotsOfAppend, MenuSettings.JoinedElements, MenuSettings.RangeAndSlotExample;
  - `CommandModel.ArgsUsage`, `CommandModel.CommandStr`: CommandModel.ArgsUsageJoin, CommandModel.CommandStrWords;
  - `CommandPaths.CommandPath.Equals`: CommandPaths.EqualityIgnoresSegments;
  - `CommandScan.PermissionNodes`: CommandScan.DerivePermissions, CommandScan.PermissionsEmptyIff, CommandScan.PermissionsLayout, CommandScan.GiveExample;
  - `CommandDispatch.Run`, `CommandDispatch.Dispatch`: CommandDispatch.Execute, CommandDispatch.RunDecided, CommandDispatch.RunUndecided, CommandDispatch.HelpIffNothingFits, CommandDispatch.AddExample, CommandDispatch.ThrowEscapes;
  - `Cache.DataCache.Contains`, `Cache.DataCache.Exists`: Cache.DataCache.Get, Cache.DataCache.Modify;
  - `Menus.Draw`, `Menus.Render`: Menus.EnhancedMenu.DrawContainer, Menus.EnhancedMenu.Update, Menus.RenderLastWins;
  - `MenuGrid.FillLayout`, `MenuGrid.FillPatternLayout`: DefaultLayout.DefaultLayoutIsRowMajor, DefaultLayout.RowMajorPlacement, MenuGrid.PatternLimitOverwrites, Menus.PagedMenuContainer.BuildPages, Menus.PagedMenuContainer.BuildPatternPages;
  - `Permissions.Candidates`, `Permissions.KeepGreatest`: Permissions.GetValueFromPermission, Permissions.CandidatesStep, Permissions.ResultIsMaximum, Permissions.TiesKeepDefault, Permissions.NoCandidateGivesDefault.

## Findings

| source | as written | input that shows it | evidently intended | confidence | as-written member | corrected member |
|---|---|---|---|---|---|---|
| EnhancedSpigot-Menus/src/main/java/dev/projectenhanced/enhancedspigot/menu/container/MenuContainer.java:60-68 | the width and height checks compute `(x - 1) + width` and `(y - 1) + height` in 32-bit int, so a large width wraps negative and passes | x = 2, y = 0, width = 2^31 - 1, height = 1 in a 1-row menu | accept exactly the boxes with 0 <= x, 1 <= width, x + width <= 9, 0 <= y, 0 <= height and y + height <= rows | not executed | MenuGrid.AsWrittenAcceptsOverflowingWidth | Menus.NewMenuContainer, Menus.NewPaged |
| EnhancedSpigot-Menus/src/main/java/dev/projectenhanced/enhancedspigot/menu/impl/menu/config/MenuAction.java:34-55 | the token is bracketed (`"[" + word + "]"`) before the switch on the unbracketed labels, so no built-in action can be selected | data "menu-next" | "menu-previous", "menu-next" and "menu-close" select the page and close actions | not executed | MenuActions.NextUnreachableAsWritten | MenuActions.Parse |
| EnhancedSpigot-Data/src/main/java/dev/projectenhanced/enhancedspigot/data/migration/MigrationController.java:91 | start's loop counts an int up from the stored version plus one while it is at most currentVersion; it cannot end when currentVersion is Integer.MAX_VALUE: `i++` wraps to Integer.MIN_VALUE and the guard holds again, so migrations rerun forever | currentVersion = 2147483647 with version 1 registered and 0 stored | run each registered version above the stored one once, then store currentVersion | not executed | Migrations.AsWrittenFirstRunsTwice | Migrations.MigrationController.Start |
| EnhancedSpigot-Menus/src/main/java/dev/projectenhanced/enhancedspigot/menu/impl/menu/config/ConfigMenuSettings.java:116-118 | the range loop counts an int up from the lower bound while it is at most the upper one; it cannot end when the upper bound is Integer.MAX_VALUE, for the same wrap, and adds slots without limit | the slot text "2147483647-2147483647" | the slots from the lower bound to the upper, once each | not executed | MenuSettings.AsWrittenRangeToMaxNeverEnds | MenuSettings.CountUp |
