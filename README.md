# ConfigArgsConfigSource, modelled in Dafny

Keycloak's Quarkus distribution re-reads the command-line arguments it was
started with from one comma-separated string, for example
`--http-enabled=true,--http-port=8180,--db-url=jdbc:mariadb://localhost/kc?a=1`.
`ConfigArgsConfigSource` turns that string into configuration properties and
serves them to the configuration system under the name `CliConfigSource` with
ordinal 500.

The model has three modules:

- `Wrappers` (wrappers.dfy): `Option` for Java's `null`, `Result` for a
  returned value or a thrown `IllegalArgumentException`.
- `JavaStrings` (java_strings.dfy): the Java library calls the parser depends on.
  These are `String.startsWith`, `String.trim`, `String.replace(char, char)`,
  and `Pattern.split` with limit 0 on a one-character literal pattern.
  `PatternSplit` states the split rule directly. When the delimiter does not
  occur, the result is the whole string, so `""` gives `[""]`. Otherwise the
  result is the fields between the delimiters, with the trailing empty fields
  dropped.
- `ConfigArgs` (config_args.dfy): the parser and the source.
  - `ParseArgument` is the `for` loop of `parseArgument`, with its early
    returns. It is proved equal to `Parse`.
  - `ProcessToken` is one pass of the loop body. `Outcomes` lists what each
    argument yields, and `Fold` applies them in order and stops at the first
    rejected one. `Parse` is `Fold` over the `Outcomes` of `Tokens`.
  - The lemmas about a single argument (`TokenOutcome`,
    `AssignmentKeptVerbatim`, `EmptyValueSkipped`, and the others) state
    its outcome without referring to `Pattern.split`. The exception is
    `PrefixedTokenOutcome`, which gives the outcome by the number of parts
    of the `=` split.
  - The lemmas about the whole string (`ParseFailure`, `ParseContents`,
    `LookupAfterParse`) are stated over `Tokens`, the comma split, and
    `Outcomes`. `TrailingSeparatorIgnored` is stated over `Parse` alone.
    `PatternSplitJoin` and `JoinSplitAll` characterise the split as the
    inverse of joining with the delimiter.
  - `ConfigArgsConfigSource.GetValue` is `getValue`.
  - `Construct` is the constructor.

The lookup source never changes after it is built, so it is a datatype, not a
class. `NS_KEYCLOAK_PREFIX`, `Configuration.getMappedPropertyName` and
`Picocli.normalizeKey` are fields of `Collaborators`, which the parser and
the constructor receive.

What the code does, which the model follows:

- A key keeps its dashes. Line 99 only drops the `--` and prepends the
  namespace prefix.
- The blank-key check at line 83 tests the key with its `--` still on, so it
  can never fail (`PrefixedTokenOutcome`, `TokenRejected`, `ParseFailure`).
  `ParseArgument` keeps that branch and proves it unreachable. As a result,
  `--=true` is accepted and stores `true` under the namespace prefix alone
  (`EmptyKeyAccepted`).
- The mapped-name entry is written even when it equals the key itself.
- Because `Pattern.split` drops trailing empty fields, a value can lose '='
  characters at its end:
  - `--a=b=` stores `b` (`LoneTrailingSeparatorLost`).
  - `--a=` and `--a==` are skipped like bare flags (`EmptyValueSkipped`).
  - `--a=b=c=` keeps `b=c=` (`InnerSeparatorKeepsValue`).
- Only the entries under dash-free keys can be found by `getValue`
  (`DashedKeyUnreachable`). An argument such as `--http-enabled=true` is
  therefore found only through whichever of its mapped or normalised names is
  dash-free.

## Model

| member | source | states |
|---|---|---|
| ConfigArgs.CanonicalKey | quarkus/runtime/src/main/java/org/keycloak/quarkus/runtime/configuration/ConfigArgsConfigSource.java:99 | The property name is the namespace prefix followed by the key without its leading `--`. Its effect is stated by `TokenOutcome` and `AssignmentKeptVerbatim` (`ns + arg[2..k]`). |
| ConfigArgs.ProcessToken | quarkus/runtime/src/main/java/org/keycloak/quarkus/runtime/configuration/ConfigArgsConfigSource.java:76-99 | One pass of the loop body. Its contract is stated by `TokenOutcome` (the full outcome without the split), `TokenRejected` and `PrefixedTokenOutcome`. |
| ConfigArgs.Store | quarkus/runtime/src/main/java/org/keycloak/quarkus/runtime/configuration/ConfigArgsConfigSource.java:102-105 | The three `put`s of an accepted argument. Its contract is stated by `StoreWrites`. |
| ConfigArgs.Tokens | quarkus/runtime/src/main/java/org/keycloak/quarkus/runtime/configuration/ConfigArgsConfigSource.java:68-75 | No arguments for an absent or blank string (`ParseBlank`), otherwise the comma split. The split is characterised by `PatternSplitJoin` and `JoinSplitAll`, and its trailing-comma behaviour by `TrailingSeparatorIgnored`. |
| ConfigArgs.Fold | quarkus/runtime/src/main/java/org/keycloak/quarkus/runtime/configuration/ConfigArgsConfigSource.java:75-106 | The loop's accumulation, stopping at the first rejected argument. Its contract is stated by `FoldFailure`, `FoldKeys` and `FoldValues`. |
| ConfigArgs.Parse | quarkus/runtime/src/main/java/org/keycloak/quarkus/runtime/configuration/ConfigArgsConfigSource.java:65-109 | The result of `parseArgument`. Its contract is stated by `ParseFailure` (when and how it fails), `ParseContents` (what the map holds) and `ParseBlank`. `ParseArgument` is proved equal to it. |
| ConfigArgs.ParseArgument | quarkus/runtime/src/main/java/org/keycloak/quarkus/runtime/configuration/ConfigArgsConfigSource.java:65-109 | The loop returns exactly what `Parse` gives: the map built token by token, or the error of the first rejected token. |
| ConfigArgs.TokenOutcome | quarkus/runtime/src/main/java/org/keycloak/quarkus/runtime/configuration/ConfigArgsConfigSource.java:76-99 | One argument, stated without `Pattern.split`. Without `--` it is rejected, naming it. With no `=` it is skipped. Otherwise the key is the text before the first `=`, and the value is the rest after that `=`. The trailing `=` are lost when the rest holds no other `=`. The argument is skipped when the rest is only `=`. |
| ConfigArgs.PrefixedTokenOutcome | quarkus/runtime/src/main/java/org/keycloak/quarkus/runtime/configuration/ConfigArgsConfigSource.java:80-99 | For an argument that starts with `--`, the key split off at the first `=` keeps the `--`, so it is never blank. One part means the argument is skipped; more parts mean a value is stored under the namespaced key. |
| ConfigArgs.TokenRejected | quarkus/runtime/src/main/java/org/keycloak/quarkus/runtime/configuration/ConfigArgsConfigSource.java:76-85 | An argument is rejected exactly when it does not start with `--`, and the error names it. The blank-key error cannot occur. |
| ConfigArgs.PutHasSeparator | quarkus/runtime/src/main/java/org/keycloak/quarkus/runtime/configuration/ConfigArgsConfigSource.java:80-96 | An argument that stores a value starts with `--` and contains `=`. |
| ConfigArgs.AssignmentKeptVerbatim | quarkus/runtime/src/main/java/org/keycloak/quarkus/runtime/configuration/ConfigArgsConfigSource.java:91-99 | `--key=value` with a non-empty value not ending in `=` stores the whole value under prefix + key without `--`, whatever `=` the value holds. |
| ConfigArgs.EmptyValueSkipped | quarkus/runtime/src/main/java/org/keycloak/quarkus/runtime/configuration/ConfigArgsConfigSource.java:80-90 | A bare flag `--key`, and `--key` followed only by `=` characters, add nothing and raise no error. |
| ConfigArgs.LoneTrailingSeparatorLost | quarkus/runtime/src/main/java/org/keycloak/quarkus/runtime/configuration/ConfigArgsConfigSource.java:80-93 | `--key=value=`, with a non-empty `value` holding no `=`, stores `value` without its final `=`. With an empty value, `--key==` is skipped instead (`EmptyValueSkipped`). |
| ConfigArgs.InnerSeparatorKeepsValue | quarkus/runtime/src/main/java/org/keycloak/quarkus/runtime/configuration/ConfigArgsConfigSource.java:94-97 | When the value holds a `=` before its trailing ones, the whole suffix after the first `=` is stored, trailing `=` included. |
| ConfigArgs.EmptyKeyAccepted | quarkus/runtime/src/main/java/org/keycloak/quarkus/runtime/configuration/ConfigArgsConfigSource.java:76-99 | `--=value`, with a non-empty value not ending in `=`, is accepted and stores the value under the namespace prefix alone. `--=` and `--==` are skipped (`EmptyValueSkipped`), and `--=v=` with `v` free of `=` stores `v` (`LoneTrailingSeparatorLost`). |
| ConfigArgs.StoreWrites | quarkus/runtime/src/main/java/org/keycloak/quarkus/runtime/configuration/ConfigArgsConfigSource.java:102-105 | An accepted argument puts its value under the key, its mapped name and its normalised name. All other entries are left unchanged. |
| ConfigArgs.ParseFailure | quarkus/runtime/src/main/java/org/keycloak/quarkus/runtime/configuration/ConfigArgsConfigSource.java:75-85 | Parsing fails exactly when some argument lacks `--`. It then fails naming the first such argument. It never fails with the blank-key error. |
| ConfigArgs.ParseBlank | quarkus/runtime/src/main/java/org/keycloak/quarkus/runtime/configuration/ConfigArgsConfigSource.java:68-71 | An absent or blank argument string gives the empty map and no error. |
| ConfigArgs.BlankExamples | quarkus/runtime/src/main/java/org/keycloak/quarkus/runtime/configuration/ConfigArgsConfigSource.java:68-71 | No string, `""` and a string of spaces and tabs each give the empty map. |
| ConfigArgs.EmptyArgumentRejected | quarkus/runtime/src/main/java/org/keycloak/quarkus/runtime/configuration/ConfigArgsConfigSource.java:75-78 | Two commas in a row, followed later by something other than a comma, make parsing fail. |
| ConfigArgs.TrailingSeparatorIgnored | quarkus/runtime/src/main/java/org/keycloak/quarkus/runtime/configuration/ConfigArgsConfigSource.java:75 | A comma at the end of a non-blank argument string changes nothing. |
| ConfigArgs.FoldFailure | quarkus/runtime/src/main/java/org/keycloak/quarkus/runtime/configuration/ConfigArgsConfigSource.java:75-99 | The loop over the outcomes fails exactly when one of them is a failure, and then with the error of the first failure. |
| ConfigArgs.FoldKeys | quarkus/runtime/src/main/java/org/keycloak/quarkus/runtime/configuration/ConfigArgsConfigSource.java:75-106 | After the loop, a key is present exactly when it was present before or some accepted argument wrote it. |
| ConfigArgs.FoldValues | quarkus/runtime/src/main/java/org/keycloak/quarkus/runtime/configuration/ConfigArgsConfigSource.java:75-106 | After the loop, each value is that of the last argument that wrote its key, or the earlier value if none did. |
| ConfigArgs.ParseContents | quarkus/runtime/src/main/java/org/keycloak/quarkus/runtime/configuration/ConfigArgsConfigSource.java:75-105 | A key is in the map exactly when some argument writes it. Its value is that of the last argument that writes it, and that argument contains `=`. |
| ConfigArgs.ConfigArgsConfigSource.GetValue | quarkus/runtime/src/main/java/org/keycloak/quarkus/runtime/configuration/ConfigArgsConfigSource.java:55-63 | A hit returns the value stored under a dash-free key that equals the queried name up to `-` versus `.`. A miss means no such key is stored. |
| ConfigArgs.GetValueIgnoresDashes | quarkus/runtime/src/main/java/org/keycloak/quarkus/runtime/configuration/ConfigArgsConfigSource.java:55-56 | Names that differ only in `-` versus `.` get the same answer. |
| ConfigArgs.DashedKeyUnreachable | quarkus/runtime/src/main/java/org/keycloak/quarkus/runtime/configuration/ConfigArgsConfigSource.java:56 | Adding or changing an entry whose key holds a `-` changes no lookup. |
| ConfigArgs.LookupAfterParse | quarkus/runtime/src/main/java/org/keycloak/quarkus/runtime/configuration/ConfigArgsConfigSource.java:55-105 | A hit on the built source returns the value of the last argument that wrote a dash-free key matching the name up to `-` versus `.`. The lookup returns nothing exactly when no argument wrote such a key. |
| ConfigArgs.Construct | quarkus/runtime/src/main/java/org/keycloak/quarkus/runtime/configuration/ConfigArgsConfigSource.java:49-52 | Construction fails with the parse error, or builds the source from the parsed map with name `CliConfigSource` and ordinal 500. |
| JavaStrings.StartsWith | quarkus/runtime/src/main/java/org/keycloak/quarkus/runtime/configuration/ConfigArgsConfigSource.java:76 | `s` starts with `prefix` exactly when `prefix` is no longer than `s` and equals as many leading characters of `s` as it has. |
| JavaStrings.Trim | quarkus/runtime/src/main/java/org/keycloak/quarkus/runtime/configuration/ConfigArgsConfigSource.java:68 | `trim` leaves no character up to U+0020 at either end. Its result is empty exactly when the string is blank. |
| JavaStrings.TrimIsInfix | quarkus/runtime/src/main/java/org/keycloak/quarkus/runtime/configuration/ConfigArgsConfigSource.java:68 | What `trim` keeps is a contiguous part of the string with only blank characters around it. |
| JavaStrings.Replace | quarkus/runtime/src/main/java/org/keycloak/quarkus/runtime/configuration/ConfigArgsConfigSource.java:56 | `replace('-', '.')` keeps the length and changes each `-`, and nothing else. |
| JavaStrings.PatternSplit | quarkus/runtime/src/main/java/org/keycloak/quarkus/runtime/configuration/ConfigArgsConfigSource.java:80 | No part holds the delimiter. For a string not starting with the delimiter, the first part is the text before the first delimiter. |
| JavaStrings.PatternSplitJoin | quarkus/runtime/src/main/java/org/keycloak/quarkus/runtime/configuration/ConfigArgsConfigSource.java:75 | The parts joined back give the string without its trailing delimiters. There are no parts exactly when the string is only delimiters. |
| JavaStrings.PatternSplitAtFirst | quarkus/runtime/src/main/java/org/keycloak/quarkus/runtime/configuration/ConfigArgsConfigSource.java:80 | A string that holds a delimiter, but not at its start, splits into one, two, or three or more parts, according to what follows the first delimiter. |

## Left out

- `Environment.getConfigArgs()` reads a system property. Here the raw string is a parameter, and `None` stands for `null`.
- Logging (`log.trace`, `log.tracef`) has no effect on the result, so it is left out.
- The `PropertiesConfigSource` superclass is reduced to the exact map lookup it performs. How the configuration system ranks sources by ordinal is not part of this model. Only the name and ordinal values are kept.
- `NS_KEYCLOAK_PREFIX`, `Configuration.getMappedPropertyName` and `Picocli.normalizeKey` are not part of this model. They are parameters, and every property is proved for all of their values.
- `Picocli.ARG_SPLIT` and `Picocli.ARG_KEY_VALUE_SPLIT` are not part of this model. They are taken to be the literal patterns `,` and `=`, as the class comment (line 41) says.
- The regular-expression engine is left out beyond a split on a one-character literal pattern.
- A `null` property name passed to `getValue` would throw `NullPointerException` in Java. The model has no null names.
- Strings are sequences of `char`. Unicode handling beyond comparing characters is not modelled.
