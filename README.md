# Generator properties of the license generator

`GeneratorProperties` is the license generator's typed view of its
`generator.properties` file. Once the file is loaded, each getter reads one
key and falls back on a built-in default when the key is not set:

- `getRepositories` reads a comma-joined list of repository names (default
  `Maven Central`) and a comma-joined list of URLs (default
  `http://repo1.maven.org/maven2`), rejects lists of different lengths, and
  pairs them position by position into a name-to-URL map;
- `getExcludedScopes` (default `test,system,provided`) and
  `getExcludedClassifiers` (default `tests`) split a comma-joined list;
- `isProcessPlugins` and `isIncludeOptional` read a boolean, `false` by default.

The model has two modules.

- `Strings` (`strings.dfy`) gives the JDK's `String.split` on a single
  literal separator: all pieces between separators, leading and interior
  empty pieces kept, trailing empty pieces dropped, and a string without
  separator returned whole (so `""` gives `[""]` and `","` gives `[]`).
  `IsSplitOf` states that behaviour without computing it. `Split` is proved
  to meet it, and `SplitUnique` proves that nothing else does. `Join`
  inverts `SplitAll` in both directions (`JoinSplitAll`, `SplitAllJoin`).
  For `Split`, `SplitJoinIff` proves `Split(Join(xs)) == xs` exactly when
  `xs` is non-empty and its last piece is non-empty or the only one.
  `Join(Split(s))` is `s` with its trailing separators removed (`IsSplitOf`).
- `GeneratorProperties` (`generator_properties.dfy`) holds the getters. Each
  one is a function of the loaded store, a `map` from the six keys to the
  text stored under them. No getter can change the store. Failures are
  `Result` values and never preconditions.

Duplicate repository names: `getRepositories` collects the pairs with
`Collectors.toMap` and gives it no merge function, so a repeated name throws
`IllegalStateException` rather than the later entry overwriting the earlier
one. `ToMap` fails on the first name that repeats.

## Model

| member | source | states |
|---|---|---|
| `Strings.SplitAll` | src/main/java/org/jboss/snowdrop/licenses/properties/GeneratorProperties.java:66-67 | splitting at every separator gives at least one piece, and no piece holds the separator |
| `Strings.JoinSplitAll` | src/main/java/org/jboss/snowdrop/licenses/properties/GeneratorProperties.java:66-67 | joining the pieces again with the separator gives back the original string, so nothing is lost or reordered |
| `Strings.DropTrailingEmpty` | src/main/java/org/jboss/snowdrop/licenses/properties/GeneratorProperties.java:66-67 | the result is the longest prefix that does not end in an empty piece, and every piece dropped is empty |
| `Strings.Split` | src/main/java/org/jboss/snowdrop/licenses/properties/GeneratorProperties.java:66-67 | `split(",")` meets `IsSplitOf`: no piece holds a comma; joined, the pieces are a prefix of the input and only commas follow (no trimming, input order kept); the result is empty only for a non-empty run of commas; a last piece is empty only for the empty input, which gives `[""]` |
| `Strings.SplitUnique` | src/main/java/org/jboss/snowdrop/licenses/properties/GeneratorProperties.java:66-67 | any list that meets `IsSplitOf` for a string is exactly `Split` of that string |
| `Strings.SplitAllJoin` | src/main/java/org/jboss/snowdrop/licenses/properties/GeneratorProperties.java:66-67 | splitting at every separator undoes joining, for any non-empty list of pieces that hold no separator |
| `Strings.SplitJoin` | src/main/java/org/jboss/snowdrop/licenses/properties/GeneratorProperties.java:84 | round trip: splitting the comma-join of a non-empty list of comma-free pieces gives the list back when its last piece is non-empty or is the only piece |
| `Strings.SplitJoinIff` | src/main/java/org/jboss/snowdrop/licenses/properties/GeneratorProperties.java:90 | for comma-free pieces the round trip holds exactly under the condition of `SplitJoin` |
| `Strings.SplitJoinTrailingEmpty` | src/main/java/org/jboss/snowdrop/licenses/properties/GeneratorProperties.java:66-67 | a trailing empty piece after another piece does not survive the round trip |
| `Strings.SplitOnlySeps` | src/main/java/org/jboss/snowdrop/licenses/properties/GeneratorProperties.java:66-67 | a non-empty string of commas only splits into no pieces |
| `Strings.SplitDropsTrailingSeps` | src/main/java/org/jboss/snowdrop/licenses/properties/GeneratorProperties.java:66-67 | commas after a last non-empty piece are dropped and produce no pieces |
| `Strings.SplitTwo` | src/main/java/org/jboss/snowdrop/licenses/properties/GeneratorProperties.java:66-67 | two comma-free pieces around one comma, the second non-empty, split back into those two pieces |
| `GeneratorProperties.GetString` | src/main/java/org/jboss/snowdrop/licenses/properties/GeneratorProperties.java:64-65 | a set key gives its stored text unchanged; an unset key gives the default |
| `GeneratorProperties.GetBoolean` | src/main/java/org/jboss/snowdrop/licenses/properties/GeneratorProperties.java:78-80 | an unset key gives the default; a set key gives the store's reading of its literal, or a conversion error for that key |
| `GeneratorProperties.CollectUpTo` | src/main/java/org/jboss/snowdrop/licenses/properties/GeneratorProperties.java:73-75 | collecting the first n index-wise pairs succeeds exactly when those n keys are distinct; then the key set is theirs, the size is n, and key i maps to value i; otherwise the error names a key before n that is the first to repeat an earlier one |
| `GeneratorProperties.ToMap` | src/main/java/org/jboss/snowdrop/licenses/properties/GeneratorProperties.java:73-75 | collecting the index-wise pairs succeeds exactly when the keys are distinct; then the key set is the set of keys, the size is the number of keys, and key i maps to value i; otherwise the error names the first key that was already collected |
| `GeneratorProperties.ToMapPair` | src/main/java/org/jboss/snowdrop/licenses/properties/GeneratorProperties.java:75 | two distinct keys give both entries; the same key twice is a duplicate-key error, and the second value does not replace the first |
| `GeneratorProperties.GetRepositories` | src/main/java/org/jboss/snowdrop/licenses/properties/GeneratorProperties.java:63-76 | lists of different lengths fail with the count error; the call succeeds exactly when the lengths agree and the names are distinct; on success names[i] maps to urls[i], the key set is the set of names and the size is the number of names; equal lengths with a repeated name fail with a duplicate-key error naming the first name that repeats an earlier one |
| `GeneratorProperties.IsProcessPlugins` | src/main/java/org/jboss/snowdrop/licenses/properties/GeneratorProperties.java:78-80 | `false` when the key is unset; otherwise the stored boolean, or a conversion error |
| `GeneratorProperties.GetExcludedScopes` | src/main/java/org/jboss/snowdrop/licenses/properties/GeneratorProperties.java:82-85 | the result is the comma split (as `IsSplitOf` states it) of the stored text, or of `test,system,provided` when the key is unset |
| `GeneratorProperties.GetExcludedClassifiers` | src/main/java/org/jboss/snowdrop/licenses/properties/GeneratorProperties.java:87-91 | the result is the comma split of the stored text, or of `tests` when the key is unset |
| `GeneratorProperties.IsIncludeOptional` | src/main/java/org/jboss/snowdrop/licenses/properties/GeneratorProperties.java:93-95 | `false` when the key is unset; otherwise the stored boolean, or a conversion error |
| `GeneratorProperties.DefaultRepositories` | src/main/java/org/jboss/snowdrop/licenses/properties/GeneratorProperties.java:63-75 | with neither repository key set the result is exactly `{"Maven Central" -> "http://repo1.maven.org/maven2"}` |
| `GeneratorProperties.DefaultScopes` | src/main/java/org/jboss/snowdrop/licenses/properties/GeneratorProperties.java:45 | with the key unset the excluded scopes are exactly `["test", "system", "provided"]`, in that order |
| `GeneratorProperties.DefaultClassifiers` | src/main/java/org/jboss/snowdrop/licenses/properties/GeneratorProperties.java:47 | with the key unset the excluded classifiers are exactly `["tests"]` |
| `GeneratorProperties.TwoRepositories` | src/main/java/org/jboss/snowdrop/licenses/properties/GeneratorProperties.java:63-76 | names `A,B` with URLs `u1,u2` give `{A -> u1, B -> u2}` |
| `GeneratorProperties.MismatchedRepositories` | src/main/java/org/jboss/snowdrop/licenses/properties/GeneratorProperties.java:69-71 | names `A,B` with the single URL `u1` fail with the count error |
| `GeneratorProperties.DuplicateRepositoryName` | src/main/java/org/jboss/snowdrop/licenses/properties/GeneratorProperties.java:73-75 | names `A,A` with URLs `u1,u2` fail with a duplicate-key error for `A` instead of mapping `A` to `u2` |

## Left out

- Loading the file (the two constructors, src/main/java/org/jboss/snowdrop/licenses/properties/GeneratorProperties.java:51-61) is file I/O through Apache Commons Configuration. The model starts from the loaded store. `DefaultFilePath` is declared only, and the load failure is not modelled.
- Commons Configuration itself is not part of this model. Its reading of boolean literals is the parameter `toBoolean`, which answers `None` for a literal it rejects. Its interpolation of `${...}` references, keys given more than once and list-delimiter handling are left out. The store holds one uninterpreted string per key.
- The text of the `PropertyKeys` constants is not part of this model. The six keys are distinct constructors of `PropertyKey`.
- Exception classes and messages become the `Error` values `CountMismatch` (for `GeneratorPropertiesException`), `DuplicateKey` (for the `IllegalStateException` of `Collectors.toMap`) and `ConversionFailed`. The message text is not modelled.
- Java collection details are not modelled: hash-map ordering and the fixed-size list from `Arrays.asList`. Results are Dafny `map` and `seq` values.
- Java strings are sequences of UTF-16 code units; here a string is a sequence of Dafny `char`s (Unicode scalar values). Splitting on `,` gives the same pieces either way, since U+002C is a single code unit and never part of a surrogate pair.
- `String.split` takes a regular expression. Only the single literal separator used here is modelled.
