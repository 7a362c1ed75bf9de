# unicode-script lookup core in Dafny

This project models the lookup engine of `unicode-script`, a JavaScript
library. The library answers which Unicode script a character belongs to
(Unicode Standard Annex #24). Its generated data module (`scripts.js`) holds:

- a nested-array index `SCRIPTS`, descended with the level sizes in `OFFSETS`;
- an array of script names;
- an object of ISO 15924 aliases;
- a table of Script_Extensions overrides keyed by character.

The data module is not part of this model. It becomes a parameter, the
`Tables` datatype, so every property holds for every table. Properties that
need a well-formed table say so in their `requires` (`IndexWellFormed`,
`OverridesInRange`, `Aligned`, `OverridesNonEmpty`).

Modules:

- `Wrappers`: `Option` and `Result`. `None` stands for JavaScript's
  `undefined`, and `Failure` for a thrown error.
- `Collation`: the ordering `Array.prototype.sort` applies. This is strict
  lexicographic order on characters; the set built afterwards removes
  duplicates. It includes `SortUnique` and the uniqueness of sorted
  duplicate-free sequences.
- `ScriptTables`: the tables, and `SCRIPT_ALIASES_FLAT`, the alias keys with
  the private-use `Q…` codes filtered out.
- `ScriptIndex`: `unicodeScriptIndex`. It is a recursive definition
  (`Descend`) plus the loop of the source as a method. Its partner is the
  mixed-radix address the descent reads (`Address`, `Recompose`, `Walk`).
- `ScriptExtensions`: `unicodeScriptExtensionIndexes`.
- `Queries`: the exported queries (`unicodeScript`, `unicodeScriptCode`,
  `unicodeScripts`, `unicodeScriptCodes`, `unicodeScriptExtensions`,
  `unicodeScriptExtensionCodes`, `listUnicodeScripts`,
  `listUnicodeScriptCodes`) and the argument normalisation
  `codepointToChar`.
- `MixedScript`: the mixed-script detection of Unicode Technical Standard
  #39, section 5.1 (augmented sets, resolved sets, `isMixedScript`,
  `isSingleScript`). `src/index.js` does not define these functions. Only
  `test/unicode-script.test.js` uses them, so this layer follows the test
  expectations and UTS #39, not code.

## Model

| member | source | states |
|---|---|---|
| Collation.LessTransitive | src/index.js:110 | the order `sort` uses on script names is transitive |
| Collation.LessTotal | src/index.js:110 | any two distinct names are ordered one way or the other, so the sorted output is determined |
| Collation.SortUnique | src/index.js:110 | `new Set([...res].sort())` yields a sorted sequence holding exactly the elements of its input, none twice |
| Collation.SortedUnique | src/index.js:110 | two sorted duplicate-free sequences with the same elements are equal, so a set's sorted listing depends only on its contents |
| ScriptTables.FlatAliases | src/index.js:6-8 | the flat alias array holds exactly the alias keys that do not start with `Q`, and is no longer than the key list |
| ScriptTables.KeptPositionsSpec | src/index.js:6-8 | the kept positions are increasing, each holds a kept key, and every kept key's position is listed |
| ScriptTables.FlatAliasesAtKeptPositions | src/index.js:6-8 | entry `m` of the flat array is the key at the `m`-th kept position, so the filter preserves the keys' order |
| ScriptTables.FlatAliasesAppend | src/index.js:6-8 | filtering distributes over concatenation of key lists |
| ScriptTables.FlatAliasesKeepsUnfiltered | src/index.js:6-8 | a key list with no `Q` key passes through unchanged |
| ScriptTables.FlatAliasesIdempotent | src/index.js:6-8 | filtering twice is filtering once |
| ScriptIndex.ScriptIndexOf | src/index.js:27-38 | the index `unicodeScriptIndex` returns: `undefined` for a scalar root, otherwise the result of walking the index along the code point's mixed-radix address |
| ScriptIndex.UnicodeScriptIndex | src/index.js:27-38 | the loop over `OFFSETS` returns what the recursive descent `ScriptIndexOf` gives: the first scalar met, `undefined` past an array's end, or the final array's entry at the last remainder |
| ScriptIndex.TraceDivides | src/index.js:31-32 | each level takes the quotient by its offset as child and keeps a remainder below that offset, with child × offset + remainder equal to the previous remainder |
| ScriptIndex.AddressRecomposes | src/index.js:30-37 | the children and final remainder the descent reads are the mixed-radix digits of the code point: recomposing them gives the code point back |
| ScriptIndex.AddressInjective | src/index.js:30-37 | distinct code points address distinct positions of the index |
| ScriptIndex.AddressWalk | src/index.js:27-38 | the descent equals walking the index along the code point's address, stopping at the first scalar |
| ScriptIndex.LaterOffsetsUnread | src/index.js:33-35 | once the loop returns early at level `n`, offsets after `n` do not affect the result |
| ScriptIndex.ShapedResolves | src/index.js:27-38 | on an index whose arrays are long enough for their level, every value in range resolves to a script id below the bound, never `undefined` |
| ScriptIndex.ScriptIndexInRange | src/index.js:27-38 | on a well-formed index, every code point resolves to an id in `[0, bound)` |
| ScriptExtensions.CharExtension | src/index.js:49 | a character with an override list contributes exactly the ids of that list (even when it is empty); otherwise it contributes just its primary script index |
| ScriptExtensions.ExtensionIndexes | src/index.js:45-57 | an index is in the result exactly when some character of the string contributes it: its override list if it has one, otherwise its primary script index |
| ScriptExtensions.ExtensionIndexList | src/index.js:48-54 | the indexes in the order the `forEach` calls add them, with the same members as the set |
| ScriptExtensions.ExtensionIndexesAppend | src/index.js:45-57 | the indexes of two concatenated code-point sequences are the union of the parts' indexes |
| ScriptExtensions.ExtensionIndexesPermutation | src/index.js:45-57 | reordering the characters leaves the set of indexes unchanged |
| ScriptExtensions.ExtensionIndexesNonEmpty | src/index.js:49 | with non-empty override lists every character contributes an index, so the set is empty exactly for the empty string |
| ScriptExtensions.EmptyOverrideContributesNothing | src/index.js:49 | an empty override list is truthy, so it replaces the primary script and contributes nothing |
| Queries.CodepointToChar | src/index.js:14-20 | an integer in range becomes the one-character string of that code point, an integer out of range throws `RangeError`, and anything else passes unchanged |
| Queries.NameFor | src/index.js:75 | the result is never empty; it is the name entry when one is present and non-empty, and "Unknown" otherwise |
| Queries.CodeFor | src/index.js:93 | the result is never empty and never a `Q` code; it is the flat alias entry when present and non-empty, and "Zzzz" otherwise |
| Queries.UnicodeScript | src/index.js:66-76 | throws exactly for out-of-range integers; `undefined` exactly for a non-string, the primitive `""`, or a string or wrapper of two or more characters; otherwise the script name, and "Unknown" for an empty `String` wrapper that slips past the `=== ""` test |
| Queries.UnicodeScriptCode | src/index.js:84-94 | as `UnicodeScript`, with the ISO 15924 code |
| Queries.WrapperAgreesWithString | src/index.js:69-75 | a non-empty `String` wrapper gets the same answer as its primitive string; the empty one gets "Unknown" where `""` gets `undefined` |
| Queries.CodepointAgreesWithString | src/index.js:14-20 | a code point given as a number and as a one-character string get the same name and code |
| Queries.NameAndCodeAligned | src/index.js:75 | when names and flat aliases are aligned, a character with index `i` is named `names[i]` and coded `flat[i]` |
| Queries.UnicodeScripts | src/index.js:102-111 | sorted, and a name is listed exactly when some character of the string has that script name |
| Queries.UnicodeScriptCodes | src/index.js:119-128 | sorted, and a code is listed exactly when some character of the string has that code |
| Queries.UnicodeScriptsOfEmpty | src/index.js:102-111 | the empty string uses no script |
| Queries.UnicodeScriptsPermutation | src/index.js:102-128 | any reordering of the characters gives the same names and codes |
| Queries.UnicodeScriptsAppend | src/index.js:102-111 | the names of two concatenated code-point sequences are the sorted union of the parts' names |
| Queries.NameAt | src/index.js:140 | `SCRIPT_NAMES[x]` without fallback: a defined value is a listed name, and agrees with the lookup that falls back to "Unknown" except where that fallback fires |
| Queries.CodeAt | src/index.js:155 | `SCRIPT_ALIASES_FLAT[x]` without fallback: a defined value is a kept alias, and agrees with the lookup that falls back to "Zzzz" except where that fallback fires |
| Queries.Emit | src/index.js:138-142 | the set lists the defined values sorted without repeats, then `undefined` last exactly when some value was `undefined` |
| Queries.UnicodeScriptExtensions | src/index.js:137-143 | sorted names of the extension indexes, with no "Unknown" fallback; `undefined` appears last exactly when some index has no name entry |
| Queries.UnicodeScriptExtensionCodes | src/index.js:152-158 | as above, with flat alias entries and no "Zzzz" fallback |
| Queries.UnicodeScriptExtensionsAppend | src/index.js:137-143 | the extension names of two concatenated code-point sequences are the sorted union of the parts' names, and the trailing `undefined` appears when either part has one |
| Queries.UnicodeScriptExtensionCodesAppend | src/index.js:152-158 | the extension codes of two concatenated code-point sequences are the sorted union of the parts' codes, and the trailing `undefined` appears when either part has one |
| Queries.UnicodeScriptExtensionsOfEmpty | src/index.js:137-158 | the empty string yields an empty set |
| Queries.ExtensionNamesDefined | src/index.js:137-143 | on a well-formed index whose overrides name existing scripts, no extension name is `undefined` |
| Queries.ExtensionOfPlainScalar | src/index.js:49 | a character without an override, whose name entry is present, has its script name as its only extension |
| Queries.ExtensionOfNamelessScalar | src/index.js:75 | an index with no name entry shows as `undefined` in the extension query but as "Unknown" in `unicodeScript` |
| Queries.ListUnicodeScripts | src/index.js:165-167 | sorted, and holds exactly the script names and "Unknown" |
| Queries.ListUnicodeScriptCodes | src/index.js:174-176 | sorted, and holds exactly the flat aliases and "Zzzz" |
| Queries.QueriesAreListed | src/index.js:102-176 | every name or code a per-string query returns appears in the corresponding full listing |
| Queries.ListedCodesExcludeQ | src/index.js:6-8 | no listed code is a private-use `Q` code |
| MixedScript.ListUnicodeAugmentedScriptCodes | test/unicode-script.test.js:82-88 | lists exactly Hanb, Jpan and Kore, sorted |
| MixedScript.KnownCodesAreListed | test/unicode-script.test.js:165-172 | the non-composite part of the augmented universe is exactly what `listUnicodeScriptCodes` returns |
| MixedScript.Extras | test/unicode-script.test.js:158-163 | the UTS #39 rules: Hanb when Hani or Bopo is present, Jpan when Hani, Hira or Kana is, Kore when Hani or Hang is |
| MixedScript.Augment | test/unicode-script.test.js:158-173 | Common or Inherited widen the set to the whole augmented universe; otherwise the set keeps its codes and gains exactly the composite codes the rules give |
| MixedScript.AugmentIdempotent | test/unicode-script.test.js:158-173 | augmenting an augmented set adds nothing |
| MixedScript.AugmentMonotone | test/unicode-script.test.js:158-173 | a larger set of codes augments to a larger set |
| MixedScript.ExtrasIgnoreSynthetic | test/unicode-script.test.js:158-173 | adding composite codes neither fires a rule nor creates a wildcard |
| MixedScript.ExtensionCodeSet | test/unicode-script.test.js:158-163 | the codes of a string's extension indexes are all known codes |
| MixedScript.AugmentedScriptCodes | test/unicode-script.test.js:158-173 | the augmented set of a string stays within the augmented universe |
| MixedScript.ScalarCodesAgree | test/unicode-script.test.js:175-188 | the per-character set used by the resolution is the augmented set of that one-character string |
| MixedScript.KanaAugmentation | test/unicode-script.test.js:160-162 | {Hira, Kana} augments to {Hira, Kana, Jpan}, as for "ねガ" |
| MixedScript.PlainScalar | test/unicode-script.test.js:177 | a character whose only code is plain (not a wildcard or rule trigger) keeps exactly that code |
| MixedScript.IntersectAllMembership | test/unicode-script.test.js:175-188 | a code survives the intersection fold exactly when it is in the universe and in every set |
| MixedScript.IntersectAllAppend | test/unicode-script.test.js:175-188 | the fold over a concatenation is the intersection of the folds |
| MixedScript.ResolvedScriptCodes | test/unicode-script.test.js:175-188 | the intersection of the augmented universe with each character's augmented set, which stays within the universe |
| MixedScript.ResolvedMembership | test/unicode-script.test.js:175-188 | a code is resolved exactly when it is in the augmented universe and in the augmented set of every character |
| MixedScript.ResolveScriptCodes | test/unicode-script.test.js:175-188 | the loop that stops once the set is empty returns the full intersection |
| MixedScript.ResolvedOfEmpty | test/unicode-script.test.js:181-186 | the fold starts from the whole augmented universe, so the empty string resolves to it and is single-script; the all-Common string at these lines keeps that start, as `NeutralScalar` shows |
| MixedScript.ResolvedAppend | test/unicode-script.test.js:175-188 | the resolved set of two concatenated code-point sequences is the intersection of the parts' resolved sets |
| MixedScript.NeutralScalar | test/unicode-script.test.js:165-172 | a Common or Inherited character augments to the universe and leaves the resolved set of any string unchanged |
| MixedScript.IsMixedScript | test/unicode-script.test.js:190-198 | a string is mixed exactly when no code of the augmented universe is in the augmented set of every character |
| MixedScript.IsSingleScript | test/unicode-script.test.js:200-207 | a string is single-script exactly when some code of the augmented universe is in the augmented set of every character |
| MixedScript.MixedIsPreserved | test/unicode-script.test.js:190-198 | a mixed code-point sequence stays mixed when any sequence is put before or after it |
| MixedScript.ScalarIsSingleScript | test/unicode-script.test.js:200-207 | with non-empty override lists, every one-character string is single-script |
| MixedScript.DisjointPairEmpties | test/unicode-script.test.js:179 | two disjoint sets in the fold empty the result |
| MixedScript.LatinCyrillicIsMixed | test/unicode-script.test.js:179 | a string with a character whose augmented set is {Latn} and one whose set is {Cyrl}, as in "Сirсlе", is mixed |

## Left out

- The data module `scripts.js` (generated tables) is not part of this model. It is a parameter, and table facts appear as `requires` only where a property depends on them.
- UTF-16: strings are modelled as sequences of code points, which is what `[...string]` and `codePointAt(0)` see. Lone surrogates are code points like any other. String length and indexing in UTF-16 units are not modelled.
- Non-integer numbers, `null`, objects other than `String` wrappers and other argument kinds are one case, `Value.Other`, which both single-character queries map to `undefined`. A `String` wrapper object is its own case, `Value.StrObject`, because the guard treats an empty wrapper differently from `""`.
- `Array.prototype.sort` compares UTF-16 code units. `Less` compares code points. The two orders differ only for strings mixing characters above U+FFFF with characters in U+E000..U+FFFF. Script names and codes are ASCII.
- JavaScript `Set` iteration order is modelled as the sorted sequence the source inserts in (`seq<string>`, or `Listing` when `undefined` may occur). The set objects themselves are not modelled.
- ScriptExtensions.ExtensionIndexes: returns a Dafny set, not an insertion-ordered `Set`. The order is kept separately in `ExtensionIndexList`.
- Property order of `Object.keys` (integer-like keys first) is not modelled. `aliasKeys` is the key list in whatever order the engine yields it.
- Array holes and non-integer entries in `SCRIPTS` are not modelled. A node is a script index or an array.
- ScriptIndex.Descend: when the position read after the last offset holds an array, the model returns `None`. The source returns that array itself, and a later `SCRIPT_NAMES[...]` lookup turns it into a property key (`[3]` reads entry 3). The generated data never has that shape.
- Non-positive and fractional `OFFSETS` entries cannot be expressed: `Divisor` is a positive integer. With a zero entry the source divides to `Infinity` or `NaN`, indexes at that key and returns `undefined`. With a negative entry and a positive remainder the quotient is negative, so the source also returns `undefined`. With a negative entry and a remainder of 0 the quotient is `-0`, which reads entry 0, and the descent goes on with remainder 0. A fractional entry can leave a non-integer remainder; inner levels still index at `Math.floor(rem / d)`, and the final read at `src/index.js:37` then uses a non-integer key and gives `undefined`.
- `+` on code-point sequences is not JavaScript string concatenation at one seam: when the left part ends in a high surrogate (U+D800..U+DBFF) and the right part starts with a low surrogate (U+DC00..U+DFFF), the joined string holds one supplementary character where the sequences hold two. `ScriptExtensions.ExtensionIndexesAppend`, `Queries.UnicodeScriptsAppend`, `Queries.UnicodeScriptExtensionsAppend`, `Queries.UnicodeScriptExtensionCodesAppend`, `MixedScript.ResolvedAppend` and `MixedScript.MixedIsPreserved` are stated for sequences, so they do not cover that seam. For example, `"\uD83D"` and `"\uDE00"` each have script Unknown, but together they form U+1F600, which is Common. Likewise `"a\uD83D"` is mixed, but appending `"\uDE00"` gives `"a😀"`, which is not.
- A root `SCRIPTS` that is a number yields `undefined` (`None`), as indexing a number does in JavaScript. The generated data module never has that shape.
- The mixed-script functions (`unicodeAugmentedScriptCodes`, `unicodeResolvedScriptCodes`, `isMixedScript`, `isSingleScript`, `listUnicodeAugmentedScriptCodes`) are not in `src/index.js`. They are modelled from the test expectations and UTS #39.
- MixedScript.AugmentedScriptCodes: for a string of several characters, this is taken to be the augmentation of the union of the characters' codes. The tests fix it only for one character and for "ねガ".
- MixedScript.LatinCyrillicIsMixed: stated over augmented sets of characters, not over the concrete characters of "Сirсlе". Their script assignments live in the data module.
- The other concrete test expectations (the exact extension sets of "॥", "Tai_Yo" for U+1E6C0, and so on) depend on the data module and are not stated.
