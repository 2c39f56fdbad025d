# Global.Common key-collision toolkit, in Dafny

This project models the core of the Global.Common library. At its centre are the
`IDictionaryExtensions` methods. They insert into and merge into a dictionary
whose keys are unique and whose enumeration order is insertion order. Each
method follows one of three policies, `KeyExistAction` (`TryAdd`, `Update`,
`Rename`):

- **Single inserts:** `AddOrUpdate`, `TryAddOrUpdate`, `Add`, and the
  rename-with-retry loop `AddOrRenameKey`.
- **Bulk merges:** `TryAddRange`, `TryAddRangeOrUpdate` and `JoinMany`.
- **Positional slices:** `GetRange` and `SkipFirst`.
- **Case-insensitive key filters:** the `TryGetIf*` methods.
- **Clones:** `SelfShadowCloneOf` and `ShadowClone`.

Beside it sit smaller pieces of the same library:

- the list operations of `IListExtensions`;
- `JoinAll` and `ForEach` of `IEnumerableExtensions`;
- the hexadecimal codec of `HexHelper` and `StringExtensions.HexToBytes`;
- the deterministic string helpers of `StringExtensions`;
- the exception-chain folds of `ExceptionExtensions`.

The project has one Dafny module per source file, plus two shared modules:

- `Common` holds `Option`, `Result`, the exceptions as error values, and `byte`.
- `OrderedDictionary` holds the mutable `Dictionary` class. Its `entries` field
  is a sequence of distinct-key pairs. A new key is appended, an update
  overwrites the value in place, and `Clear` empties it.

Methods that change a dictionary or a list update a class instance under
`modifies`. Each one is specified against a function of the old state, such as
`Put`, `PutAll`, `RenamedKey`, `PlaceFrom`, `JoinSources`, `Selection`,
`Mapped` or `Swapped`. Lemmas about those functions state what the library
promises.

Preconditions such as `d.Valid()` and distinct keys in a range argument are
what a .NET `Dictionary` guarantees by construction. An exception the library
throws is an `Err`/`Fail` result carrying the parameter name the source
passes.

## Model

| member | source | states |
|---|---|---|
| OrderedDictionary.IndexOf | Global.Common/Extensions/IDictionaryExtensions.cs:52 | the lookup behind `dictionary[key]`: a position holding `key` exactly when the key is present, -1 otherwise |
| OrderedDictionary.PutSpec | Global.Common/Extensions/IDictionaryExtensions.cs:52-55 | storing under a key keeps keys distinct and stores the pair; a present key keeps its position and every other entry is untouched; an absent key is appended after the unchanged entries |
| OrderedDictionary.AppendKeepsDistinct | Global.Common/Extensions/IDictionaryExtensions.cs:196-203 | adding an absent key keeps the keys unique |
| OrderedDictionary.Dictionary.constructor | Global.Common/Extensions/IDictionaryExtensions.cs:328 | a new dictionary is empty |
| OrderedDictionary.Dictionary.Copy | Global.Common/Extensions/IDictionaryExtensions.cs:518 | a dictionary built from a source holds the source's entries in the source's order |
| OrderedDictionary.Dictionary.Add | Global.Common/Extensions/IDictionaryExtensions.cs:159 | adding an absent key appends exactly that entry and nothing else |
| OrderedDictionary.Dictionary.TryAdd | Global.Common/Extensions/IDictionaryExtensions.cs:196-203 | `TryAdd` reports success exactly for an absent key; it then appends the entry, and otherwise changes nothing |
| OrderedDictionary.Dictionary.SetItem | Global.Common/Extensions/IDictionaryExtensions.cs:52-55 | the indexer setter leaves the entries as `Put` describes |
| OrderedDictionary.Dictionary.Clear | Global.Common/Extensions/IDictionaryExtensions.cs:499 | clearing leaves no entries |
| DictionaryExtensions.AddOrUpdate | Global.Common/Extensions/IDictionaryExtensions.cs:44-56 | absent key: one entry appended; present key: only that key's value replaced, in place (through `PutSpec`) |
| DictionaryExtensions.TryAddOrUpdate | Global.Common/Extensions/IDictionaryExtensions.cs:69-87 | answers false exactly when the key is present and updating is off, and then changes nothing; otherwise it stores the value |
| DictionaryExtensions.TryPutSpec | Global.Common/Extensions/IDictionaryExtensions.cs:78-86 | the conditional store keeps keys distinct, is a no-op on a present key without update, stores the pair otherwise, and appends an absent key |
| DictionaryExtensions.NatToString | Global.Common/Extensions/IDictionaryExtensions.cs:165 | the decimal text of a tick count is never empty |
| DictionaryExtensions.IntToString | Global.Common/Extensions/IDictionaryExtensions.cs:165 | the text of a signed tick count is never empty |
| DictionaryExtensions.EffectiveSuffix | Global.Common/Extensions/IDictionaryExtensions.cs:151-152 | a null or empty suffix becomes `"_RenamedKey"`; any other suffix is kept |
| DictionaryExtensions.CandidateStep | Global.Common/Extensions/IDictionaryExtensions.cs:164-165 | each retry's candidate key extends the previous one, strictly when the suffix is non-empty |
| DictionaryExtensions.CandidatesExtend | Global.Common/Extensions/IDictionaryExtensions.cs:154-167 | every later candidate extends every earlier one, strictly for a non-empty suffix, so no candidate is tried twice |
| DictionaryExtensions.CandidateExtendsKey | Global.Common/Extensions/IDictionaryExtensions.cs:154-167 | every candidate key starts with the original key |
| DictionaryExtensions.FirstFreeStep | Global.Common/Extensions/IDictionaryExtensions.cs:157-167 | one turn of the retry loop: a free candidate is the answer, and a taken one passes on to the next candidate |
| DictionaryExtensions.FirstFreeMeaning | Global.Common/Extensions/IDictionaryExtensions.cs:154-170 | the candidate search finds nothing exactly when every candidate in the window is taken; otherwise it finds a free candidate with all earlier ones taken |
| DictionaryExtensions.RenamedKeySpec | Global.Common/Extensions/IDictionaryExtensions.cs:149-170 | renaming gives up exactly when all `retryAttempts + 1` candidates are taken; otherwise the key is absent, starts with the original key, and is the first free candidate |
| DictionaryExtensions.OneRetryBothTakenFails | Global.Common/Extensions/IDictionaryExtensions.cs:149-170 | with one retry and both `key` and `key + "_RenamedKey"` present, renaming fails |
| DictionaryExtensions.FirstCollisionAppendsSuffix | Global.Common/Extensions/IDictionaryExtensions.cs:154-167 | when only `key` is taken, the added key is `key + "_RenamedKey"` |
| DictionaryExtensions.AddOrRenameKey | Global.Common/Extensions/IDictionaryExtensions.cs:139-171 | `retryAttempts < 1` throws before any change; otherwise the result is the renamed key, one entry is added under it, and on exhaustion nothing changes |
| DictionaryExtensions.AddUnderFirstFreeKey | Global.Common/Extensions/IDictionaryExtensions.cs:154-170 | the do-while loop adds the value under `RenamedKey`'s answer, or changes nothing when that answer is none |
| DictionaryExtensions.AddOrRenameKeyValue | Global.Common/Extensions/IDictionaryExtensions.cs:105-120 | the value-returning overload throws for `retryAttempts < 1` and otherwise returns the renamed key (null on exhaustion), with the same change to the dictionary |
| DictionaryExtensions.Add | Global.Common/Extensions/IDictionaryExtensions.cs:184-214 | TryAdd: added exactly for an absent key, `addedKey` null otherwise, no change then; Update: always added under `key`; Rename: added exactly when a renamed key was found, one entry added under it |
| DictionaryExtensions.PutAllKeepsDistinct | Global.Common/Extensions/IDictionaryExtensions.cs:295-298 | merging a range entry by entry keeps the keys unique |
| DictionaryExtensions.HasKeyOfPrefix | Global.Common/Extensions/IDictionaryExtensions.cs:290-293 | a key of a leading part of the range is a key of the range |
| DictionaryExtensions.LastKeyIsNew | Global.Common/Extensions/IDictionaryExtensions.cs:290-298 | when nothing collides, the last range key is absent from the target extended by the earlier range entries |
| DictionaryExtensions.PutAllWithoutCollision | Global.Common/Extensions/IDictionaryExtensions.cs:290-298 | a range with no colliding key is appended as is, in order |
| DictionaryExtensions.PutAllKeepsPositions | Global.Common/Extensions/IDictionaryExtensions.cs:295-298 | merging with update keeps every original key at its position and appends only range keys |
| DictionaryExtensions.PutAllLeavesOthers | Global.Common/Extensions/IDictionaryExtensions.cs:295-298 | original entries whose key is not in the range are untouched |
| DictionaryExtensions.PutAllStoresRange | Global.Common/Extensions/IDictionaryExtensions.cs:295-298 | after merging with update, every range key maps to its range value |
| DictionaryExtensions.TryAddRangeOrUpdate | Global.Common/Extensions/IDictionaryExtensions.cs:278-302 | null range: false, no change; without update, any collision: false, no change; otherwise true and the range merged in order |
| DictionaryExtensions.RenamePickerPicksFreshExtensions | Global.Common/Extensions/IDictionaryExtensions.cs:252-256 | every key the Rename path picks for a range entry is absent from the target and starts with the entry's key |
| DictionaryExtensions.PlaceFromCommitsPrefix | Global.Common/Extensions/IDictionaryExtensions.cs:252-256 | the per-entry loop keeps the target's entries in front, appends placed entries in order with their values and key-prefixed keys, keeps keys unique, and succeeds exactly when every entry was placed |
| DictionaryExtensions.PlaceFromStopsAtUnplaceable | Global.Common/Extensions/IDictionaryExtensions.cs:252-256 | a failed loop stopped at an entry that could not be placed, with the earlier entries committed |
| DictionaryExtensions.TryAddRange | Global.Common/Extensions/IDictionaryExtensions.cs:234-263 | null range: false; empty range: true, no change; TryAdd and Update: atomic merges; Rename: entries placed in order until the first unplaceable one, earlier placements kept |
| DictionaryExtensions.GetRange | Global.Common/Extensions/IDictionaryExtensions.cs:317-343 | errors for a negative index, a negative count, an index at or past the end (even with count 0) and a count past the end; otherwise exactly the entries at `[index, index + count)` in order |
| DictionaryExtensions.SkipFirst | Global.Common/Extensions/IDictionaryExtensions.cs:547-559 | errors for a negative count or one past the size; otherwise the entries from that position on, empty when it equals the size |
| DictionaryExtensions.ThrowIfNull | Global.Common/Extensions/IDictionaryExtensions.cs:367 | the null guard throws `ArgumentNullException` with the given name exactly for null |
| DictionaryExtensions.NullSourceGuardNeverThrows | Global.Common/Extensions/IDictionaryExtensions.cs:371-372 | the guard as written checks a string literal, so it never throws |
| DictionaryExtensions.CheckedNullSourceGuardThrows | Global.Common/Extensions/IDictionaryExtensions.cs:371-372 | the intended guard throws exactly for a null source when nulls are not allowed |
| DictionaryExtensions.FirstNull | Global.Common/Extensions/IDictionaryExtensions.cs:369-372 | the position of the first null source, or the number of sources |
| DictionaryExtensions.JoinSourcesAppend | Global.Common/Extensions/IDictionaryExtensions.cs:369-375 | sources are merged one after the other, in order |
| DictionaryExtensions.JoinSkipsNullSource | Global.Common/Extensions/IDictionaryExtensions.cs:369-375 | a null source anywhere is a no-op |
| DictionaryExtensions.JoinSkipsCollidingSource | Global.Common/Extensions/IDictionaryExtensions.cs:369-375 | without update, a source colliding with the current target is skipped whole, and later sources still merge |
| DictionaryExtensions.JoinSourcesKeepsDistinct | Global.Common/Extensions/IDictionaryExtensions.cs:369-375 | joining keeps the keys unique |
| DictionaryExtensions.JoinMany | Global.Common/Extensions/IDictionaryExtensions.cs:360-376 | a null list throws; otherwise it never throws and merges every source in order, as written |
| DictionaryExtensions.JoinManyChecked | Global.Common/Extensions/IDictionaryExtensions.cs:360-376 | with the corrected guard, a disallowed null source throws after the sources before it merged; otherwise all sources merge |
| DictionaryExtensions.SelectionMeaning | Global.Common/Extensions/IDictionaryExtensions.cs:393-409 | an entry is selected exactly when it is in the dictionary, its key is not ignored and it passes the containment test |
| DictionaryExtensions.SelectionOfConcat | Global.Common/Extensions/IDictionaryExtensions.cs:404-406 | selection goes entry by entry in dictionary order |
| DictionaryExtensions.SelectionKeepsDistinct | Global.Common/Extensions/IDictionaryExtensions.cs:402-406 | the result is a dictionary: keys unique |
| DictionaryExtensions.SelectEntries | Global.Common/Extensions/IDictionaryExtensions.cs:393-409 | the foreach builds exactly the selection, and `found` holds exactly when it is non-empty |
| DictionaryExtensions.TryGetIfPatternContainsKey | Global.Common/Extensions/IDictionaryExtensions.cs:393-409 | entries whose key is not ignored and occurs in the pattern, ignoring case, in order; `found` iff non-empty |
| DictionaryExtensions.TryGetIfPatternContainsKeyAll | Global.Common/Extensions/IDictionaryExtensions.cs:421-429 | the overload without ignore list selects every entry whose key occurs in the pattern |
| DictionaryExtensions.TryGetIfKeyContainsPattern | Global.Common/Extensions/IDictionaryExtensions.cs:442-458 | entries whose key is not ignored and contains the pattern, ignoring case, in order; `found` iff non-empty |
| DictionaryExtensions.TryGetIfKeyContainsPatternAll | Global.Common/Extensions/IDictionaryExtensions.cs:470-478 | the overload without ignore list selects every entry whose key contains the pattern |
| DictionaryExtensions.SelfShadowCloneOf | Global.Common/Extensions/IDictionaryExtensions.cs:493-504 | the target ends up holding the source's entries in order; a null source, or the target itself, leaves it empty |
| DictionaryExtensions.ShadowClone | Global.Common/Extensions/IDictionaryExtensions.cs:514-519 | a fresh dictionary with the same entries in the same order |
| ListExtensions.List.constructor | Global.Common/Extensions/IListExtensions.cs:18 | a list holds the given elements |
| ListExtensions.List.Set | Global.Common/Extensions/IListExtensions.cs:67 | the indexer setter changes exactly one slot |
| ListExtensions.List.Add | Global.Common/Extensions/IListExtensions.cs:93 | `Add` appends one element |
| ListExtensions.SwappedPermutes | Global.Common/Extensions/IListExtensions.cs:25-27 | a swap exchanges the two slots, leaves the others and the length alone, and permutes the elements |
| ListExtensions.SwappedIsInvolution | Global.Common/Extensions/IListExtensions.cs:25-27 | swapping twice restores the list |
| ListExtensions.Swap | Global.Common/Extensions/IListExtensions.cs:18-28 | answers true exactly when `0 <= sourceIndex < destIndex < Count` and then swaps; otherwise the list is unchanged |
| ListExtensions.Mapped | Global.Common/Extensions/IListExtensions.cs:61-68 | transforming keeps the length |
| ListExtensions.MappedTwice | Global.Common/Extensions/IListExtensions.cs:61-68 | two transforms are the transform by the composition |
| ListExtensions.ToLowerAllIsIdempotent | Global.Common/Extensions/IListExtensions.cs:35-40 | lower-casing a list twice equals lower-casing it once |
| ListExtensions.TransformAll | Global.Common/Extensions/IListExtensions.cs:61-68 | every element is replaced by its image, in place |
| ListExtensions.ToLower | Global.Common/Extensions/IListExtensions.cs:35-40 | TransformAll with lower-casing |
| ListExtensions.ToUpper | Global.Common/Extensions/IListExtensions.cs:47-52 | TransformAll with upper-casing |
| ListExtensions.CopyToCheck | Global.Common/Extensions/IListExtensions.cs:86-89 | the argument checks pass exactly when `0 <= index < Count` and `0 <= count <= Count - index` |
| ListExtensions.CopyTo | Global.Common/Extensions/IListExtensions.cs:81-94 | on failed checks the destination is unchanged; otherwise `list[index..index+count]` is appended to it in order |
| EnumerableExtensions.ForEach | Global.Common/Extensions/IEnumerableExtensions.cs:16-23 | the action is applied to every element in order |
| EnumerableExtensions.AppliedVisitsEachOnceInOrder | Global.Common/Extensions/IEnumerableExtensions.cs:21-22 | a recording action sees exactly the elements, each once, in order |
| EnumerableExtensions.JoinedLength | Global.Common/Extensions/IEnumerableExtensions.cs:39-48 | `n` joined elements hold exactly `n - 1` separators and nothing else |
| EnumerableExtensions.JoinedCons | Global.Common/Extensions/IEnumerableExtensions.cs:39-48 | a join is the first element, the separator, then the join of the rest |
| EnumerableExtensions.JoinAll | Global.Common/Extensions/IEnumerableExtensions.cs:32-49 | null for no elements, the element itself for one, otherwise the elements with the separator between neighbours |
| HexHelper.ConvertByteToHex | Global.Common/Helpers/HexHelper.cs:15-24 | the builder loop produces the hexadecimal text of the bytes |
| HexHelper.SafeConvertByteToHex | Global.Common/Helpers/HexHelper.cs:31-40 | null exactly for null input, otherwise the same text, twice as long as the input |
| HexHelper.ConvertHexToBytes | Global.Common/Helpers/HexHelper.cs:47-52 | exactly `HexToBytes` |
| HexHelper.HexLayout | Global.Common/Helpers/HexHelper.cs:19-23 | two characters per byte, high nibble first, in byte order |
| HexHelper.HexIsLowerCase | Global.Common/Helpers/HexHelper.cs:20-21 | the text uses only `0-9` and `a-f` |
| HexHelper.HexValueOfDigit | Global.Common/Helpers/HexHelper.cs:20-21 | each written digit reads back as its value |
| HexHelper.DigitOfHexValue | Global.Common/Helpers/HexHelper.cs:20-21 | re-writing a read digit gives its lower-case form |
| HexHelper.PairValueNibbles | Global.Common/Extensions/StringExtensions.cs:47 | a two-digit pair gives the first digit's value as the high nibble and the second's as the low nibble |
| HexHelper.ByteDigitsValue | Global.Common/Helpers/HexHelper.cs:20-21 | the two digits of a byte read back as that byte |
| HexHelper.RoundTrip | Global.Common/Helpers/HexHelper.cs:15-52 | decoding the text of any byte array gives the array back |
| HexHelper.DecodeThenEncode | Global.Common/Helpers/HexHelper.cs:15-52 | encoding what a hexadecimal string decodes to gives the string back, lower-cased |
| StringExtensions.ToUpper | Global.Common/Extensions/StringExtensions.cs:326-328 | upper-casing maps every character and keeps the length |
| StringExtensions.ToLower | Global.Common/Extensions/StringExtensions.cs:328 | lower-casing maps every character and keeps the length |
| StringExtensions.IndexOfIgnoreCase | Global.Common/Extensions/StringExtensions.cs:478 | the first position where the value occurs, ignoring case, or -1 exactly when it occurs nowhere |
| StringExtensions.IgnoreCaseContains | Global.Common/Extensions/StringExtensions.cs:473-479 | holds exactly when the value occurs somewhere, ignoring case; the empty value is always contained |
| StringExtensions.IgnoreCaseEquals | Global.Common/Extensions/StringExtensions.cs:488-494 | containment plus equal length is exactly case-insensitive equality |
| StringExtensions.IndexOfChar | Global.Common/Extensions/StringExtensions.cs:507 | the first position of the character, or -1 exactly when it is absent |
| StringExtensions.GetLeftOfMark | Global.Common/Extensions/StringExtensions.cs:503-511 | a prefix without the mark, stopping at the first mark; the whole string when there is no mark |
| StringExtensions.DigitsOfConcat | Global.Common/Extensions/StringExtensions.cs:540-542 | collecting digits goes character by character |
| StringExtensions.DigitsAreTheDigitCharacters | Global.Common/Extensions/StringExtensions.cs:540-542 | only digits are kept, all of them from an all-digit string, none from a digit-free one |
| StringExtensions.LeadingDigitsIsLongestDigitPrefix | Global.Common/Extensions/StringExtensions.cs:540-545 | the early-return result is exactly the longest all-digit prefix |
| StringExtensions.ExtractNumbers | Global.Common/Extensions/StringExtensions.cs:533-548 | all digits in order with `completeToEnd`, otherwise the leading run of digits |
| StringExtensions.CapitalizeCase | Global.Common/Extensions/StringExtensions.cs:321-329 | empty input throws; otherwise the same length, first character upper-cased, the rest lower-cased |
| StringExtensions.WrapInSingleQuotationMarks | Global.Common/Extensions/StringExtensions.cs:601-606 | the input between two single quotation marks |
| StringExtensions.SplitOn | Global.Common/Extensions/StringExtensions.cs:151 | splitting yields at least one piece |
| StringExtensions.SplitOnStep | Global.Common/Extensions/StringExtensions.cs:151 | the first piece ends at the first separator and the rest split on |
| StringExtensions.SplitOnCount | Global.Common/Extensions/StringExtensions.cs:151 | one piece more than there are separators |
| StringExtensions.SplitOnPiecesAreFree | Global.Common/Extensions/StringExtensions.cs:151 | no piece holds the separator |
| StringExtensions.SplitOnJoinRoundTrip | Global.Common/Extensions/StringExtensions.cs:151 | joining the pieces with the separator gives back the input |
| StringExtensions.LeadingWhiteSpace | Global.Common/Extensions/StringExtensions.cs:154 | the length of the white-space run at the front |
| StringExtensions.TrailingWhiteSpace | Global.Common/Extensions/StringExtensions.cs:154 | the length of the white-space run at the back |
| StringExtensions.Trim | Global.Common/Extensions/StringExtensions.cs:154 | the trimmed piece neither starts nor ends with white space; an all-white piece trims to empty |
| StringExtensions.SplitToList | Global.Common/Extensions/StringExtensions.cs:144-157 | as many entries as pieces, each piece trimmed when asked |
| StringExtensions.SplitTrimToList | Global.Common/Extensions/StringExtensions.cs:129-134 | one trimmed entry per piece, one more than there are separators |
| StringExtensions.SemicolonSeparetedToList | Global.Common/Extensions/StringExtensions.cs:115-120 | one more entry than semicolons, none holding a semicolon, and joined with `;` they give the input back |
| StringExtensions.HexValue | Global.Common/Extensions/StringExtensions.cs:47 | a hexadecimal digit's value is below 16 |
| StringExtensions.DecodeHexMeaning | Global.Common/Extensions/StringExtensions.cs:40-50 | decoding succeeds exactly on an even number of hexadecimal digits and gives `|s|/2` bytes, byte `j` from characters `2j` and `2j+1`; an odd length is out of range |
| StringExtensions.DecodeHexFrom | Global.Common/Extensions/StringExtensions.cs:46-47 | one step of the loop: a lone last character is out of range, a bad pair a format error, a good pair one byte |
| StringExtensions.PrependTwice | Global.Common/Extensions/StringExtensions.cs:46-47 | bytes written so far stay in front of later ones |
| StringExtensions.HexToBytes | Global.Common/Extensions/StringExtensions.cs:40-50 | the stepped loop computes the decoding, errors included |
| ExceptionExtensions.Chain | Global.Common/Extensions/ExceptionExtensions.cs:67-72 | the walk starts at the exception itself |
| ExceptionExtensions.ChainLinks | Global.Common/Extensions/ExceptionExtensions.cs:67-72 | each visited exception is followed by its inner exception, and the walk ends at one without an inner exception |
| ExceptionExtensions.GatheredSnoc | Global.Common/Extensions/ExceptionExtensions.cs:65-74 | each visited exception adds its separator then its value at the end |
| ExceptionExtensions.GatheredAppend | Global.Common/Extensions/ExceptionExtensions.cs:65-74 | the text of a chain is the texts of its parts in order |
| ExceptionExtensions.GetDefaultSeparatorFunc | Global.Common/Extensions/ExceptionExtensions.cs:85-88 | the default separator is the type name in parentheses, then `" --> "` |
| ExceptionExtensions.GetFromExceptionHierarchy | Global.Common/Extensions/ExceptionExtensions.cs:53-75 | the while loop gathers separator and value over the whole chain, with the default separator when none is given |
| ExceptionExtensions.GetAllMessagesFromExceptionHierarchy | Global.Common/Extensions/ExceptionExtensions.cs:16-25 | the fold with the message extractor |
| ExceptionExtensions.GetAllStackTracesFromExceptionHierarchy | Global.Common/Extensions/ExceptionExtensions.cs:34-43 | the fold with the stack-trace extractor; a null trace adds only its separator |
| ExceptionExtensions.TwoLevelChain | Global.Common/Extensions/ExceptionExtensions.cs:65-74 | for one inner exception the text is `sep(outer) + f(outer) + sep(inner) + f(inner)` |
| ExceptionExtensions.GatheredUnfolds | Global.Common/Extensions/ExceptionExtensions.cs:67-72 | the text is the outer exception's piece followed by the text of its inner chain |

## Left out

- Null receivers and null required arguments (the `AssertHelper` guards) are excluded by non-null parameter types. The null arguments the code handles on its own terms are modelled as `Option`: a range, a source, the list of sources, a suffix, ignore keys, a byte array and a separator function.
- `KeyExistAction` is a three-constructor datatype, so the `InvalidOperationException` branches for an undefined value (IDictionaryExtensions.cs:211-212 and 257-258) cannot be reached.
- `Environment.TickCount` is an injected oracle rather than a clock. `AddOrRenameKey` reads `tick(n)` at retry `n`. The Rename path of `TryAddRange` reads `tick(i)(n)` for entry `i`.
- DictionaryExtensions.GetRange: does not model 32-bit wrap-around. `index + 1` with `index = int.MaxValue` overflows and reports the error under `count` instead of `index`. Unbounded integers report `index`.
- DictionaryExtensions.AddOrRenameKey: `retryAttempts + 1` with `retryAttempts = int.MaxValue` wraps in C#. The loop still makes the same number of attempts, so only the unbounded count is modelled.
- Range and source arguments are values. If a range is the target dictionary itself, mutating it during enumeration would throw in .NET; that aliasing is not modelled.
- The dictionaries that `GetRange`, `SkipFirst` and the `TryGetIf*` methods return are modelled as their entry sequences.
- DictionaryExtensions.TryAddRange: the Rename path is stated through the generic placement loop `PlaceFrom`. The facts about the keys it picks are in `RenamePickerPicksFreshExtensions`, `PlaceFromCommitsPrefix` and `PlaceFromStopsAtUnplaceable`, not in the method's own contract.
- `ReadOnlyShadowClone` (IDictionaryExtensions.cs:529-534) returns a live read-only view over the original, which is framework aliasing.
- `PrepareForReThrow` (ExceptionExtensions.cs:100-118) rethrows through the runtime.
- Case mapping, `OrdinalIgnoreCase` and `Char.IsWhiteSpace`/`Trim` are modelled on ASCII only. Culture and Unicode tables are not modelled.
- StringExtensions.HexToBytes: `Convert.ToByte(s, 16)` is modelled for two hexadecimal digits only. The framework's acceptance of a sign or a `0x` prefix in a two-character piece is not modelled; such input is a format error here.
- StringExtensions.ExtractNumbers: the `IsNullOrWhiteSpace` shortcut is not a separate branch, because a white-space-only string has no digits and gives `""` either way.
- The `string[]`-separator overload of `SplitToList` and the regex-, culture- and hash-based string helpers are not part of this model.
- `ForEach` takes its action as a state-passing function, so side effects are modelled as a state threaded through the calls.
- In two places the documentation and the code disagree, and the model follows the code. `JoinMany` never throws for a null source (see Findings). The containment direction of the `TryGetIf*` methods is the reverse of their doc comments (IDictionaryExtensions.cs:383 and :405, :432 and :454).

## Findings

| source | as written | input that shows it | evidently intended | confidence | as-written member | corrected member |
|---|---|---|---|---|---|---|
| Global.Common/Extensions/IDictionaryExtensions.cs:371-372 | the null check for a disallowed null source is applied to the literal string `nameof(elemsToJoin)`, which is never null, so nothing is thrown and the null source is skipped | `allowNullInElemsToJoin = false`, `elemsToJoin = [null]` | throw `ArgumentNullException` for the null source | not executed | DictionaryExtensions.NullSourceGuardNeverThrows | DictionaryExtensions.CheckedNullSourceGuardThrows |
