# Localization consistency engine

A Dafny model of the core of the NuGet localization validator. The validator
compares every English string resource of a dll with the same resource in each
translated satellite dll. For each key it decides one of five things:

- the string is skipped;
- it is exempt through a lock comment in an LCI file;
- it is missing from the translation;
- its placeholders do not match;
- it is identical to the English text.

It queues these results, keeps a de-duplicated map of untranslated strings and
a map of the locales found per dll, writes reports, and derives an exit code.

The modules follow the structure of the program:

| module | file | what it covers |
|---|---|---|
| `Placeholders` | `placeholders.dfy` | The placeholder scanner `GetStringMetadata`, the counting in `AddResult`, and the comparison in `StringMetadataEquals`/`CompareStrings`. |
| `Locking` | `locking.dfy` | Lock comments: `GetStringResourceComments`, `GetLockedSubStrings`, `CleanLockedString` and `IsStringResourceLocked`. |
| `Classification` | `classify.dfy` | The filters `IsResourceAValidString` and `IsResourceStringUriOrNonAlphabetical`, and the per-key decision inside `CompareAllStrings`. |
| `Aggregation` | `aggregate.dfy` | The result queues, the three `AddToCollection` overloads, `CompareAllStrings` and `Execute` as folds, and `GetReturnCode`. |
| `Report` | `report.dfy` | What `Logger.LogErrors` puts in the log directory, and the header and row lines of the two CSV tables. |
| `Legacy` | `legacy.dfy` | The earlier checker in `Program.cs`: its imperative scan loop and its stop-at-first-error `CompareAllStrings`. |
| `Text`, `Dicts`, `Platform`, `Wrappers` | | Supporting modules, described below. |

The supporting modules:

- `Text` holds the `System.String` operations used: `IndexOf`, `Split`, `Trim`, `Replace(t, "")` and `Contains`.
- `Dicts` models an insertion-ordered `Dictionary<string, V>`.
- `Platform` holds the runtime's character and URI services, and the exceptions.
- `Wrappers` holds `Option` and `Result`.

The model follows the code as written:

- The scan loop runs only while `i < Length - 1`.
- A `{{` skip reads past the end without re-checking the bound.
- Counts are stored as occurrences minus one.
- The comparison is one-sided.
- Nested braces give overlapping clauses.
- Quote stripping can cut a character too many.
- The lock test reads the LCI record's own `val`.
- The locale of a dll is looked up in raw form but stored lower-cased.
- The exit code compares locale counts with `!=`.
- The dll table opens on `<` but lists rows by `!=`.
- A C# exception becomes a `Result` failure. It ends the comparison of that English/translated dll pair and keeps the effects made so far, as the `catch` in `Execute` does.

Some consequences of the code as written, each proved in the model:

- **Mismatched placeholders do not affect the exit code.** `LocalizationValidator.cs:634-638` leaves the code where it is. Only missing strings, untranslated strings and locale coverage make a run fatal.
- **Locale coverage is a count test.** A dll is flagged when its number of locales differs from the number of known locales (`!=`, line 649), so a duplicated locale hides a missing one and an extra locale is fatal. `DuplicateLocaleHidesMissingOne` and `ExtraLocaleIsFatal` show both.
- **Locked substrings are removed from the LCI record's own `val`**, not from the translation (lines 248-250 and 266).
- **A lock comment only counts inside braces.** `Locked="Contoso"` without braces is no clause, so only a letter-free value would be exempt (`BracelessLockIsIgnored`). `{Locked="Contoso"}` locks `Contoso 123` but not `Contoso Inc.` (`ContosoNumberIsLocked`, `ContosoIncIsNotLocked`).
- **An empty category writes no report, but does not remove an old one.** A report left by an earlier run stays in the directory (`MissingReportPresence`).
- **The locale list is fixed.** It is the thirteen locales of the CSV headers. A dll translated only under `fr` and `de` makes the run fatal (`FrenchAndGermanOnlyIsFatal`).
- **A dll with too many locales is fatal but writes no dll table.** The table opens on `<` but lists rows by `!=` (`OverfullDllWritesNoTable`).

`Program.cs` repeats `AddResult`, `StringMetadataEquals` and `CompareStrings`
with the same bodies (`Program.cs:119-124` and `168-185`). They are
defined once, in `Placeholders`. Its scan loop is written out separately as
`Legacy.GetStringMetadata`, and is proved to compute exactly what
`Placeholders.GetStringMetadata` computes.

## Model

| member | source | states |
|---|---|---|
| Placeholders.TokensFrom | NuGetValidators.Localization/LocalizationValidator.cs:513-547 | The scan from index `i` either records tokens or throws, and the only exception it can throw is an index out of range. Every recorded token opens with `{`, has at least two characters and has no `}` before its last character. |
| Placeholders.TokensAt | NuGetValidators.Localization/LocalizationValidator.cs:520-546 | The same for the rest of one loop iteration after the optional `{{` skip. |
| Placeholders.AddResult | NuGetValidators.Localization/LocalizationValidator.cs:551-561 | Adding a token adds exactly that key and leaves every other token's count alone. |
| Placeholders.AddAllCounts | NuGetValidators.Localization/LocalizationValidator.cs:551-561 | After adding a run of tokens, a token is present iff it was present before or occurs in the run. Its stored value is its earlier value plus one, plus its new occurrences, minus one. |
| Placeholders.SignatureCounts | NuGetValidators.Localization/LocalizationValidator.cs:509-561 | A signature holds exactly the scanned tokens, each stored as its number of occurrences minus one. |
| Placeholders.CompareStringsMeaning | NuGetValidators.Localization/LocalizationValidator.cs:502-568 | When both strings scan, `CompareStrings` is true iff every English placeholder occurs in the translation exactly as often as in the English text. Placeholders found only in the translation are ignored. |
| Placeholders.CompareStringsReflexive | NuGetValidators.Localization/LocalizationValidator.cs:502-507 | A string that scans is compatible with itself. |
| Placeholders.ShortStringHasNoPlaceholders | NuGetValidators.Localization/LocalizationValidator.cs:514 | Because of the bound `i < Length - 1`, strings shorter than two characters have an empty signature. |
| Placeholders.TrailingBraceIgnored | NuGetValidators.Localization/LocalizationValidator.cs:514 | After text without `{`, a final `{` is never counted, because the loop stops before the last index. |
| Placeholders.NoBraceNoTokens | NuGetValidators.Localization/LocalizationValidator.cs:513-547 | Text without `{` from some index on yields no token from there and never throws. |
| Placeholders.SkipPlain | NuGetValidators.Localization/LocalizationValidator.cs:543-546 | Characters other than `{` are stepped over one by one without effect. |
| Placeholders.TakePlaceholder | NuGetValidators.Localization/LocalizationValidator.cs:534-540 | A `{` not followed by `{`, whose first `}` is not doubled, records the text through that `}` and resumes after it. |
| Placeholders.NoDoubleOpenNeverFaults | NuGetValidators.Localization/LocalizationValidator.cs:514-520 | A string with no two adjacent `{` never makes the scan throw. |
| Placeholders.LastPlaceholder | NuGetValidators.Localization/LocalizationValidator.cs:534-540 | A three-character placeholder followed by brace-free text is the last token. |
| Placeholders.PlaceholderPair | NuGetValidators.Localization/LocalizationValidator.cs:513-547 | Two three-character placeholders separated by brace-free text are exactly the two tokens, in order. |
| Placeholders.PairSignature | NuGetValidators.Localization/LocalizationValidator.cs:551-561 | Two distinct tokens are each stored as 0; a repeated token is stored once, as 1. |
| Placeholders.TwoPlaceholderTokens | NuGetValidators.Localization/LocalizationValidator.cs:513-547 | `a{0}b{1}c` with brace-free `a`, `b` and `c` has the tokens `{0}` and `{1}`. |
| Placeholders.TwoPlaceholdersExample | NuGetValidators.Localization/LocalizationValidator.cs:509-549 | Such a string has the signature `{0} -> 0, {1} -> 0`. |
| Placeholders.EscapedBracesExample | NuGetValidators.Localization/LocalizationValidator.cs:516-519 | `{{literal}}` has no placeholder. |
| Placeholders.RepeatedPlaceholderExample | NuGetValidators.Localization/LocalizationValidator.cs:551-561 | `{0}{0}` is stored as `{0} -> 1`: occurrences minus one. |
| Placeholders.DoubledCloseExample | NuGetValidators.Localization/LocalizationValidator.cs:530-533 | In `{0}}` the doubled `}` cancels the placeholder. |
| Placeholders.UnterminatedExample | NuGetValidators.Localization/LocalizationValidator.cs:522-529 | In `x{0 y` the unterminated `{` records the whole rest `{0 y` and ends the scan. |
| Placeholders.TrailingEscapeFaultsExample | NuGetValidators.Localization/LocalizationValidator.cs:516-520 | `a{{` and `{{{` make the scan read past the end and throw. |
| Placeholders.AsymmetryExample | NuGetValidators.Localization/LocalizationValidator.cs:563-568 | `{0}` against `{0} {1}` is compatible, but the reverse is not. |
| Text.IndexOf | NuGetValidators.Localization/LocalizationValidator.cs:448 | The result is the first occurrence of the character at or after the start index, and there is none iff the character does not occur from there on. |
| Text.TrimIsInfix | NuGetValidators.Localization/LocalizationValidator.cs:416 | `Trim` returns a slice of its input that has only white space cut away on either side and no white space left at either end. |
| Text.RemoveAllKeepsCharacters | NuGetValidators.Localization/LocalizationValidator.cs:393 | `Replace(t, "")` never introduces a character. |
| Text.RemoveAllAbsent | NuGetValidators.Localization/LocalizationValidator.cs:393 | `Replace(t, "")` on a string without `t` changes nothing. |
| Text.RemoveAllOnePass | NuGetValidators.Localization/LocalizationValidator.cs:391-393 | One pass can leave an occurrence behind: removing `ab` from `aabb` leaves `ab`. |
| Locking.ClauseAt | NuGetValidators.Localization/LocalizationValidator.cs:446-449 | The clause at a `{` is the shortest stretch of the comment from there that ends in `}`. Without a `}` after it, the clause is empty when the `{` is at index 0; at any later index the negative `Substring` length throws. |
| Locking.ClausesFrom | NuGetValidators.Localization/LocalizationValidator.cs:440-453 | There is one clause per `{` of the comment, and each has the clause shape. |
| Locking.OpensComplete | NuGetValidators.Localization/LocalizationValidator.cs:443-451 | Every `{` of the comment is visited. |
| Locking.OpensHas | NuGetValidators.Localization/LocalizationValidator.cs:443-451 | A `{` at or after the start of the scan is among the listed positions. |
| Locking.ClauseAtOpen | NuGetValidators.Localization/LocalizationValidator.cs:440-453 | In a successful extraction, clause `k` is the clause that starts at the `k`-th `{`. |
| Locking.FaultyBrace | NuGetValidators.Localization/LocalizationValidator.cs:440-453 | A failed extraction has a `{` whose clause throws. |
| Locking.BraceFaults | NuGetValidators.Localization/LocalizationValidator.cs:440-453 | A `{` whose clause throws makes the whole extraction throw. |
| Locking.ClausesAtOpens | NuGetValidators.Localization/LocalizationValidator.cs:440-453 | Clause `k` is the clause at the `k`-th `{` of the comment. The extraction throws iff the clause at one of the `{` throws. |
| Locking.CommentsFault | NuGetValidators.Localization/LocalizationValidator.cs:440-453 | Extracting the clauses throws exactly when some `{` after the first character has no `}` anywhere after it. |
| Locking.CleanAll | NuGetValidators.Localization/LocalizationValidator.cs:415-416 | Value `k` yields exactly the cleaned, trimmed text of comma piece `k`. The extraction throws iff some piece cannot be cleaned. |
| Locking.RemoveLocked | NuGetValidators.Localization/LocalizationValidator.cs:387-395 | Removing the locked substrings from the value never lengthens it. |
| Locking.WholeLockLocksEverything | NuGetValidators.Localization/LocalizationValidator.cs:381-384 | A comment equal to `{Locked}` in any letter case locks every value. |
| Locking.RemoveLockedKeepsCharacters | NuGetValidators.Localization/LocalizationValidator.cs:389-395 | With no empty substring, removal succeeds and leaves only characters of the value. |
| Locking.EmptyLockedSubstringFaults | NuGetValidators.Localization/LocalizationValidator.cs:391-393 | An empty locked substring always makes `Replace` throw, because every string contains the empty string. |
| Locking.LetterFreeValueIsLocked | NuGetValidators.Localization/LocalizationValidator.cs:396-399 | A value without letters is locked whatever the comment names, as long as the comment parses and names no empty substring. |
| Locking.NoOpenBraceNoClauses | NuGetValidators.Localization/LocalizationValidator.cs:443-451 | Text without `{` from some index on gives no clause from there. |
| Locking.NoClauseLocksOnlyLetterFree | NuGetValidators.Localization/LocalizationValidator.cs:379-402 | Unless the comment is the whole-string marker, a comment without clauses locks exactly the letter-free values. |
| Locking.ClauseWithoutEqualsFaults | NuGetValidators.Localization/LocalizationValidator.cs:410-412 | Any clause without `=` makes the extraction throw. |
| Locking.UnlockedClausesContributeNothing | NuGetValidators.Localization/LocalizationValidator.cs:408-419 | Clauses whose type (the text before `=`) does not mention `Locked` contribute no substring. |
| Locking.CleanQuoted | NuGetValidators.Localization/LocalizationValidator.cs:423-438 | `"x"` and `"x"}` both clean to `x`. |
| Locking.CleanPlain | NuGetValidators.Localization/LocalizationValidator.cs:423-438 | A value with no quote at either end and no trailing `}` is kept as it is. |
| Locking.CleanClosingQuote | NuGetValidators.Localization/LocalizationValidator.cs:429-436 | A value that ends in `"` but does not start with one loses its last two characters. |
| Locking.CleanUnmatchedQuote | NuGetValidators.Localization/LocalizationValidator.cs:433-436 | So `Contoso"` cleans to `Contos`. |
| Locking.CleanLoneQuote | NuGetValidators.Localization/LocalizationValidator.cs:429-432 | A lone `"` throws, because it calls `Substring(1, -1)`. |
| Locking.NestedClausesExample | NuGetValidators.Localization/LocalizationValidator.cs:443-451 | `{a{b}}` gives the overlapping clauses `{a{b}` and `{b}`. |
| Locking.UnclosedClauseExample | NuGetValidators.Localization/LocalizationValidator.cs:448-449 | An unclosed `{` at index 0 gives an empty clause; one at a later index throws. |
| Locking.SingleClause | NuGetValidators.Localization/LocalizationValidator.cs:440-453 | A comment whose only braces open and close it is one clause. |
| Locking.LockMarkerWithTailFaults | NuGetValidators.Localization/LocalizationValidator.cs:381-412 | `{Locked}` followed by more text is not the whole-string marker. It is a clause without `=`, so the lock test throws, although the comment still mentions `Locked`. |
| Locking.LockClauseShape | NuGetValidators.Localization/LocalizationValidator.cs:407-415 | `{Locked="x"}` is one clause, and it splits into the type `{Locked` and the value `"x"}`. |
| Locking.QuotedValueCleans | NuGetValidators.Localization/LocalizationValidator.cs:416 | The value `"x"}` trims and cleans to `x`. |
| Locking.LockClauseSubStrings | NuGetValidators.Localization/LocalizationValidator.cs:404-421 | `{Locked="x"}` names exactly the substring `x`. |
| Locking.LockClauseVerdict | NuGetValidators.Localization/LocalizationValidator.cs:379-402 | Under `{Locked="x"}`, the value `x + y` (with `y` not containing `x`) is locked iff `y` has no letter. |
| Locking.ContosoNumberIsLocked | NuGetValidators.Localization/LocalizationValidator.cs:387-399 | `{Locked="Contoso"}` locks `Contoso 123`. |
| Locking.ContosoIncIsNotLocked | NuGetValidators.Localization/LocalizationValidator.cs:387-401 | `{Locked="Contoso"}` does not lock `Contoso Inc.`. |
| Locking.BracelessLockIsIgnored | NuGetValidators.Localization/LocalizationValidator.cs:440-453 | `Locked="Contoso"` without braces is no clause, so `Contoso 123` is not locked. |
| Classification.LockCheck | NuGetValidators.Localization/LocalizationValidator.cs:244-270 | Without an LCI record there is no lock. A record whose comment is the whole-string marker locks. |
| Classification.Lookup | NuGetValidators.Localization/LocalizationValidator.cs:272-278 | The lookup throws iff no translated resource set matched. Otherwise it finds the translated string iff the key is there. |
| Classification.CompareLocalized | NuGetValidators.Localization/LocalizationValidator.cs:280-326 | The outcome is Missing iff the translated string is absent, and it throws iff scanning throws. Otherwise it is Mismatch iff the placeholder comparison is false. When the comparison is true, it is Identical iff the translation equals the English text, and Translated iff it differs. |
| Classification.Classify | NuGetValidators.Localization/LocalizationValidator.cs:237-326 | A key is skipped iff it fails the string/designer filter or its value is an `http` URI or letter-free. It is exempt iff it passes those filters and its lock test succeeds. A Locked result is noted iff the key passes the filters and its LCI comment mentions `Locked`. |
| Classification.LockedIsExemptWhateverTheTranslation | NuGetValidators.Localization/LocalizationValidator.cs:266-269 | An exempting lock record makes the key exempt whatever the translation holds. |
| Classification.IdenticalMeansUnlockedAndEqual | NuGetValidators.Localization/LocalizationValidator.cs:306-317 | Identical implies the key is unlocked and present, and that its translation equals the English text. |
| Classification.UnlockedEqualIsIdentical | NuGetValidators.Localization/LocalizationValidator.cs:306-317 | Conversely, a key that passes the filters, has no exempting lock and whose translation is its own scannable English text is Identical. |
| Classification.NoRecordNoLock | NuGetValidators.Localization/LocalizationValidator.cs:244-270 | Without an LCI record, a key is neither noted as Locked nor exempted. |
| Classification.EqualTranslationNeverMismatch | NuGetValidators.Localization/LocalizationValidator.cs:292-306 | A translation equal to the English text is never a Mismatch. |
| Classification.NoteSurvivesLockFault | NuGetValidators.Localization/LocalizationValidator.cs:252-266 | The Locked note is recorded before the lock test, so it stays even when that test throws. |
| Classification.UntranslatedIsIdentical | NuGetValidators.Localization/LocalizationValidator.cs:306-317 | An untranslated, brace-free string without a lock record is Identical. |
| Classification.KeptPlaceholderIsTranslated | NuGetValidators.Localization/LocalizationValidator.cs:292-306 | A changed translation that keeps `{0}` gets no outcome. |
| Classification.DroppedPlaceholderIsMismatch | NuGetValidators.Localization/LocalizationValidator.cs:292-304 | A translation that drops `{0}` is a Mismatch. |
| Aggregation.AddStringLocale | NuGetValidators.Localization/LocalizationValidator.cs:570-591 | It appends the lower-cased locale to `(dll, resource)`'s list without a duplicate check, registers the dll, and changes no other list. |
| Aggregation.AppendLocale | NuGetValidators.Localization/LocalizationValidator.cs:577-583 | The resource's list, or a fresh one, gets the locale appended. |
| Aggregation.RegisterDll | NuGetValidators.Localization/LocalizationValidator.cs:593-603 | A new dll gets an empty locale list. A known dll is left as it is. |
| Aggregation.AddDllLocale | NuGetValidators.Localization/LocalizationValidator.cs:605-622 | If the raw locale is already listed, nothing changes. Otherwise its lower-cased form is appended. Other dlls are unchanged. |
| Aggregation.LowercaseLocaleIdempotent | NuGetValidators.Localization/LocalizationValidator.cs:610-615 | Adding a lower-case locale twice is the same as adding it once. |
| Aggregation.MixedCaseLocaleRepeats | NuGetValidators.Localization/LocalizationValidator.cs:612-614 | A locale that is not lower case is appended again on every call. |
| Aggregation.Record | NuGetValidators.Localization/LocalizationValidator.cs:280-326 | Missing, Mismatch and Identical each enqueue one result on their own queue. Only Identical also adds the locale to the de-duplicated map. |
| Aggregation.ApplyKey | NuGetValidators.Localization/LocalizationValidator.cs:244-326 | One key stops the comparison iff its decision throws, and it never touches the localized-dll map. |
| Aggregation.ApplyKeyLocked | NuGetValidators.Localization/LocalizationValidator.cs:252-264 | One key enqueues a Locked result, with its comment, exactly when the comment mentions `Locked`, whatever happens after. |
| Aggregation.ApplyKeyMissing | NuGetValidators.Localization/LocalizationValidator.cs:280-291 | One key enqueues a Missing result exactly when its outcome is Missing. |
| Aggregation.ApplyKeyMismatch | NuGetValidators.Localization/LocalizationValidator.cs:292-305 | One key enqueues a Mismatch result, with the English text and the translation, exactly when its outcome is Mismatch. |
| Aggregation.ApplyKeyIdentical | NuGetValidators.Localization/LocalizationValidator.cs:306-326 | One key enqueues an Identical result, and adds its locale to the de-duplicated map, exactly when its outcome is Identical. |
| Aggregation.ApplyKeyRecords | NuGetValidators.Localization/LocalizationValidator.cs:244-326 | Every queue gains exactly what the key's own decision produces, whatever the state before. |
| Aggregation.MissingKeyResult | NuGetValidators.Localization/LocalizationValidator.cs:280-291 | A key adds a Missing result exactly when its outcome is Missing, which means the matched translated set lacks the key. |
| Aggregation.CompareEntries | NuGetValidators.Localization/LocalizationValidator.cs:235-328 | The loop over a resource set completes iff no key in it throws. |
| Aggregation.CompareEntriesRecords | NuGetValidators.Localization/LocalizationValidator.cs:235-328 | Over a resource set, each queue gains the results of its keys in order, up to and including the first key that throws. |
| Aggregation.EntriesResultsMembers | NuGetValidators.Localization/LocalizationValidator.cs:235-328 | When no key throws, a result is on a queue exactly when some key of the set produced it. |
| Aggregation.CompareSets | NuGetValidators.Localization/LocalizationValidator.cs:231-331 | Comparing a dll pair keeps the maps well formed and leaves the localized-dll map alone. |
| Aggregation.CompareSetsRecords | NuGetValidators.Localization/LocalizationValidator.cs:231-331 | Over a dll pair, each queue gains the results of its sets in order, up to and including the first set in which a key throws. |
| Aggregation.ProcessTranslations | NuGetValidators.Localization/LocalizationValidator.cs:159-174 | The loop over translated dlls keeps the maps well formed. |
| Aggregation.TranslationRecords | NuGetValidators.Localization/LocalizationValidator.cs:164-173 | One translated dll adds the results of its comparison; a fault ends only that comparison. |
| Aggregation.ProcessTranslationsRecords | NuGetValidators.Localization/LocalizationValidator.cs:159-174 | The loop over translated dlls adds the results of each one in turn. |
| Aggregation.ProcessDll | NuGetValidators.Localization/LocalizationValidator.cs:130-184 | A dll that is absent, not a `.dll`/`.exe`, or without resources changes nothing. Any other dll is registered. |
| Aggregation.ProcessDllRecords | NuGetValidators.Localization/LocalizationValidator.cs:130-184 | A skipped dll adds no result; any other dll adds the results of its translated dlls. |
| Aggregation.Execute | NuGetValidators.Localization/LocalizationValidator.cs:125-185 | The run keeps the maps well formed. |
| Aggregation.ExecuteRecords | NuGetValidators.Localization/LocalizationValidator.cs:125-185 | After the run, each queue holds what it held before, followed by the results of every compared key, in order. |
| Aggregation.LocalizedDllsGrow | NuGetValidators.Localization/LocalizationValidator.cs:159-174 | The translation loop never removes a dll from the localized-dll map. |
| Aggregation.ApplyKeyKeepsInv | NuGetValidators.Localization/LocalizationValidator.cs:244-326 | One key keeps the run invariant: there are Identical results iff the de-duplicated map has a dll, and every dll in that map is registered. |
| Aggregation.RecordKeepsInv | NuGetValidators.Localization/LocalizationValidator.cs:306-323 | Recording an outcome keeps the run invariant. |
| Aggregation.CompareEntriesKeepsInv | NuGetValidators.Localization/LocalizationValidator.cs:235-328 | A resource set keeps the run invariant. |
| Aggregation.CompareSetsKeepsInv | NuGetValidators.Localization/LocalizationValidator.cs:231-331 | A dll pair keeps the run invariant. |
| Aggregation.ProcessTranslationsKeepsInv | NuGetValidators.Localization/LocalizationValidator.cs:159-174 | The translated dlls of one dll keep the run invariant. |
| Aggregation.ExecuteKeepsInv | NuGetValidators.Localization/LocalizationValidator.cs:125-185 | The whole run keeps the run invariant. |
| Aggregation.TranslationStep | NuGetValidators.Localization/LocalizationValidator.cs:159-168 | Each translated dll appends its fresh lower-case locale to the dll's list before the comparison runs. |
| Aggregation.LocalesOfFreshDll | NuGetValidators.Localization/LocalizationValidator.cs:156-174 | With distinct, fresh, lower-case locales, a dll ends with the locales of its translated dlls in order. |
| Aggregation.UntranslatedDllHasNoLocales | NuGetValidators.Localization/LocalizationValidator.cs:156-157 | A dll with resources but no translated dll is registered with no locale. |
| Aggregation.TooFewTranslationsIsFatal | NuGetValidators.Localization/LocalizationValidator.cs:649-653 | A new dll with fewer distinct lower-case locales than are known makes the run fatal. |
| Aggregation.FrenchAndGermanOnlyIsFatal | NuGetValidators.Localization/LocalizationValidator.cs:649-653 | A dll translated only under `fr` and `de` makes the run fatal. |
| Aggregation.GetReturnCode | NuGetValidators.Localization/LocalizationValidator.cs:625-656 | The code is 0 or 1. It is 1 iff a string is missing, the de-duplicated map has a dll, or some dll's locale count differs from the number of known locales. Identical and Mismatch results never change it. |
| Aggregation.IdenticalIsFatal | NuGetValidators.Localization/LocalizationValidator.cs:629-648 | Under the run invariant, an Identical result is fatal through the de-duplicated map, although its own queue is not consulted. |
| Aggregation.DuplicateLocaleHidesMissingOne | NuGetValidators.Localization/LocalizationValidator.cs:649 | Thirteen locales with `fr` twice and `ja` missing do not make the run fatal. |
| Aggregation.ExtraLocaleIsFatal | NuGetValidators.Localization/LocalizationValidator.cs:649 | All known locales plus a repeated one make the run fatal. |
| Aggregation.PartiallyLocalizedDllIsFatal | NuGetValidators.Localization/LocalizationValidator.cs:649-653 | A dll with fewer locales than are known makes the run fatal. |
| Report.HeadersNameLocales | NuGetValidators.Localization/Logger.cs:179 | The dll header (and the untranslated-string header at line 133) is the lead column names followed by `, ` and each known locale, in order. |
| Report.HeaderLineFields | NuGetValidators.Localization/Logger.cs:133 | Splitting a header on `,` gives its lead fields, then one field per locale. |
| Report.StringHeaderFields | NuGetValidators.Localization/Logger.cs:133 | The untranslated-string header splits into `Dll Name`, ` Resource Name` and ` <locale>` for each of the thirteen locales. |
| Report.Marks | NuGetValidators.Localization/Logger.cs:143-147 | There is one cell per locale, and it reads `Error` exactly where the locale's membership matches the table's error condition. |
| Report.CellsAreJoinedMarks | NuGetValidators.Localization/Logger.cs:143-147 | Every cell is followed by a comma, so the cells are the marks joined by commas plus one empty trailing field. |
| Report.RowFields | NuGetValidators.Localization/Logger.cs:138-147 | Splitting a row on `,` gives back its lead fields, one mark per locale, and the trailing empty field. |
| Report.StringRowFields | NuGetValidators.Localization/Logger.cs:138-149 | A row of the untranslated-string table splits into the dll, the resource, one cell per locale (`Error` iff untranslated there) and an empty field. |
| Report.DllRowFields | NuGetValidators.Localization/Logger.cs:184-193 | A row of the dll table splits into the dll, one cell per locale (`Error` iff that locale is absent) and an empty field. |
| Report.ResourcePairs | NuGetValidators.Localization/Logger.cs:136 | One pair per resource of a dll, in dictionary order. |
| Report.PairsFrom | NuGetValidators.Localization/Logger.cs:134-136 | The pairs from dll `i` on are exactly the (dll, resource) entries of the dlls from position `i` on. |
| Report.PairsComplete | NuGetValidators.Localization/Logger.cs:134-151 | Every (dll, resource) entry of the map gets a row, and nothing else does. |
| Report.PairsDistinct | NuGetValidators.Localization/Logger.cs:134-151 | No (dll, resource) pair gets two rows, and the pairs from dll `i` on belong to no earlier dll. |
| Report.StringTable | NuGetValidators.Localization/Logger.cs:117-151 | The table is written iff the map has a dll. It is the header and then, per pair, the row of that pair's untranslated locales. |
| Report.IncompleteDlls | NuGetValidators.Localization/Logger.cs:180-182 | A dll is listed iff it is registered and its locale count differs from the number of known locales. |
| Report.DllTable | NuGetValidators.Localization/Logger.cs:162-197 | The table is written iff some dll has fewer locales than are known. It is then the header plus, for each listed dll in order, that dll's row. |
| Report.DllRowCell | NuGetValidators.Localization/Logger.cs:184-193 | A dll row has the number of known locales plus two fields. Its first field is the dll, and cell `j` reads `Error` exactly when locale `j` is absent. |
| Report.DllTableLine | NuGetValidators.Localization/Logger.cs:180-193 | Line `k + 1` of a written table splits into the `k`-th listed dll and then, per known locale, a cell reading `Error` exactly when that locale is absent for it. That dll's locale count is not the number of known locales. |
| Report.DllTableRows | NuGetValidators.Localization/Logger.cs:180-182 | Once written, the table lists exactly the dlls whose count is not the number of known locales, including those with too many. |
| Report.DllTableMeansFatal | NuGetValidators.Localization/Logger.cs:162 | A written dll table means a fatal run. |
| Report.OverfullDllWritesNoTable | NuGetValidators.Localization/Logger.cs:162 | A dll with more locales than are known is fatal but opens no table. |
| Report.LogQueue | NuGetValidators.Localization/Logger.cs:71-108 | A non-empty queue replaces any earlier file of its name with its report. An empty one writes and deletes nothing, and other files are kept. |
| Report.LogTable | NuGetValidators.Localization/Logger.cs:117-131 | A table that is due replaces any earlier file of its name. Otherwise nothing changes, and other files are kept. |
| Report.QueueKeeps | NuGetValidators.Localization/Logger.cs:71-84 | A queue leaves every file of another name as it was. |
| Report.TableKeeps | NuGetValidators.Localization/Logger.cs:127-131 | A table leaves every file of another name as it was. |
| Report.MissingReportPresence | NuGetValidators.Localization/Logger.cs:40-44 | After logging, `MissingStrings.json` exists iff a string is missing or an older report was left in place. It holds the missing results when there are any. |
| Report.StringTablePresence | NuGetValidators.Localization/Logger.cs:52-56 | After logging, the untranslated-string table exists iff some string is untranslated or an older table was left in place. It holds the current table when due. |
| Legacy.ScanStep | Program.cs:131-164 | One loop iteration either ends the scan with the result the recursive scan gives, or moves forward without losing anything that scan would compute. |
| Legacy.ScanAt | Program.cs:137-163 | The same for the iteration after the `{{` skip. |
| Legacy.GetStringMetadata | Program.cs:126-166 | The imperative loop returns exactly the signature, or the exception, of the validator's scan. |
| Legacy.CheckEntry | Program.cs:102-112 | An entry passes iff its key and value are strings, the key is translated, and the placeholders are compatible. It is absent iff its string key is untranslated. A non-string key throws. |
| Legacy.StopResult | Program.cs:100-112 | Stopping always produces a message or an exception, never `true`. |
| Legacy.CompareAllStrings | Program.cs:65-117 | It returns true with nothing queued iff every resource set has a counterpart and every entry passes. Otherwise it stops at the first failing set or entry, with exactly one message or the exception. |
| Legacy.StopIsUnique | Program.cs:79-116 | The comparison stops at one place only. |
| Legacy.AgreesWithValidator | Program.cs:102-112 | On keys the validator examines without a lock record, the earlier checker finds a key absent, different or throwing exactly when the validator reports Missing, Mismatch or a fault. |
| Legacy.UntranslatedPasses | Program.cs:108-112 | An untranslated string passes the earlier checker, which has no Identical outcome. |
| Legacy.DesignerEntryThrows | Program.cs:100-108 | Nothing is filtered: a translated designer entry whose value is not a string throws here, while the validator skips it. |

## Left out

- Assembly loading, `ResourceManager`/`ResourceSet` enumeration and `GetResourceFullNamesFromDll` are not modelled. An English dll is given as its resource sets, with entries in enumeration order.
- A translated dll is given as a `matching` function from English manifest name to the resource set that `.First(r => r.StartsWith(...))` picks, or `None` when `.First` throws. The name matching itself is not modelled.
- `GetString` on a translated value that is not a string, which throws in .NET, is not modelled: translated sets map strings to strings.
- LCI XML reading (`GetLciEntries`, `GetLciCommentAndValueString`) is not modelled. It is a lookup from key to an optional (comment, val) record. Exceptions from malformed XML, and the case-insensitive `ItemId` match, are left out.
- `char.IsLetter`, `char.IsWhiteSpace`, `ToLower`, the ordinal case folding and `Uri.TryCreate` with the `http` scheme test are not modelled. They are fields of a `Runtime` record, so every property holds for any behaviour of them.
- `StartsWith(">>")`, `StartsWith("\"")` and the `EndsWith` tests are culture-sensitive in .NET. The model treats them as ordinal.
- `Parallel.ForEach`, `ConcurrentQueue` and `lock` are left out. The run is a sequential fold over the dlls in order, so interleavings of the parallel loop are not modelled.
- .NET `Dictionary` key order is taken to be insertion order. Nothing is ever removed from these dictionaries, and the order only matters for the CSV row order.
- `LocaleUtility.LocaleStrings` is not part of this model. It is taken to be the thirteen locales of the CSV headers, in header order.
- File existence, directory creation, VSIX extraction, `GetTranslatedDlls`, `WarnIfNoLciDirectory`, console output and the JSON text of the reports are I/O. They are left out, and a report's JSON content is a `render` parameter.
- The `bool` that the validator's `CompareAllStrings` returns is never read by its caller, so it is not modelled.
- `LoggingUtility.cs`, the artifact validators, the CLI commands and the result classes are outside this core.
- Aggregation.Execute: its own contract only states that the maps stay well formed. What the run enqueues is stated by `ExecuteRecords`, and that Identical results are mirrored in the de-duplicated map by `ExecuteKeepsInv`.
- Aggregation.CompareSets: its own contract only states well-formedness and that the localized-dll map is unchanged. What it enqueues is stated by `CompareSetsRecords`.
- Aggregation.ApplyKey: its own contract only states when it stops and that the localized-dll map is unchanged. What it enqueues is stated by `ApplyKeyLocked`, `ApplyKeyMissing`, `ApplyKeyMismatch`, `ApplyKeyIdentical` and `ApplyKeyRecords`.
- Locking.ClausesFrom: its own contract states the number and shape of the clauses. Which clause comes from which `{` is stated by `ClausesAtOpens`.
- Locking.RemoveLocked: its own contract only bounds the length. Its meaning is stated by `RemoveLockedKeepsCharacters`, `EmptyLockedSubstringFaults` and `LockClauseVerdict`.
