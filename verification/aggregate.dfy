/** The run-level state of LocalizationValidator.cs: the four result queues,
    the de-duplicated map of untranslated strings and the map of localized
    dlls, how `Execute` and `CompareAllStrings` fill them, and the exit code
    `GetReturnCode` derives from them. The parallel loop over dlls is
    modelled as a sequential fold. */
module Aggregation {
  import opened Wrappers
  import opened Platform
  import opened Text
  import opened Dicts
  import opened Classification

  /** `LocaleUtility.LocaleStrings`, in the order of the report columns. */
  const LocaleStrings: seq<string> :=
    ["cs", "de", "es", "fr", "it", "ja", "ko", "pl", "pt-br", "ru", "tr", "zh-hans", "zh-hant"]

  /** Every result is recorded with `Locale.cs`, whichever locale was compared. */
  const ResultLocale := "cs"

  datatype StringResult =
    | MissingResult(resourceName: string, assemblyName: string, locale: string)
    | MismatchResult(resourceName: string, assemblyName: string, locale: string,
                     englishValue: string, localizedValue: string)
    | IdenticalResult(resourceName: string, assemblyName: string, locale: string,
                      englishValue: string, localizedValue: string)
    | LockedResult(resourceName: string, assemblyName: string, locale: string,
                   englishValue: string, lockComment: string)

  /** dll file name -> resource key -> locales in which it is untranslated. */
  type Deduped = Dict<Dict<seq<string>>>

  /** dll file name -> locales for which a translated dll was found. */
  type LocalizedDlls = Dict<seq<string>>

  datatype Aggregate = Aggregate(
    identical: seq<StringResult>,
    mismatch: seq<StringResult>,
    missing: seq<StringResult>,
    locked: seq<StringResult>,
    deduped: Deduped,
    localizedDlls: LocalizedDlls)

  ghost predicate DedupValid(c: Deduped) {
    c.Valid() && forall d :: d in c.entries ==> c.entries[d].Valid()
  }

  ghost predicate WellFormed(a: Aggregate) {
    DedupValid(a.deduped) && a.localizedDlls.Valid()
  }

  /** The state before the first dll. */
  function Initial(): (a: Aggregate)
    ensures WellFormed(a)
    ensures a.identical == a.mismatch == a.missing == a.locked == []
  {
    Aggregate([], [], [], [], Empty(), Empty())
  }

  // ---------------------------------------------------------------------------
  // The three AddToCollection overloads

  /** The untranslated-locale list of `(dll, resource)`, empty when absent. */
  function UntranslatedIn(c: Deduped, dll: string, resource: string): seq<string> {
    if dll in c.entries && resource in c.entries[dll].entries then c.entries[dll].entries[resource] else []
  }

  /** `AddToCollection(collection, dllName, resourceName, language)`: appends
      the lower-cased locale, with no check for one already there. */
  function AddStringLocale(rt: Runtime, c: Deduped, dll: string, resource: string, language: string): (r: Deduped)
    requires DedupValid(c)
    ensures DedupValid(r)
    ensures r.entries.Keys == c.entries.Keys + {dll}
    ensures UntranslatedIn(r, dll, resource) == UntranslatedIn(c, dll, resource) + [rt.toLower(language)]
    ensures forall d, res :: (d != dll || res != resource) ==> UntranslatedIn(r, d, res) == UntranslatedIn(c, d, res)
  {
    var lower := rt.toLower(language);
    AppendedTarget(c, dll, resource, lower);
    AppendedFrame(c, dll, resource, lower);
    Appended(c, dll, resource, lower)
  }

  /** `(dll, resource)`'s list with `lower` appended. */
  function Appended(c: Deduped, dll: string, resource: string, lower: string): (r: Deduped)
    requires DedupValid(c)
    ensures DedupValid(r)
    ensures r.entries.Keys == c.entries.Keys + {dll}
  {
    var inner := if dll in c.entries then c.entries[dll] else Empty();
    PutKeepsDedupValid(c, dll, AppendLocale(inner, resource, lower));
    Put(c, dll, AppendLocale(inner, resource, lower))
  }

  lemma AppendedTarget(c: Deduped, dll: string, resource: string, lower: string)
    requires DedupValid(c)
    ensures UntranslatedIn(Appended(c, dll, resource, lower), dll, resource) == UntranslatedIn(c, dll, resource) + [lower]
  {
  }

  lemma AppendedFrame(c: Deduped, dll: string, resource: string, lower: string)
    requires DedupValid(c)
    ensures forall d, res :: (d != dll || res != resource) ==>
      UntranslatedIn(Appended(c, dll, resource, lower), d, res) == UntranslatedIn(c, d, res)
  {
    UntranslatedFrame(c, Appended(c, dll, resource, lower), dll, resource, UntranslatedIn(c, dll, resource) + [lower]);
  }

  lemma PutKeepsDedupValid(c: Deduped, dll: string, inner: Dict<seq<string>>)
    requires DedupValid(c) && inner.Valid()
    ensures DedupValid(Put(c, dll, inner))
  {
  }

  /** Lists other than `(dll, resource)`'s are the same in `r` as in `c`
      when `r` differs from `c` only in that one list. */
  lemma UntranslatedFrame(c: Deduped, r: Deduped, dll: string, resource: string, v: seq<string>)
    requires dll in r.entries && r.entries == c.entries[dll := r.entries[dll]]
    requires r.entries[dll].entries == (if dll in c.entries then c.entries[dll].entries else map[])[resource := v]
    ensures forall d, res :: (d != dll || res != resource) ==> UntranslatedIn(r, d, res) == UntranslatedIn(c, d, res)
  {
  }

  /** The inner half of `AddStringLocale`: one resource's list gets `lower` appended. */
  function AppendLocale(inner: Dict<seq<string>>, resource: string, lower: string): (r: Dict<seq<string>>)
    requires inner.Valid()
    ensures r.Valid()
    ensures r.entries == inner.entries[resource := (if resource in inner.entries then inner.entries[resource] else []) + [lower]]
  {
    Put(inner, resource, (if resource in inner.entries then inner.entries[resource] else []) + [lower])
  }

  /** `AddToCollection(collection, dllName)`: registers the dll with an empty
      locale list unless it is already there. */
  function RegisterDll(c: LocalizedDlls, dll: string): (r: LocalizedDlls)
    requires c.Valid()
    ensures r.Valid()
    ensures r.entries.Keys == c.entries.Keys + {dll}
    ensures dll in c.entries ==> r == c
    ensures dll !in c.entries ==> r.entries[dll] == []
    ensures forall d :: d in c.entries ==> r.entries[d] == c.entries[d]
  {
    if dll in c.entries then c else Put(c, dll, [])
  }

  /** The locales recorded for `dll`, empty when absent. */
  function LocalesOf(c: LocalizedDlls, dll: string): seq<string> {
    if dll in c.entries then c.entries[dll] else []
  }

  /** `AddToCollection(collection, dllName, language)`: tests membership with
      the raw locale but appends the lower-cased one. */
  function AddDllLocale(rt: Runtime, c: LocalizedDlls, dll: string, language: string): (r: LocalizedDlls)
    requires c.Valid()
    ensures r.Valid()
    ensures r.entries.Keys == c.entries.Keys + {dll}
    ensures language in LocalesOf(c, dll) ==> r == c
    ensures language !in LocalesOf(c, dll) ==> LocalesOf(r, dll) == LocalesOf(c, dll) + [rt.toLower(language)]
    ensures forall d :: d != dll ==> LocalesOf(r, d) == LocalesOf(c, d)
  {
    var lower := rt.toLower(language);
    if dll in c.entries then
      if language !in c.entries[dll] then Put(c, dll, c.entries[dll] + [lower]) else c
    else Put(c, dll, [lower])
  }

  /** Adding a locale that is already lower case a second time changes nothing. */
  lemma LowercaseLocaleIdempotent(rt: Runtime, c: LocalizedDlls, dll: string, language: string)
    requires c.Valid() && rt.toLower(language) == language
    ensures AddDllLocale(rt, AddDllLocale(rt, c, dll, language), dll, language) == AddDllLocale(rt, c, dll, language)
  {
    var once := AddDllLocale(rt, c, dll, language);
    assert language in LocalesOf(once, dll);
  }

  /** A locale that is not lower case is appended again on every call, since
      the list only ever holds its lower-cased form. */
  lemma MixedCaseLocaleRepeats(rt: Runtime, c: LocalizedDlls, dll: string, language: string)
    requires c.Valid() && rt.toLower(language) != language
    requires language !in LocalesOf(c, dll)
    ensures LocalesOf(AddDllLocale(rt, AddDllLocale(rt, c, dll, language), dll, language), dll)
         == LocalesOf(c, dll) + [rt.toLower(language), rt.toLower(language)]
  {
    var lower := rt.toLower(language);
    var once := AddDllLocale(rt, c, dll, language);
    assert LocalesOf(once, dll) == LocalesOf(c, dll) + [lower];
    assert language !in LocalesOf(once, dll);
    assert LocalesOf(c, dll) + [lower] + [lower] == LocalesOf(c, dll) + [lower, lower];
  }

  // ---------------------------------------------------------------------------
  // CompareAllStrings

  /** An English resource set: its manifest name and its entries in
      enumeration order. */
  datatype EnglishSet = EnglishSet(fullName: string, entries: seq<Entry>)

  /** A translated dll: the name of its parent directory (the locale) and the
      resource set that `.First(...)` finds for each English manifest name. */
  datatype Translation = Translation(locale: string, matching: string -> Option<map<string, string>>)

  /** The state after some steps and the fault that stopped them, if any. */
  datatype Progress = Progress(agg: Aggregate, fault: Option<Fault>)

  /** Enqueues the result of a completed decision for key `key`. */
  function Record(rt: Runtime, a: Aggregate, dllFile: string, locale: string, setName: string,
                  key: string, english: string, localized: string, o: Outcome): (r: Aggregate)
    requires DedupValid(a.deduped)
    ensures DedupValid(r.deduped) && r.localizedDlls == a.localizedDlls && r.locked == a.locked
    ensures o == Identical ==>
      r.identical == a.identical + [IdenticalResult(key, setName, ResultLocale, english, localized)]
      && r.deduped == AddStringLocale(rt, a.deduped, dllFile, key, locale)
    ensures o != Identical ==> r.identical == a.identical && r.deduped == a.deduped
    ensures o == Missing ==> r.missing == a.missing + [MissingResult(key, setName, ResultLocale)]
    ensures o != Missing ==> r.missing == a.missing
    ensures o == Mismatch ==> r.mismatch == a.mismatch + [MismatchResult(key, setName, ResultLocale, english, localized)]
    ensures o != Mismatch ==> r.mismatch == a.mismatch
  {
    match o
    case Missing => a.(missing := a.missing + [MissingResult(key, setName, ResultLocale)])
    case Mismatch => a.(mismatch := a.mismatch + [MismatchResult(key, setName, ResultLocale, english, localized)])
    case Identical =>
      a.(identical := a.identical + [IdenticalResult(key, setName, ResultLocale, english, localized)],
         deduped := AddStringLocale(rt, a.deduped, dllFile, key, locale))
    case _ => a
  }

  // ---------------------------------------------------------------------------
  // What the comparison records, independently of the state it threads

  /** The four result queues. */
  datatype Queue = IdenticalQueue | MismatchQueue | MissingQueue | LockedQueue

  function QueueOf(a: Aggregate, q: Queue): seq<StringResult> {
    match q
    case IdenticalQueue => a.identical
    case MismatchQueue => a.mismatch
    case MissingQueue => a.missing
    case LockedQueue => a.locked
  }

  /** The translated text of `key`, or the empty string when there is none. */
  function TranslatedText(translated: Option<map<string, string>>, key: string): string {
    if translated.Some? && key in translated.value then translated.value[key] else ""
  }

  /** What one key adds to queue `q`, read off its decision alone: a Locked
      result when its comment mentions a lock, and one result on the queue of
      its outcome (an Identical one carries the English text twice). */
  function KeyResults(rt: Runtime, lci: string -> Option<LciRecord>, translated: Option<map<string, string>>,
                      setName: string, e: Entry, q: Queue): (r: seq<StringResult>)
    ensures |r| <= 1
  {
    var step := Classify(rt, lci, translated, e);
    match q
    case LockedQueue =>
      if step.lockNote
      then [LockedResult(e.key.text, setName, ResultLocale, e.value.text, lci(e.key.text).value.comment)]
      else []
    case MissingQueue =>
      if step.outcome == Success(Missing) then [MissingResult(e.key.text, setName, ResultLocale)] else []
    case MismatchQueue =>
      if step.outcome == Success(Mismatch)
      then [MismatchResult(e.key.text, setName, ResultLocale, e.value.text, TranslatedText(translated, e.key.text))]
      else []
    case IdenticalQueue =>
      if step.outcome == Success(Identical)
      then [IdenticalResult(e.key.text, setName, ResultLocale, e.value.text, e.value.text)]
      else []
  }

  /** Whether no key of `entries` from `i` on throws. */
  predicate EntriesPass(rt: Runtime, lci: string -> Option<LciRecord>, translated: Option<map<string, string>>,
                        entries: seq<Entry>, i: nat) {
    forall k :: i <= k < |entries| ==> Classify(rt, lci, translated, entries[k]).outcome.Success?
  }

  /** What the keys from `i` on add to queue `q`: each key's results in
      order, up to and including the first key that throws. */
  function EntriesResults(rt: Runtime, lci: string -> Option<LciRecord>, translated: Option<map<string, string>>,
                          setName: string, entries: seq<Entry>, i: nat, q: Queue): seq<StringResult>
    requires i <= |entries|
    decreases |entries| - i
  {
    if i == |entries| then []
    else KeyResults(rt, lci, translated, setName, entries[i], q)
         + (if Classify(rt, lci, translated, entries[i]).outcome.Failure? then []
            else EntriesResults(rt, lci, translated, setName, entries, i + 1, q))
  }

  /** What the English sets from `j` on add to queue `q`, up to and
      including the first set in which a key throws. */
  function SetsResults(rt: Runtime, lci: string -> Option<LciRecord>, t: Translation,
                       sets: seq<EnglishSet>, j: nat, q: Queue): seq<StringResult>
    requires j <= |sets|
    decreases |sets| - j
  {
    if j == |sets| then []
    else
      var translated := t.matching(sets[j].fullName);
      EntriesResults(rt, lci, translated, sets[j].fullName, sets[j].entries, 0, q)
      + (if !EntriesPass(rt, lci, translated, sets[j].entries, 0) then []
         else SetsResults(rt, lci, t, sets, j + 1, q))
  }

  /** What the translated dlls of `dll` from `k` on add to queue `q`: a
      fault ends only the comparison with that one translated dll. */
  function TranslationsResults(rt: Runtime, dll: EnglishDll, k: nat, q: Queue): seq<StringResult>
    requires k <= |dll.translations|
    decreases |dll.translations| - k
  {
    if k == |dll.translations| then []
    else SetsResults(rt, dll.lci, dll.translations[k], dll.sets, 0, q) + TranslationsResults(rt, dll, k + 1, q)
  }

  /** What one English dll adds to queue `q`; a dll that is not a
      candidate or has no resources adds nothing. */
  function DllResults(rt: Runtime, dll: EnglishDll, q: Queue): seq<StringResult> {
    if IsCandidate(dll) && dll.sets != [] then TranslationsResults(rt, dll, 0, q) else []
  }

  /** What the English dlls from `i` on add to queue `q`. */
  function DllsResults(rt: Runtime, dlls: seq<EnglishDll>, i: nat, q: Queue): seq<StringResult>
    requires i <= |dlls|
    decreases |dlls| - i
  {
    if i == |dlls| then [] else DllResults(rt, dlls[i], q) + DllsResults(rt, dlls, i + 1, q)
  }

  /** One key: the Locked note first, then the outcome or the fault. */
  function ApplyKey(rt: Runtime, lci: string -> Option<LciRecord>, translated: Option<map<string, string>>,
                    dllFile: string, locale: string, setName: string, a: Aggregate, e: Entry): (r: Progress)
    requires DedupValid(a.deduped)
    ensures DedupValid(r.agg.deduped) && r.agg.localizedDlls == a.localizedDlls
    ensures r.fault.Some? <==> Classify(rt, lci, translated, e).outcome.Failure?
  {
    var step := Classify(rt, lci, translated, e);
    var a1 := if step.lockNote
              then a.(locked := a.locked + [LockedResult(e.key.text, setName, ResultLocale, e.value.text,
                                                          lci(e.key.text).value.comment)])
              else a;
    match step.outcome
    case Failure(f) => Progress(a1, Some(f))
    case Success(Skipped) => Progress(a1, None)
    case Success(o) =>
      var localized := TranslatedText(translated, e.key.text);
      Progress(Record(rt, a1, dllFile, locale, setName, e.key.text, e.value.text, localized, o), None)
  }

  /** One key enqueues a Locked result exactly when its comment mentions a lock. */
  lemma ApplyKeyLocked(rt: Runtime, lci: string -> Option<LciRecord>, translated: Option<map<string, string>>,
                       dllFile: string, locale: string, setName: string, a: Aggregate, e: Entry)
    requires DedupValid(a.deduped)
    ensures ApplyKey(rt, lci, translated, dllFile, locale, setName, a, e).agg.locked
         == a.locked + KeyResults(rt, lci, translated, setName, e, LockedQueue)
  {
  }

  /** One key enqueues a Missing result exactly when its outcome is Missing. */
  lemma ApplyKeyMissing(rt: Runtime, lci: string -> Option<LciRecord>, translated: Option<map<string, string>>,
                        dllFile: string, locale: string, setName: string, a: Aggregate, e: Entry)
    requires DedupValid(a.deduped)
    ensures ApplyKey(rt, lci, translated, dllFile, locale, setName, a, e).agg.missing
         == a.missing + KeyResults(rt, lci, translated, setName, e, MissingQueue)
  {
  }

  /** One key enqueues a Mismatch result, with its translation, exactly when
      its outcome is Mismatch. */
  lemma ApplyKeyMismatch(rt: Runtime, lci: string -> Option<LciRecord>, translated: Option<map<string, string>>,
                         dllFile: string, locale: string, setName: string, a: Aggregate, e: Entry)
    requires DedupValid(a.deduped)
    ensures ApplyKey(rt, lci, translated, dllFile, locale, setName, a, e).agg.mismatch
         == a.mismatch + KeyResults(rt, lci, translated, setName, e, MismatchQueue)
  {
  }

  /** One key enqueues an Identical result, and adds its locale to the
      de-duplicated map, exactly when its outcome is Identical. */
  lemma ApplyKeyIdentical(rt: Runtime, lci: string -> Option<LciRecord>, translated: Option<map<string, string>>,
                          dllFile: string, locale: string, setName: string, a: Aggregate, e: Entry)
    requires DedupValid(a.deduped)
    ensures ApplyKey(rt, lci, translated, dllFile, locale, setName, a, e).agg.identical
         == a.identical + KeyResults(rt, lci, translated, setName, e, IdenticalQueue)
    ensures ApplyKey(rt, lci, translated, dllFile, locale, setName, a, e).agg.deduped ==
      if Classify(rt, lci, translated, e).outcome == Success(Identical)
      then AddStringLocale(rt, a.deduped, dllFile, e.key.text, locale)
      else a.deduped
  {
    if Classify(rt, lci, translated, e).outcome == Success(Identical) {
      IdenticalMeansUnlockedAndEqual(rt, lci, translated, e);
    }
  }

  /** The `while (MoveNext())` loop over one resource set, from entry `i` on;
      a fault stops it with the effects made so far kept. */
  function CompareEntries(rt: Runtime, lci: string -> Option<LciRecord>, translated: Option<map<string, string>>,
                          dllFile: string, locale: string, setName: string, a: Aggregate,
                          entries: seq<Entry>, i: nat): (r: Progress)
    requires i <= |entries| && DedupValid(a.deduped)
    ensures DedupValid(r.agg.deduped) && r.agg.localizedDlls == a.localizedDlls
    ensures r.fault.None? <==>
      forall k :: i <= k < |entries| ==> Classify(rt, lci, translated, entries[k]).outcome.Success?
    decreases |entries| - i
  {
    if i == |entries| then Progress(a, None)
    else
      var p := ApplyKey(rt, lci, translated, dllFile, locale, setName, a, entries[i]);
      if p.fault.Some? then p
      else CompareEntries(rt, lci, translated, dllFile, locale, setName, p.agg, entries, i + 1)
  }

  /** `CompareAllStrings(englishDll, translatedDll, ...)` over the English
      resource sets from set `j` on. */
  function CompareSets(rt: Runtime, lci: string -> Option<LciRecord>, dllFile: string, t: Translation,
                       sets: seq<EnglishSet>, a: Aggregate, j: nat): (r: Progress)
    requires j <= |sets| && DedupValid(a.deduped)
    ensures DedupValid(r.agg.deduped) && r.agg.localizedDlls == a.localizedDlls
    decreases |sets| - j
  {
    if j == |sets| then Progress(a, None)
    else
      var p := CompareEntries(rt, lci, t.matching(sets[j].fullName), dllFile, t.locale, sets[j].fullName,
                              a, sets[j].entries, 0);
      if p.fault.Some? then p
      else CompareSets(rt, lci, dllFile, t, sets, p.agg, j + 1)
  }

  // ---------------------------------------------------------------------------
  // Execute

  /** An English dll as `Execute` sees it. */
  datatype EnglishDll = EnglishDll(
    path: string,
    fileName: string,   // Path.GetFileName(path)
    onDisk: bool,       // File.Exists(path)
    sets: seq<EnglishSet>,
    lci: string -> Option<LciRecord>,
    translations: seq<Translation>)

  /** The file checks of `Execute`: it must exist and end in `.dll` or `.exe`. */
  predicate IsCandidate(dll: EnglishDll) {
    dll.onDisk && (EndsWith(dll.path, ".dll") || EndsWith(dll.path, ".exe"))
  }

  /** The loop over translated dlls from `k` on: record the locale, then
      compare; a fault is caught and the next translated dll is taken. */
  function ProcessTranslations(rt: Runtime, dll: EnglishDll, a: Aggregate, k: nat): (r: Aggregate)
    requires k <= |dll.translations| && WellFormed(a)
    ensures WellFormed(r)
    decreases |dll.translations| - k
  {
    if k == |dll.translations| then a
    else
      var t := dll.translations[k];
      var a1 := a.(localizedDlls := AddDllLocale(rt, a.localizedDlls, dll.fileName, t.locale));
      var p := CompareSets(rt, dll.lci, dll.fileName, t, dll.sets, a1, 0);
      ProcessTranslations(rt, dll, p.agg, k + 1)
  }

  /** The body of the parallel loop for one English dll. */
  function ProcessDll(rt: Runtime, a: Aggregate, dll: EnglishDll): (r: Aggregate)
    requires WellFormed(a)
    ensures WellFormed(r)
    ensures !IsCandidate(dll) || dll.sets == [] ==> r == a
    ensures IsCandidate(dll) && dll.sets != [] ==> dll.fileName in r.localizedDlls.entries
  {
    if !IsCandidate(dll) || dll.sets == [] then a
    else
      var a1 := a.(localizedDlls := RegisterDll(a.localizedDlls, dll.fileName));
      LocalizedDllsGrow(rt, dll, a1, 0);
      ProcessTranslations(rt, dll, a1, 0)
  }

  /** `Execute` over the English dlls from `i` on. */
  function Execute(rt: Runtime, a: Aggregate, dlls: seq<EnglishDll>, i: nat): (r: Aggregate)
    requires i <= |dlls| && WellFormed(a)
    ensures WellFormed(r)
    decreases |dlls| - i
  {
    if i == |dlls| then a else Execute(rt, ProcessDll(rt, a, dlls[i]), dlls, i + 1)
  }

  /** The translation loop only adds dlls to the localized-dll map. */
  lemma {:induction false} LocalizedDllsGrow(rt: Runtime, dll: EnglishDll, a: Aggregate, k: nat)
    requires k <= |dll.translations| && WellFormed(a)
    ensures a.localizedDlls.entries.Keys <= ProcessTranslations(rt, dll, a, k).localizedDlls.entries.Keys
    decreases |dll.translations| - k
  {
    if k < |dll.translations| {
      var t := dll.translations[k];
      var a1 := a.(localizedDlls := AddDllLocale(rt, a.localizedDlls, dll.fileName, t.locale));
      var p := CompareSets(rt, dll.lci, dll.fileName, t, dll.sets, a1, 0);
      LocalizedDllsGrow(rt, dll, p.agg, k + 1);
    }
  }

  // ---------------------------------------------------------------------------
  // What a run records: each queue gains exactly the results of the keys it
  // compared, in order, whatever state the run started from.

  lemma ApplyKeyRecords(rt: Runtime, lci: string -> Option<LciRecord>, translated: Option<map<string, string>>,
                        dllFile: string, locale: string, setName: string, a: Aggregate, e: Entry)
    requires DedupValid(a.deduped)
    ensures forall q :: QueueOf(ApplyKey(rt, lci, translated, dllFile, locale, setName, a, e).agg, q)
                     == QueueOf(a, q) + KeyResults(rt, lci, translated, setName, e, q)
  {
    ApplyKeyLocked(rt, lci, translated, dllFile, locale, setName, a, e);
    ApplyKeyMissing(rt, lci, translated, dllFile, locale, setName, a, e);
    ApplyKeyMismatch(rt, lci, translated, dllFile, locale, setName, a, e);
    ApplyKeyIdentical(rt, lci, translated, dllFile, locale, setName, a, e);
    var r := ApplyKey(rt, lci, translated, dllFile, locale, setName, a, e).agg;
    forall q ensures QueueOf(r, q) == QueueOf(a, q) + KeyResults(rt, lci, translated, setName, e, q) {
      match q
      case IdenticalQueue =>
      case MismatchQueue =>
      case MissingQueue =>
      case LockedQueue =>
    }
  }

  lemma {:induction false} CompareEntriesRecords(rt: Runtime, lci: string -> Option<LciRecord>,
      translated: Option<map<string, string>>, dllFile: string, locale: string, setName: string,
      a: Aggregate, entries: seq<Entry>, i: nat)
    requires i <= |entries| && DedupValid(a.deduped)
    ensures forall q :: QueueOf(CompareEntries(rt, lci, translated, dllFile, locale, setName, a, entries, i).agg, q)
                     == QueueOf(a, q) + EntriesResults(rt, lci, translated, setName, entries, i, q)
    decreases |entries| - i
  {
    if i < |entries| {
      var p := ApplyKey(rt, lci, translated, dllFile, locale, setName, a, entries[i]);
      ApplyKeyRecords(rt, lci, translated, dllFile, locale, setName, a, entries[i]);
      if p.fault.None? {
        CompareEntriesRecords(rt, lci, translated, dllFile, locale, setName, p.agg, entries, i + 1);
        var r := CompareEntries(rt, lci, translated, dllFile, locale, setName, a, entries, i).agg;
        forall q ensures QueueOf(r, q) == QueueOf(a, q) + EntriesResults(rt, lci, translated, setName, entries, i, q) {
          AppendAssoc(QueueOf(a, q), KeyResults(rt, lci, translated, setName, entries[i], q),
                      EntriesResults(rt, lci, translated, setName, entries, i + 1, q));
        }
      } else {
        forall q ensures EntriesResults(rt, lci, translated, setName, entries, i, q)
                      == KeyResults(rt, lci, translated, setName, entries[i], q) {
        }
      }
    }
  }

  /** When no key throws, a result is on queue `q` exactly when some
      compared key produced it: a Missing result for each Missing key, a
      Mismatch result for each Mismatch key, and so on. */
  lemma {:induction false} EntriesResultsMembers(rt: Runtime, lci: string -> Option<LciRecord>,
      translated: Option<map<string, string>>, setName: string, entries: seq<Entry>, i: nat, q: Queue, x: StringResult)
    requires i <= |entries| && EntriesPass(rt, lci, translated, entries, i)
    ensures x in EntriesResults(rt, lci, translated, setName, entries, i, q) <==>
      exists k :: i <= k < |entries| && x in KeyResults(rt, lci, translated, setName, entries[k], q)
    decreases |entries| - i
  {
    if i < |entries| {
      var head := KeyResults(rt, lci, translated, setName, entries[i], q);
      var rest := EntriesResults(rt, lci, translated, setName, entries, i + 1, q);
      assert Classify(rt, lci, translated, entries[i]).outcome.Success?;
      assert EntriesResults(rt, lci, translated, setName, entries, i, q) == head + rest;
      assert EntriesPass(rt, lci, translated, entries, i + 1);
      EntriesResultsMembers(rt, lci, translated, setName, entries, i + 1, q, x);
      if x in head {
        assert i <= i < |entries| && x in KeyResults(rt, lci, translated, setName, entries[i], q);
      }
      if exists k :: i <= k < |entries| && x in KeyResults(rt, lci, translated, setName, entries[k], q) {
        var k :| i <= k < |entries| && x in KeyResults(rt, lci, translated, setName, entries[k], q);
        if k > i {
          assert x in rest;
        }
      }
    }
  }

  /** The Missing queue's share of one key: a single Missing result exactly
      when the key's outcome is Missing. */
  lemma MissingKeyResult(rt: Runtime, lci: string -> Option<LciRecord>, translated: Option<map<string, string>>,
                         setName: string, e: Entry, x: StringResult)
    ensures x in KeyResults(rt, lci, translated, setName, e, MissingQueue) <==>
      Classify(rt, lci, translated, e).outcome == Success(Missing)
      && translated.Some? && e.key.Str? && e.key.text !in translated.value
      && x == MissingResult(e.key.text, setName, ResultLocale)
  {
  }

  lemma {:induction false} CompareSetsRecords(rt: Runtime, lci: string -> Option<LciRecord>, dllFile: string,
      t: Translation, sets: seq<EnglishSet>, a: Aggregate, j: nat)
    requires j <= |sets| && DedupValid(a.deduped)
    ensures forall q :: QueueOf(CompareSets(rt, lci, dllFile, t, sets, a, j).agg, q)
                     == QueueOf(a, q) + SetsResults(rt, lci, t, sets, j, q)
    decreases |sets| - j
  {
    if j < |sets| {
      var translated := t.matching(sets[j].fullName);
      var p := CompareEntries(rt, lci, translated, dllFile, t.locale, sets[j].fullName, a, sets[j].entries, 0);
      CompareEntriesRecords(rt, lci, translated, dllFile, t.locale, sets[j].fullName, a, sets[j].entries, 0);
      if p.fault.None? {
        CompareSetsRecords(rt, lci, dllFile, t, sets, p.agg, j + 1);
        var r := CompareSets(rt, lci, dllFile, t, sets, p.agg, j + 1).agg;
        assert CompareSets(rt, lci, dllFile, t, sets, a, j).agg == r;
        forall q ensures QueueOf(r, q) == QueueOf(a, q) + SetsResults(rt, lci, t, sets, j, q) {
          AppendAssoc(QueueOf(a, q), EntriesResults(rt, lci, translated, sets[j].fullName, sets[j].entries, 0, q),
                      SetsResults(rt, lci, t, sets, j + 1, q));
        }
      } else {
        forall q ensures SetsResults(rt, lci, t, sets, j, q)
                      == EntriesResults(rt, lci, translated, sets[j].fullName, sets[j].entries, 0, q) {
        }
      }
    }
  }

  /** One translated dll adds the results of its comparison. */
  lemma TranslationRecords(rt: Runtime, dll: EnglishDll, a: Aggregate, k: nat) returns (b: Aggregate)
    requires k < |dll.translations| && WellFormed(a)
    ensures WellFormed(b)
    ensures ProcessTranslations(rt, dll, a, k) == ProcessTranslations(rt, dll, b, k + 1)
    ensures forall q :: QueueOf(b, q) == QueueOf(a, q) + SetsResults(rt, dll.lci, dll.translations[k], dll.sets, 0, q)
  {
    var t := dll.translations[k];
    var a1 := a.(localizedDlls := AddDllLocale(rt, a.localizedDlls, dll.fileName, t.locale));
    assert forall q :: QueueOf(a1, q) == QueueOf(a, q);
    CompareSetsRecords(rt, dll.lci, dll.fileName, t, dll.sets, a1, 0);
    b := CompareSets(rt, dll.lci, dll.fileName, t, dll.sets, a1, 0).agg;
  }

  lemma {:induction false} ProcessTranslationsRecords(rt: Runtime, dll: EnglishDll, a: Aggregate, k: nat)
    requires k <= |dll.translations| && WellFormed(a)
    ensures forall q :: QueueOf(ProcessTranslations(rt, dll, a, k), q) == QueueOf(a, q) + TranslationsResults(rt, dll, k, q)
    decreases |dll.translations| - k
  {
    if k < |dll.translations| {
      var b := TranslationRecords(rt, dll, a, k);
      ProcessTranslationsRecords(rt, dll, b, k + 1);
      var r := ProcessTranslations(rt, dll, b, k + 1);
      forall q ensures QueueOf(r, q) == QueueOf(a, q) + TranslationsResults(rt, dll, k, q) {
        AppendAssoc(QueueOf(a, q), SetsResults(rt, dll.lci, dll.translations[k], dll.sets, 0, q),
                    TranslationsResults(rt, dll, k + 1, q));
      }
    }
  }

  /** One English dll adds the results of its translated dlls, or nothing
      when it is skipped. */
  lemma ProcessDllRecords(rt: Runtime, a: Aggregate, dll: EnglishDll)
    requires WellFormed(a)
    ensures forall q :: QueueOf(ProcessDll(rt, a, dll), q) == QueueOf(a, q) + DllResults(rt, dll, q)
  {
    if IsCandidate(dll) && dll.sets != [] {
      var a1 := a.(localizedDlls := RegisterDll(a.localizedDlls, dll.fileName));
      assert forall q :: QueueOf(a1, q) == QueueOf(a, q);
      ProcessTranslationsRecords(rt, dll, a1, 0);
    } else {
      assert forall q :: QueueOf(a, q) + [] == QueueOf(a, q);
    }
  }

  /** The whole run: each queue holds what it held before, followed by the
      results of every compared key, dll by dll, translation by translation,
      set by set, in order. */
  lemma {:induction false} ExecuteRecords(rt: Runtime, a: Aggregate, dlls: seq<EnglishDll>, i: nat)
    requires i <= |dlls| && WellFormed(a)
    ensures forall q :: QueueOf(Execute(rt, a, dlls, i), q) == QueueOf(a, q) + DllsResults(rt, dlls, i, q)
    decreases |dlls| - i
  {
    if i < |dlls| {
      var dll := dlls[i];
      var b := ProcessDll(rt, a, dll);
      ProcessDllRecords(rt, a, dll);
      ExecuteRecords(rt, b, dlls, i + 1);
      var r := Execute(rt, b, dlls, i + 1);
      assert Execute(rt, a, dlls, i) == r;
      forall q ensures QueueOf(r, q) == QueueOf(a, q) + DllsResults(rt, dlls, i, q) {
        AppendAssoc(QueueOf(a, q), DllResults(rt, dll, q), DllsResults(rt, dlls, i + 1, q));
      }
    }
  }

  // ---------------------------------------------------------------------------
  // The run invariant: an Identical result is always mirrored in the
  // de-duplicated map, and only registered dlls appear there.

  ghost predicate Inv(a: Aggregate) {
    WellFormed(a)
    && (a.identical == [] <==> a.deduped.order == [])
    && (forall d :: d in a.deduped.entries ==> d in a.localizedDlls.entries)
  }

  lemma ApplyKeyKeepsInv(rt: Runtime, lci: string -> Option<LciRecord>, translated: Option<map<string, string>>,
                         dllFile: string, locale: string, setName: string, a: Aggregate, e: Entry)
    requires Inv(a) && dllFile in a.localizedDlls.entries
    ensures Inv(ApplyKey(rt, lci, translated, dllFile, locale, setName, a, e).agg)
  {
    var step := Classify(rt, lci, translated, e);
    var a1 := if step.lockNote
              then a.(locked := a.locked + [LockedResult(e.key.text, setName, ResultLocale, e.value.text,
                                                          lci(e.key.text).value.comment)])
              else a;
    assert Inv(a1);
    if step.outcome.Success? && step.outcome.value != Skipped {
      var localized := if translated.Some? && e.key.text in translated.value
                       then translated.value[e.key.text] else "";
      RecordKeepsInv(rt, a1, dllFile, locale, setName, e.key.text, e.value.text, localized, step.outcome.value);
    }
  }

  lemma RecordKeepsInv(rt: Runtime, a: Aggregate, dllFile: string, locale: string, setName: string,
                       key: string, english: string, localized: string, o: Outcome)
    requires Inv(a) && dllFile in a.localizedDlls.entries
    ensures Inv(Record(rt, a, dllFile, locale, setName, key, english, localized, o))
  {
    var r := Record(rt, a, dllFile, locale, setName, key, english, localized, o);
    EmptyOrder(a.deduped);
    EmptyOrder(r.deduped);
    if o == Identical {
      assert dllFile in r.deduped.entries;
    }
  }

  lemma {:induction false} CompareEntriesKeepsInv(rt: Runtime, lci: string -> Option<LciRecord>,
      translated: Option<map<string, string>>, dllFile: string, locale: string, setName: string,
      a: Aggregate, entries: seq<Entry>, i: nat)
    requires i <= |entries| && Inv(a) && dllFile in a.localizedDlls.entries
    ensures Inv(CompareEntries(rt, lci, translated, dllFile, locale, setName, a, entries, i).agg)
    decreases |entries| - i
  {
    if i < |entries| {
      var p := ApplyKey(rt, lci, translated, dllFile, locale, setName, a, entries[i]);
      ApplyKeyKeepsInv(rt, lci, translated, dllFile, locale, setName, a, entries[i]);
      if p.fault.None? {
        CompareEntriesKeepsInv(rt, lci, translated, dllFile, locale, setName, p.agg, entries, i + 1);
      }
    }
  }

  lemma {:induction false} CompareSetsKeepsInv(rt: Runtime, lci: string -> Option<LciRecord>, dllFile: string,
      t: Translation, sets: seq<EnglishSet>, a: Aggregate, j: nat)
    requires j <= |sets| && Inv(a) && dllFile in a.localizedDlls.entries
    ensures Inv(CompareSets(rt, lci, dllFile, t, sets, a, j).agg)
    decreases |sets| - j
  {
    if j < |sets| {
      var translated := t.matching(sets[j].fullName);
      var p := CompareEntries(rt, lci, translated, dllFile, t.locale, sets[j].fullName, a, sets[j].entries, 0);
      CompareEntriesKeepsInv(rt, lci, translated, dllFile, t.locale, sets[j].fullName, a, sets[j].entries, 0);
      if p.fault.None? {
        CompareSetsKeepsInv(rt, lci, dllFile, t, sets, p.agg, j + 1);
      }
    }
  }

  lemma {:induction false} ProcessTranslationsKeepsInv(rt: Runtime, dll: EnglishDll, a: Aggregate, k: nat)
    requires k <= |dll.translations| && Inv(a) && dll.fileName in a.localizedDlls.entries
    ensures Inv(ProcessTranslations(rt, dll, a, k))
    decreases |dll.translations| - k
  {
    if k < |dll.translations| {
      var t := dll.translations[k];
      var a1 := a.(localizedDlls := AddDllLocale(rt, a.localizedDlls, dll.fileName, t.locale));
      CompareSetsKeepsInv(rt, dll.lci, dll.fileName, t, dll.sets, a1, 0);
      var p := CompareSets(rt, dll.lci, dll.fileName, t, dll.sets, a1, 0);
      ProcessTranslationsKeepsInv(rt, dll, p.agg, k + 1);
    }
  }

  /** Every step of the run keeps the invariant. */
  lemma {:induction false} ExecuteKeepsInv(rt: Runtime, a: Aggregate, dlls: seq<EnglishDll>, i: nat)
    requires i <= |dlls| && Inv(a)
    ensures Inv(Execute(rt, a, dlls, i))
    decreases |dlls| - i
  {
    if i < |dlls| {
      var dll := dlls[i];
      if IsCandidate(dll) && dll.sets != [] {
        var a1 := a.(localizedDlls := RegisterDll(a.localizedDlls, dll.fileName));
        ProcessTranslationsKeepsInv(rt, dll, a1, 0);
      }
      ExecuteKeepsInv(rt, ProcessDll(rt, a, dll), dlls, i + 1);
    }
  }

  // ---------------------------------------------------------------------------
  // Locales of one dll

  /** One translated dll: the locale is added, then the comparison runs,
      which leaves the localized-dll map alone. */
  lemma TranslationStep(rt: Runtime, dll: EnglishDll, a: Aggregate, k: nat) returns (next: Aggregate)
    requires k < |dll.translations| && WellFormed(a)
    requires rt.toLower(dll.translations[k].locale) == dll.translations[k].locale
    requires dll.translations[k].locale !in LocalesOf(a.localizedDlls, dll.fileName)
    ensures WellFormed(next)
    ensures ProcessTranslations(rt, dll, a, k) == ProcessTranslations(rt, dll, next, k + 1)
    ensures LocalesOf(next.localizedDlls, dll.fileName)
         == LocalesOf(a.localizedDlls, dll.fileName) + [dll.translations[k].locale]
  {
    var t := dll.translations[k];
    var a1 := a.(localizedDlls := AddDllLocale(rt, a.localizedDlls, dll.fileName, t.locale));
    next := CompareSets(rt, dll.lci, dll.fileName, t, dll.sets, a1, 0).agg;
  }

  /** The locales of the translated dlls from `k` on are lower case,
      distinct, and not among `before`. */
  predicate FreshLocales(rt: Runtime, ts: seq<Translation>, k: nat, before: seq<string>) {
    (forall m :: k <= m < |ts| ==> rt.toLower(ts[m].locale) == ts[m].locale)
    && (forall m, n :: k <= m < n < |ts| ==> ts[m].locale != ts[n].locale)
    && (forall m :: k <= m < |ts| ==> ts[m].locale !in before)
  }

  /** A dll seen for the first time ends up with the locales of its
      translated dlls in order, each added once, provided they are lower case
      and distinct. */
  lemma {:induction false} LocalesOfFreshDll(rt: Runtime, dll: EnglishDll, a: Aggregate, k: nat)
    requires k <= |dll.translations| && WellFormed(a)
    requires FreshLocales(rt, dll.translations, k, LocalesOf(a.localizedDlls, dll.fileName))
    ensures LocalesOf(ProcessTranslations(rt, dll, a, k).localizedDlls, dll.fileName)
         == LocalesOf(a.localizedDlls, dll.fileName) + TranslationLocales(dll.translations[k..])
    decreases |dll.translations| - k
  {
    if k < |dll.translations| {
      var next := FreshStep(rt, dll, a, k);
      LocalesOfFreshDll(rt, dll, next, k + 1);
    }
  }

  /** One translated dll, seen from the locale list's side. */
  lemma FreshStep(rt: Runtime, dll: EnglishDll, a: Aggregate, k: nat) returns (next: Aggregate)
    requires k < |dll.translations| && WellFormed(a)
    requires FreshLocales(rt, dll.translations, k, LocalesOf(a.localizedDlls, dll.fileName))
    ensures WellFormed(next)
    ensures FreshLocales(rt, dll.translations, k + 1, LocalesOf(next.localizedDlls, dll.fileName))
    ensures ProcessTranslations(rt, dll, a, k) == ProcessTranslations(rt, dll, next, k + 1)
    ensures LocalesOf(a.localizedDlls, dll.fileName) + TranslationLocales(dll.translations[k..])
         == LocalesOf(next.localizedDlls, dll.fileName) + TranslationLocales(dll.translations[k + 1..])
  {
    var before := LocalesOf(a.localizedDlls, dll.fileName);
    FreshShift(rt, dll.translations, k, before);
    next := TranslationStep(rt, dll, a, k);
  }

  /** Adding the current locale moves the freshness condition one dll on. */
  lemma FreshShift(rt: Runtime, ts: seq<Translation>, k: nat, before: seq<string>)
    requires k < |ts| && FreshLocales(rt, ts, k, before)
    ensures rt.toLower(ts[k].locale) == ts[k].locale && ts[k].locale !in before
    ensures FreshLocales(rt, ts, k + 1, before + [ts[k].locale])
    ensures before + TranslationLocales(ts[k..]) == (before + [ts[k].locale]) + TranslationLocales(ts[k + 1..])
  {
    FreshRest(rt, ts, k, before);
    TranslationLocalesCons(ts, k);
    AppendAssoc(before, [ts[k].locale], TranslationLocales(ts[k + 1..]));
  }

  lemma FreshRest(rt: Runtime, ts: seq<Translation>, k: nat, before: seq<string>)
    requires k < |ts| && FreshLocales(rt, ts, k, before)
    ensures FreshLocales(rt, ts, k + 1, before + [ts[k].locale])
  {
    forall m | k + 1 <= m < |ts| ensures ts[m].locale !in before + [ts[k].locale] {
      assert ts[k].locale != ts[m].locale;
    }
  }

  lemma AppendAssoc<T>(x: seq<T>, y: seq<T>, z: seq<T>)
    ensures x + (y + z) == (x + y) + z
  {
  }

  lemma TranslationLocalesCons(ts: seq<Translation>, k: nat)
    requires k < |ts|
    ensures TranslationLocales(ts[k..]) == [ts[k].locale] + TranslationLocales(ts[k + 1..])
  {
    assert ts[k..][1..] == ts[k + 1..];
  }

  function TranslationLocales(ts: seq<Translation>): (r: seq<string>)
    ensures |r| == |ts| && forall m :: 0 <= m < |ts| ==> r[m] == ts[m].locale
  {
    if ts == [] then [] else [ts[0].locale] + TranslationLocales(ts[1..])
  }

  /** A dll whose resources are found but that has no translated dll at all
      is registered with no locale. */
  lemma UntranslatedDllHasNoLocales(rt: Runtime, a: Aggregate, dll: EnglishDll)
    requires WellFormed(a) && dll.fileName !in a.localizedDlls.entries
    requires IsCandidate(dll) && dll.sets != [] && dll.translations == []
    ensures LocalesOf(ProcessDll(rt, a, dll).localizedDlls, dll.fileName) == []
    ensures dll.fileName in ProcessDll(rt, a, dll).localizedDlls.entries
  {
  }

  /** A new dll translated into fewer locales than are known makes the run
      fatal, whatever its strings. */
  lemma TooFewTranslationsIsFatal(rt: Runtime, a: Aggregate, dll: EnglishDll)
    requires WellFormed(a) && dll.fileName !in a.localizedDlls.entries
    requires IsCandidate(dll) && dll.sets != []
    requires forall m :: 0 <= m < |dll.translations| ==> rt.toLower(dll.translations[m].locale) == dll.translations[m].locale
    requires forall m, n :: 0 <= m < n < |dll.translations| ==> dll.translations[m].locale != dll.translations[n].locale
    requires |dll.translations| < |LocaleStrings|
    ensures Fatal(ProcessDll(rt, a, dll))
  {
    var a1 := a.(localizedDlls := RegisterDll(a.localizedDlls, dll.fileName));
    LocalesOfFreshDll(rt, dll, a1, 0);
    var r := ProcessDll(rt, a, dll);
    assert dll.translations[0..] == dll.translations;
    assert |LocalesOf(r.localizedDlls, dll.fileName)| == |dll.translations|;
    assert dll.fileName in r.localizedDlls.entries;
  }

  /** A dll with translated dlls only under `fr` and `de` is flagged. */
  lemma FrenchAndGermanOnlyIsFatal(rt: Runtime, a: Aggregate, dll: EnglishDll)
    requires WellFormed(a) && dll.fileName !in a.localizedDlls.entries
    requires IsCandidate(dll) && dll.sets != []
    requires |dll.translations| == 2
    requires dll.translations[0].locale == "fr" && dll.translations[1].locale == "de"
    requires rt.toLower("fr") == "fr" && rt.toLower("de") == "de"
    ensures Fatal(ProcessDll(rt, a, dll))
  {
    TooFewTranslationsIsFatal(rt, a, dll);
  }

  // ---------------------------------------------------------------------------
  // GetReturnCode

  /** The fatal conditions: a missing string, an untranslated string, or a
      dll whose number of locales is not the number of known locales. */
  ghost predicate Fatal(a: Aggregate) {
    a.missing != []
    || a.deduped.entries != map[]
    || exists d :: d in a.localizedDlls.entries && |a.localizedDlls.entries[d]| != |LocaleStrings|
  }

  /** `GetReturnCode`. The identical and mismatch queues only ever keep the
      code at what it already is. */
  method GetReturnCode(a: Aggregate) returns (code: int)
    requires WellFormed(a)
    ensures code == 0 || code == 1
    ensures code == 1 <==> Fatal(a)
  {
    code := 0;
    if a.identical != [] {
      code := if code == 1 then 1 else 0;
    }
    if a.mismatch != [] {
      code := if code == 1 then 1 else 0;
    }
    if a.missing != [] {
      code := 1;
    }
    EmptyOrder(a.deduped);
    if a.deduped.order != [] {
      code := 1;
    }
    var dlls := a.localizedDlls;
    var incomplete := false;
    var i := 0;
    while i < |dlls.order|
      invariant 0 <= i <= |dlls.order|
      invariant incomplete <==> exists j :: 0 <= j < i && |dlls.entries[dlls.order[j]]| != |LocaleStrings|
    {
      if |dlls.entries[dlls.order[i]]| != |LocaleStrings| {
        incomplete := true;
      }
      i := i + 1;
    }
    assert incomplete <==> exists d :: d in dlls.entries && |dlls.entries[d]| != |LocaleStrings| by {
      if exists d :: d in dlls.entries && |dlls.entries[d]| != |LocaleStrings| {
        var d :| d in dlls.entries && |dlls.entries[d]| != |LocaleStrings|;
        assert d in dlls.order;
        var j :| 0 <= j < |dlls.order| && dlls.order[j] == d;
      }
      if incomplete {
        var j :| 0 <= j < i && |dlls.entries[dlls.order[j]]| != |LocaleStrings|;
        assert dlls.order[j] in dlls.order;
      }
    }
    if incomplete {
      code := 1;
    }
  }

  /** Under the run invariant an Identical result is always fatal, through
      the de-duplicated map, although its own queue is not consulted. */
  lemma IdenticalIsFatal(a: Aggregate)
    requires Inv(a) && a.identical != []
    ensures Fatal(a)
  {
    EmptyOrder(a.deduped);
  }

  /** The count is compared, not the set: thirteen locales with one of them
      twice and `ja` missing pass. */
  lemma DuplicateLocaleHidesMissingOne(dll: string, locales: seq<string>)
    requires locales == LocaleStrings[..5] + ["fr"] + LocaleStrings[6..]
    ensures "ja" !in locales
    ensures !Fatal(Aggregate([], [], [], [], Empty(), Dict([dll], map[dll := locales])))
  {
    assert forall k :: 0 <= k < |locales| ==> locales[k] != "ja";
  }

  /** ... and every known locale plus a repeated one fails. */
  lemma ExtraLocaleIsFatal(dll: string, locales: seq<string>)
    requires locales == LocaleStrings + ["fr"]
    ensures forall l :: l in LocaleStrings ==> l in locales
    ensures Fatal(Aggregate([], [], [], [], Empty(), Dict([dll], map[dll := locales])))
  {
    assert dll in map[dll := locales];
  }

  /** A dll translated into only some of the locales is fatal. */
  lemma PartiallyLocalizedDllIsFatal(dll: string, locales: seq<string>)
    requires |locales| < |LocaleStrings|
    ensures Fatal(Aggregate([], [], [], [], Empty(), Dict([dll], map[dll := locales])))
  {
    assert dll in map[dll := locales];
  }
}
