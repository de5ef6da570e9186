/** The per-key decision in the loop of `CompareAllStrings`
    (LocalizationValidator.cs): which resources are looked at, when a lock
    comment exempts one, and how an English value is set against its
    translation. */
module Classification {
  import opened Wrappers
  import opened Platform
  import opened Text
  import opened Placeholders
  import opened Locking

  /** A key or value read from a resource set: a string or any other object. */
  datatype Obj = Str(text: string) | Other

  /** One `(Key, Value)` pair of the English resource set enumerator. */
  datatype Entry = Entry(key: Obj, value: Obj)

  /** The comment and reference value of an LCI `Item`. */
  datatype LciRecord = LciRecord(comment: string, val: string)

  /** What becomes of one English resource against one translated dll. */
  datatype Outcome =
    | Skipped      // not a string resource, or a value that needs no translation
    | LockExempt   // the lock comment exempts it
    | Missing      // the translated resource set has no such key
    | Mismatch     // the placeholder signatures differ
    | Identical    // the translation is the English text itself
    | Translated   // none of the above: nothing is recorded

  /** The step for one key: whether a Locked result was recorded (which
      happens before anything can throw) and the outcome or the fault. */
  datatype KeyStep = KeyStep(lockNote: bool, outcome: Result<Outcome, Fault>)

  /** `IsResourceAValidString`: both are strings and the key is not one of the
      designer's `>>` entries. */
  predicate IsResourceAValidString(key: Obj, value: Obj) {
    key.Str? && !StartsWith(key.text, ">>") && value.Str?
  }

  /** `IsResourceStringUriOrNonAlphabetical`: an absolute `http` URI, or text
      without a single letter. */
  predicate IsResourceStringUriOrNonAlphabetical(rt: Runtime, value: string) {
    rt.isHttpUri(value) || LetterFree(rt, value)
  }

  /** The lock test, only made when the LCI file has a record for the key;
      it reads the record's own `val`, not the translation. */
  function LockCheck(rt: Runtime, rec: Option<LciRecord>): (r: Result<bool, Fault>)
    ensures rec.None? ==> r == Success(false)
    ensures rec.Some? && EqualsIgnoreCase(rt, rec.value.comment, WholeLock) ==> r == Success(true)
  {
    if rec.None? then Success(false)
    else IsStringResourceLocked(rt, rec.value.comment, rec.value.val)
  }

  /** The three-way comparison after the lock test, given the translated
      string (`None` for the `null` that `GetString` returns for a missing key). */
  function CompareLocalized(english: string, localized: Option<string>): (r: Result<Outcome, Fault>)
    ensures r == Success(Missing) <==> localized.None?
    ensures r == Success(Identical) ==> localized == Some(english)
    ensures r.Success? ==> r.value != Skipped && r.value != LockExempt
    ensures localized.Some? ==>
      (r.Success? <==> CompareStrings(english, localized.value).Success?)
    ensures localized.Some? && r.Success? ==>
      (r.value == Mismatch <==> CompareStrings(english, localized.value) == Success(false))
    ensures localized.Some? && CompareStrings(english, localized.value) == Success(true) ==>
      (r == Success(Identical) <==> localized.value == english)
      && (r == Success(Translated) <==> localized.value != english)
  {
    if localized.None? then Success(Missing)
    else
      var compatible :- CompareStrings(english, localized.value);
      if !compatible then Success(Mismatch)
      else if localized.value == english then Success(Identical)
      else Success(Translated)
  }

  /** The translated string for `key`. `translated` is the resource set found
      by `.First(...)`, or `None` when no resource name matched, which throws. */
  function Lookup(translated: Option<map<string, string>>, key: string): (r: Result<Option<string>, Fault>)
    ensures r.Failure? <==> translated.None?
    ensures r.Success? ==> (r.value.Some? <==> key in translated.value)
    ensures r.Success? && r.value.Some? ==> r.value.value == translated.value[key]
  {
    match translated
    case None => Failure(NoMatchingResourceSet)
    case Some(m) => Success(if key in m then Some(m[key]) else None)
  }

  /** One iteration of the `while (MoveNext())` loop. `lci` is the lookup of
      the dll's LCI file by key (`None` when there is no file or no entry). */
  function Classify(rt: Runtime, lci: string -> Option<LciRecord>,
                    translated: Option<map<string, string>>, e: Entry): (r: KeyStep)
    ensures r.outcome == Success(Skipped) <==>
      !IsResourceAValidString(e.key, e.value) || IsResourceStringUriOrNonAlphabetical(rt, e.value.text)
    ensures r.lockNote <==>
      IsResourceAValidString(e.key, e.value) && !IsResourceStringUriOrNonAlphabetical(rt, e.value.text)
      && lci(e.key.text).Some? && MentionsLock(lci(e.key.text).value.comment)
    ensures r.outcome == Success(LockExempt) <==>
      IsResourceAValidString(e.key, e.value) && !IsResourceStringUriOrNonAlphabetical(rt, e.value.text)
      && LockCheck(rt, lci(e.key.text)) == Success(true)
  {
    if !IsResourceAValidString(e.key, e.value) then KeyStep(false, Success(Skipped))
    else
      var key, english := e.key.text, e.value.text;
      if IsResourceStringUriOrNonAlphabetical(rt, english) then KeyStep(false, Success(Skipped))
      else
        var rec := lci(key);
        var note := rec.Some? && MentionsLock(rec.value.comment);
        match LockCheck(rt, rec)
        case Failure(f) => KeyStep(note, Failure(f))
        case Success(true) => KeyStep(note, Success(LockExempt))
        case Success(false) =>
          match Lookup(translated, key)
          case Failure(f) => KeyStep(note, Failure(f))
          case Success(localized) => KeyStep(note, CompareLocalized(english, localized))
  }

  // ---------------------------------------------------------------------------
  // Properties

  /** A key that survives the filter and is exempted by its lock record is
      exempt whatever the translation says: it is never Identical, Missing
      or a Mismatch. */
  lemma LockedIsExemptWhateverTheTranslation(rt: Runtime, lci: string -> Option<LciRecord>,
                                             translated: Option<map<string, string>>, e: Entry)
    requires IsResourceAValidString(e.key, e.value)
    requires !IsResourceStringUriOrNonAlphabetical(rt, e.value.text)
    requires LockCheck(rt, lci(e.key.text)) == Success(true)
    ensures Classify(rt, lci, translated, e).outcome == Success(LockExempt)
  {
  }

  /** Identical is reported only when there is no exempting lock and the
      translation is the English text itself. */
  lemma IdenticalMeansUnlockedAndEqual(rt: Runtime, lci: string -> Option<LciRecord>,
                                       translated: Option<map<string, string>>, e: Entry)
    requires Classify(rt, lci, translated, e).outcome == Success(Identical)
    ensures e.key.Str? && e.value.Str?
    ensures LockCheck(rt, lci(e.key.text)) == Success(false)
    ensures translated.Some? && e.key.text in translated.value
    ensures translated.value[e.key.text] == e.value.text
  {
  }

  /** The converse: a key that survives the filter, is not exempted by its
      lock record and whose translation is its own (scannable) English text
      is Identical. */
  lemma UnlockedEqualIsIdentical(rt: Runtime, lci: string -> Option<LciRecord>,
                                 m: map<string, string>, e: Entry)
    requires IsResourceAValidString(e.key, e.value)
    requires !IsResourceStringUriOrNonAlphabetical(rt, e.value.text)
    requires LockCheck(rt, lci(e.key.text)) == Success(false)
    requires e.key.text in m && m[e.key.text] == e.value.text
    requires Tokens(e.value.text).Success?
    ensures Classify(rt, lci, Some(m), e).outcome == Success(Identical)
  {
    CompareStringsReflexive(e.value.text);
  }

  /** A key without an LCI record is never noted as Locked and never exempt,
      except by the filter. */
  lemma NoRecordNoLock(rt: Runtime, lci: string -> Option<LciRecord>,
                       translated: Option<map<string, string>>, e: Entry)
    requires e.key.Str? && lci(e.key.text).None?
    ensures !Classify(rt, lci, translated, e).lockNote
    ensures Classify(rt, lci, translated, e).outcome != Success(LockExempt)
  {
  }

  /** A translation equal to the English text is never a Mismatch: the
      comparison is reflexive whenever the English text can be scanned. */
  lemma EqualTranslationNeverMismatch(rt: Runtime, lci: string -> Option<LciRecord>,
                                      m: map<string, string>, e: Entry)
    requires e.key.Str? && e.value.Str? && e.key.text in m && m[e.key.text] == e.value.text
    ensures Classify(rt, lci, Some(m), e).outcome != Success(Mismatch)
  {
    var english := e.value.text;
    if Tokens(english).Success? {
      CompareStringsReflexive(english);
    } else {
      assert GetStringMetadata(english).Failure?;
    }
  }

  /** The Locked note is recorded before the lock test, so a comment that
      mentions `Locked` but whose clause has no `=` is still noted, and the key
      then throws. */
  lemma NoteSurvivesLockFault(rt: Runtime, lci: string -> Option<LciRecord>,
                              translated: Option<map<string, string>>, e: Entry, tail: string)
    requires IsResourceAValidString(e.key, e.value)
    requires !IsResourceStringUriOrNonAlphabetical(rt, e.value.text)
    requires |tail| > 0 && '{' !in tail
    requires lci(e.key.text).Some? && lci(e.key.text).value.comment == WholeLock + tail
    ensures Classify(rt, lci, translated, e).lockNote
    ensures Classify(rt, lci, translated, e).outcome.Failure?
  {
    LockMarkerWithTailFaults(rt, tail, lci(e.key.text).value.val);
  }

  // ---------------------------------------------------------------------------
  // Worked examples

  /** A string without any `{` has no placeholders. */
  lemma NoPlaceholders(s: string)
    requires '{' !in s
    ensures Tokens(s) == Success([])
  {
    NoBraceNoTokens(s, 0);
  }

  /** `{0}` followed by brace-free text has the one placeholder `{0}`. */
  lemma OnePlaceholder(b: string)
    requires BraceFree(b)
    ensures Tokens("{0}" + b) == Success(["{0}"])
  {
    var s := "{0}" + b;
    assert s[..3] == "{0}";
    forall k | 3 <= k < |s| ensures s[k] != '{' && s[k] != '}' {
      assert s[k] == b[k - 3];
    }
    LastPlaceholder(s, 0);
  }

  /** An untranslated string without a lock record is Identical. */
  lemma UntranslatedIsIdentical(rt: Runtime, lci: string -> Option<LciRecord>,
                                key: string, english: string)
    requires !StartsWith(key, ">>") && lci(key).None?
    requires !rt.isHttpUri(english) && !LetterFree(rt, english)
    requires '{' !in english
    ensures Classify(rt, lci, Some(map[key := english]), Entry(Str(key), Str(english)))
      == KeyStep(false, Success(Identical))
  {
    NoPlaceholders(english);
    CompareStringsReflexive(english);
  }

  /** A translation that keeps the placeholder gives no outcome. */
  lemma KeptPlaceholderIsTranslated(rt: Runtime, lci: string -> Option<LciRecord>,
                                    key: string, b: string, c: string)
    requires !StartsWith(key, ">>") && lci(key).None?
    requires !rt.isHttpUri("{0}" + b) && !LetterFree(rt, "{0}" + b)
    requires BraceFree(b) && BraceFree(c) && b != c
    ensures Classify(rt, lci, Some(map[key := "{0}" + c]), Entry(Str(key), Str("{0}" + b)))
      == KeyStep(false, Success(Translated))
  {
    OnePlaceholder(b);
    OnePlaceholder(c);
    CompareStringsMeaning("{0}" + b, "{0}" + c);
    assert ("{0}" + c)[3..] == c;
  }

  /** A translation that drops the placeholder is a Mismatch. */
  lemma DroppedPlaceholderIsMismatch(rt: Runtime, lci: string -> Option<LciRecord>,
                                     key: string, b: string, c: string)
    requires !StartsWith(key, ">>") && lci(key).None?
    requires !rt.isHttpUri("{0}" + b) && !LetterFree(rt, "{0}" + b)
    requires BraceFree(b) && '{' !in c
    ensures Classify(rt, lci, Some(map[key := c]), Entry(Str(key), Str("{0}" + b)))
      == KeyStep(false, Success(Mismatch))
  {
    OnePlaceholder(b);
    NoPlaceholders(c);
    CompareStringsMeaning("{0}" + b, c);
    assert Count(["{0}"], "{0}") == 1;
  }
}
