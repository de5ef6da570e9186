/** The earlier checker in Program.cs. For one English dll and one translated
    dll it looks up every English resource in the translation and compares
    placeholders; the first key that is missing or differs ends the
    comparison with one message. Its `AddResult`, `StringMetadataEquals` and
    `CompareStrings` are the same as the validator's and are not repeated
    here; its scan loop is written out as a method and shown to compute the
    same signature as the recursive scan. */
module Legacy {
  import opened Wrappers
  import opened Platform
  import opened Text
  import Placeholders
  import opened Classification
  import opened Aggregation

  // ---------------------------------------------------------------------------
  // The scan loop

  /** What the scan still has to add, given the tokens from the current index
      on (or the exception the rest of the scan throws). */
  function Resume(acc: Placeholders.Signature, rest: Result<seq<string>, Fault>): Result<Placeholders.Signature, Fault> {
    match rest
    case Success(ts) => Success(Placeholders.AddAll(acc, ts))
    case Failure(f) => Failure(f)
  }

  /** `rest` with `t` put in front, or the same exception. */
  function Prepend(t: string, rest: Result<seq<string>, Fault>): Result<seq<string>, Fault> {
    match rest
    case Success(ts) => Success([t] + ts)
    case Failure(f) => Failure(f)
  }

  /** Adding the tokens `t` and then `rest` is adding `t` first. */
  lemma ResumePrepend(acc: Placeholders.Signature, t: string, rest: Result<seq<string>, Fault>)
    ensures Resume(acc, Prepend(t, rest)) == Resume(Placeholders.AddResult(acc, t), rest)
  {
    if rest.Success? {
      assert ([t] + rest.value)[1..] == rest.value;
    }
  }

  lemma ResumeLast(acc: Placeholders.Signature, t: string)
    ensures Resume(acc, Success([t])) == Success(Placeholders.AddResult(acc, t))
  {
    assert [t][1..] == [];
    assert Placeholders.AddAll(acc, [t]) == Placeholders.AddAll(Placeholders.AddResult(acc, t), []);
  }

  /** One pass of the loop body from index `i`: either the scan ends here
      (`done`, with the method's return value `r`) or it goes on from `next`
      with `acc` in place of `result`; in both cases nothing the recursive
      scan would compute is lost. */
  method ScanStep(s: string, i: nat, result: Placeholders.Signature)
    returns (done: bool, r: Result<Placeholders.Signature, Fault>, next: nat, acc: Placeholders.Signature)
    requires i + 1 < |s|
    ensures done ==> r == Resume(result, Placeholders.TokensFrom(s, i))
    ensures !done ==> (i < next <= |s|
      && Resume(acc, Placeholders.TokensFrom(s, next)) == Resume(result, Placeholders.TokensFrom(s, i)))
  {
    var j := i;
    if s[j] == '{' && s[j + 1] == '{' {
      j := j + 2;
    }
    assert Placeholders.TokensFrom(s, i) == Placeholders.TokensAt(s, j);
    done, r, next, acc := ScanAt(s, j, result);
  }

  /** The rest of the loop body, at index `j` after the optional skip. */
  method ScanAt(s: string, j: nat, result: Placeholders.Signature)
    returns (done: bool, r: Result<Placeholders.Signature, Fault>, next: nat, acc: Placeholders.Signature)
    requires j <= |s|
    ensures done ==> r == Resume(result, Placeholders.TokensAt(s, j))
    ensures !done ==> (j < next <= |s|
      && Resume(acc, Placeholders.TokensFrom(s, next)) == Resume(result, Placeholders.TokensAt(s, j)))
  {
    if j == |s| || (s[j] == '{' && j + 1 == |s|) {
      return true, Failure(IndexOutOfRange), j, result;
    }
    if s[j] == '{' && s[j + 1] != '{' {
      match IndexOf(s, '}', j)
      case None =>
        acc := Placeholders.AddResult(result, s[j..]);
        ResumeLast(result, s[j..]);
        return true, Success(acc), j, acc;
      case Some(c) =>
        if c < |s| - 1 && s[c + 1] == '}' {
          return false, Success(result), j + 2, result;
        }
        acc := Placeholders.AddResult(result, s[j..c + 1]);
        assert Placeholders.TokensAt(s, j) == Prepend(s[j..c + 1], Placeholders.TokensFrom(s, c + 1));
        ResumePrepend(result, s[j..c + 1], Placeholders.TokensFrom(s, c + 1));
        return false, Success(acc), c + 1, acc;
    }
    return false, Success(result), j + 1, result;
  }

  /** The `while (i < str.Length - 1)` loop of `GetStringMetadata`; it
      computes the same signature, or throws the same exception, as the
      recursive scan of the validator. */
  method GetStringMetadata(s: string) returns (r: Result<Placeholders.Signature, Fault>)
    ensures r == Placeholders.GetStringMetadata(s)
  {
    var result: Placeholders.Signature := map[];
    var i: nat := 0;
    while i + 1 < |s|
      invariant i <= |s|
      invariant Resume(result, Placeholders.TokensFrom(s, i)) == Placeholders.GetStringMetadata(s)
      decreases |s| - i
    {
      var done;
      done, r, i, result := ScanStep(s, i, result);
      if done {
        return;
      }
    }
    return Success(result);
  }

  // ---------------------------------------------------------------------------
  // Comparing two dlls

  /** The translated resource set that `.First(r => r.StartsWith(...))` picked
      for an English resource set: its base name and its strings. */
  datatype TranslatedSet = TranslatedSet(name: string, strings: map<string, string>)

  /** The one message `CompareAllStrings` puts on the error queue before it
      returns false. */
  datatype Complaint =
    | NotFound(key: string, englishSet: string, translatedSet: string, dll: string)
    | NotSame(key: string, englishSet: string, translatedSet: string, dll: string)

  /** How one English entry fares against the translated set. */
  datatype Check = Fine | Absent | Different

  /** One iteration of the `while (MoveNext())` loop: `GetString(Key as string)`
      throws for a key that is not a string, `null` means absent, and a value
      that is not a string reaches `GetStringMetadata` as `null`. Nothing is
      filtered: designer keys, URIs and letter-free values are compared too. */
  function CheckEntry(ts: TranslatedSet, e: Entry): (r: Result<Check, Fault>)
    ensures r == Success(Fine) <==>
      e.key.Str? && e.value.Str? && e.key.text in ts.strings
      && Placeholders.CompareStrings(e.value.text, ts.strings[e.key.text]) == Success(true)
    ensures r == Success(Absent) <==> e.key.Str? && e.key.text !in ts.strings
    ensures r == Failure(NullArgument) <==> e.key.Other?
  {
    if e.key.Other? then Failure(NullArgument)
    else if e.key.text !in ts.strings then Success(Absent)
    else if e.value.Other? then Failure(NullReference)
    else
      var same :- Placeholders.CompareStrings(e.value.text, ts.strings[e.key.text]);
      Success(if same then Fine else Different)
  }

  /** The first `j` entries all pass. */
  predicate EntriesPass(ts: TranslatedSet, entries: seq<Entry>, j: nat)
    requires j <= |entries|
  {
    forall m :: 0 <= m < j ==> CheckEntry(ts, entries[m]) == Success(Fine)
  }

  /** A resource set has its translated counterpart and every entry passes. */
  predicate SetPasses(rs: EnglishSet, matching: string -> Option<TranslatedSet>) {
    matching(rs.fullName).Some? && EntriesPass(matching(rs.fullName).value, rs.entries, |rs.entries|)
  }

  /** The first `k` resource sets all pass. */
  predicate SetsPass(sets: seq<EnglishSet>, matching: string -> Option<TranslatedSet>, k: nat)
    requires k <= |sets|
  {
    forall q :: 0 <= q < k ==> SetPasses(sets[q], matching)
  }

  /** The comparison stops at entry `j` of set `k`: everything before passed,
      and either set `k` has no counterpart (then `j` is 0) or its entry `j`
      does not pass. */
  predicate StopsAt(sets: seq<EnglishSet>, matching: string -> Option<TranslatedSet>, k: nat, j: nat) {
    k < |sets| && SetsPass(sets, matching, k)
    && match matching(sets[k].fullName)
       case None => j == 0
       case Some(ts) =>
         j < |sets[k].entries| && EntriesPass(ts, sets[k].entries, j)
         && CheckEntry(ts, sets[k].entries[j]) != Success(Fine)
  }

  /** What the comparison returns when it stops at entry `j` of set `k`. */
  function StopResult(sets: seq<EnglishSet>, matching: string -> Option<TranslatedSet>, dll: string,
                      k: nat, j: nat): (r: Result<Option<Complaint>, Fault>)
    requires StopsAt(sets, matching, k, j)
    ensures r != Success(None)
  {
    match matching(sets[k].fullName)
    case None => Failure(NoMatchingResourceSet)
    case Some(ts) =>
      var e := sets[k].entries[j];
      var check := CheckEntry(ts, e);
      if check.Failure? then Failure(check.error)
      else if check.value == Absent then Success(Some(NotFound(e.key.text, sets[k].fullName, ts.name, dll)))
      else Success(Some(NotSame(e.key.text, sets[k].fullName, ts.name, dll)))
  }

  /** `CompareAllStrings(firstDll, secondDll)`: `Success(None)` is `true` with
      nothing queued, `Success(Some(c))` is `false` with the message `c`
      queued, and a failure is the exception thrown. It succeeds without a
      message exactly when every set has a counterpart and every entry
      passes; otherwise it stops at the first set or entry that does not. */
  method CompareAllStrings(sets: seq<EnglishSet>, matching: string -> Option<TranslatedSet>, dll: string)
    returns (r: Result<Option<Complaint>, Fault>)
    ensures r == Success(None) <==> SetsPass(sets, matching, |sets|)
    ensures !SetsPass(sets, matching, |sets|) ==>
      exists k, j :: StopsAt(sets, matching, k, j) && r == StopResult(sets, matching, dll, k, j)
  {
    var k := 0;
    while k < |sets|
      invariant k <= |sets| && SetsPass(sets, matching, k)
    {
      var rs := sets[k];
      if matching(rs.fullName).None? {
        assert StopsAt(sets, matching, k, 0);
        return Failure(NoMatchingResourceSet);
      }
      var ts := matching(rs.fullName).value;
      var j := 0;
      while j < |rs.entries|
        invariant j <= |rs.entries| && EntriesPass(ts, rs.entries, j)
      {
        var e := rs.entries[j];
        var check := CheckEntry(ts, e);
        if check != Success(Fine) {
          assert StopsAt(sets, matching, k, j);
          if check.Failure? {
            return Failure(check.error);
          } else if check.value == Absent {
            return Success(Some(NotFound(e.key.text, rs.fullName, ts.name, dll)));
          } else {
            return Success(Some(NotSame(e.key.text, rs.fullName, ts.name, dll)));
          }
        }
        j := j + 1;
      }
      k := k + 1;
    }
    return Success(None);
  }

  // ---------------------------------------------------------------------------
  // Properties

  /** The comparison stops at one place only. */
  lemma StopIsUnique(sets: seq<EnglishSet>, matching: string -> Option<TranslatedSet>,
                     k1: nat, j1: nat, k2: nat, j2: nat)
    requires StopsAt(sets, matching, k1, j1) && StopsAt(sets, matching, k2, j2)
    ensures k1 == k2 && j1 == j2
  {
  }

  /** On a string resource the validator would look at, and with no lock
      record, the two checkers agree: the earlier one finds a key absent
      exactly when the validator reports it Missing, finds it different
      exactly when the validator reports a Mismatch, and throws exactly when
      the validator does. */
  lemma AgreesWithValidator(rt: Runtime, lci: string -> Option<LciRecord>, ts: TranslatedSet, e: Entry)
    requires IsResourceAValidString(e.key, e.value)
    requires !IsResourceStringUriOrNonAlphabetical(rt, e.value.text)
    requires lci(e.key.text).None?
    ensures Classify(rt, lci, Some(ts.strings), e).outcome == Success(Missing) <==> CheckEntry(ts, e) == Success(Absent)
    ensures Classify(rt, lci, Some(ts.strings), e).outcome == Success(Mismatch) <==> CheckEntry(ts, e) == Success(Different)
    ensures Classify(rt, lci, Some(ts.strings), e).outcome.Failure? <==> CheckEntry(ts, e).Failure?
  {
    var english := e.value.text;
    if e.key.text in ts.strings {
      var localized := ts.strings[e.key.text];
      assert Lookup(Some(ts.strings), e.key.text) == Success(Some(localized));
      assert Classify(rt, lci, Some(ts.strings), e).outcome == CompareLocalized(english, Some(localized));
    }
  }

  /** An untranslated string passes the earlier checker, which has no
      Identical outcome, whenever its placeholders can be scanned. */
  lemma UntranslatedPasses(ts: TranslatedSet, key: string, english: string)
    requires key in ts.strings && ts.strings[key] == english
    requires Placeholders.Tokens(english).Success?
    ensures CheckEntry(ts, Entry(Str(key), Str(english))) == Success(Fine)
  {
    Placeholders.CompareStringsReflexive(english);
  }

  /** Nothing is filtered: a designer entry (`>>` key) whose value is not a
      string, skipped by the validator, throws here when its key is
      translated. */
  lemma DesignerEntryThrows(rt: Runtime, lci: string -> Option<LciRecord>, ts: TranslatedSet, key: string)
    requires StartsWith(key, ">>") && key in ts.strings
    ensures CheckEntry(ts, Entry(Str(key), Other)) == Failure(NullReference)
    ensures Classify(rt, lci, Some(ts.strings), Entry(Str(key), Other)).outcome == Success(Skipped)
  {
  }
}
