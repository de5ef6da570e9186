/** The placeholder signature of a composite format string, and the
    comparison of two signatures (LocalizationValidator.GetStringMetadata,
    AddResult, StringMetadataEquals, CompareStrings). */
module Placeholders {
  import opened Wrappers
  import opened Platform
  import opened Text

  /** Placeholder token -> stored count. The stored count is the number of
      occurrences minus one: a first sighting stores 0. */
  type Signature = map<string, nat>

  // ---------------------------------------------------------------------------
  // Scanning

  /** The tokens the scan loop meets from index `i` on, in order, or the
      exception it throws. The loop runs while `i < |s| - 1`; a `{{` is
      skipped as a pair and the same iteration then goes on at the
      character after it without re-checking the bound. */
  function TokensFrom(s: string, i: nat): (r: Result<seq<string>, Fault>)
    requires i <= |s|
    ensures r.Success? ==> forall t :: t in r.value ==> IsToken(t)
    ensures r.Failure? ==> r.error == IndexOutOfRange
    decreases |s| - i, 1
  {
    if i + 1 >= |s| then Success([])
    else TokensAt(s, if s[i] == '{' && s[i + 1] == '{' then i + 2 else i)
  }

  /** The rest of one iteration, at index `j` after the optional skip. */
  function TokensAt(s: string, j: nat): (r: Result<seq<string>, Fault>)
    requires j <= |s|
    ensures r.Success? ==> forall t :: t in r.value ==> IsToken(t)
    ensures r.Failure? ==> r.error == IndexOutOfRange
    decreases |s| - j, 0
  {
    if j == |s| then Failure(IndexOutOfRange)                        // str[i] after the skip
    else if s[j] == '{' && j + 1 == |s| then Failure(IndexOutOfRange) // str[i + 1] after the skip
    else if s[j] == '{' && s[j + 1] != '{' then
      match IndexOf(s, '}', j)
      case None =>
        // an unterminated placeholder: the whole rest is one token, and the scan stops
        Success([s[j..]])
      case Some(c) =>
        if c < |s| - 1 && s[c + 1] == '}' then TokensFrom(s, j + 2)
        else
          var rest :- TokensFrom(s, c + 1);
          Success([s[j..c + 1]] + rest)
    else TokensFrom(s, j + 1)
  }

  /** The shape of every recorded token: it opens with `{`, has at least one
      more character, and holds no `}` except possibly as its last character. */
  predicate IsToken(t: string) {
    |t| >= 2 && t[0] == '{' && forall k :: 0 <= k < |t| - 1 ==> t[k] != '}'
  }

  function Tokens(s: string): Result<seq<string>, Fault> {
    TokensFrom(s, 0)
  }

  // ---------------------------------------------------------------------------
  // Counting

  /** `AddResult`: the first sighting of a token stores 0, each later one adds 1. */
  function AddResult(m: Signature, token: string): (r: Signature)
    ensures r.Keys == m.Keys + {token}
    ensures forall t :: t in m && t != token ==> r[t] == m[t]
  {
    if token in m then m[token := m[token] + 1] else m[token := 0]
  }

  /** Adds the tokens to `acc` one after another, as the scan loop does. */
  function AddAll(acc: Signature, tokens: seq<string>): Signature
    decreases |tokens|
  {
    if tokens == [] then acc else AddAll(AddResult(acc, tokens[0]), tokens[1..])
  }

  /** `GetStringMetadata`. */
  function GetStringMetadata(s: string): Result<Signature, Fault> {
    match Tokens(s)
    case Success(ts) => Success(AddAll(map[], ts))
    case Failure(f) => Failure(f)
  }

  /** Adding tokens to an accumulator: a token's stored value grows by the
      number of its new occurrences. */
  lemma {:induction false} AddAllCounts(acc: Signature, tokens: seq<string>, t: string)
    ensures t in AddAll(acc, tokens) <==> t in acc || t in tokens
    ensures t in AddAll(acc, tokens) ==>
      AddAll(acc, tokens)[t] == (if t in acc then acc[t] + 1 else 0) + Count(tokens, t) - 1
    decreases |tokens|
  {
    if tokens != [] {
      AddAllCounts(AddResult(acc, tokens[0]), tokens[1..], t);
      assert t in tokens <==> t == tokens[0] || t in tokens[1..] by {
        assert tokens == [tokens[0]] + tokens[1..];
      }
    }
  }

  /** The signature of a token sequence holds exactly its tokens, each with
      its number of occurrences minus one. */
  lemma SignatureCounts(tokens: seq<string>, t: string)
    ensures t in AddAll(map[], tokens) <==> t in tokens
    ensures t in tokens ==> AddAll(map[], tokens)[t] == Count(tokens, t) - 1
  {
    AddAllCounts(map[], tokens, t);
  }

  // ---------------------------------------------------------------------------
  // Comparing

  /** `StringMetadataEquals`: every token of the first (English) signature
      is in the second with the same stored count. Tokens found only in the
      second signature are not looked at. */
  predicate StringMetadataEquals(first: Signature, second: Signature) {
    forall t :: t in first ==> t in second && second[t] == first[t]
  }

  /** `CompareStrings`: the English string's placeholders all occur equally
      often in the localized string. */
  function CompareStrings(english: string, localized: string): Result<bool, Fault> {
    var a :- GetStringMetadata(english);
    var b :- GetStringMetadata(localized);
    Success(StringMetadataEquals(a, b))
  }

  /** The comparison in terms of occurrences: every placeholder of the English
      string occurs in the localized string exactly as many times. */
  predicate SameOccurrences(english: seq<string>, localized: seq<string>) {
    forall t :: t in english ==> Count(localized, t) == Count(english, t)
  }

  lemma CompareStringsMeaning(english: string, localized: string)
    requires Tokens(english).Success? && Tokens(localized).Success?
    ensures CompareStrings(english, localized)
      == Success(SameOccurrences(Tokens(english).value, Tokens(localized).value))
  {
    var te := Tokens(english).value;
    var tl := Tokens(localized).value;
    var a := AddAll(map[], te);
    var b := AddAll(map[], tl);
    if StringMetadataEquals(a, b) {
      forall t | t in te ensures Count(tl, t) == Count(te, t) {
        SignatureCounts(te, t);
        SignatureCounts(tl, t);
      }
    }
    if SameOccurrences(te, tl) {
      forall t | t in a ensures t in b && b[t] == a[t] {
        SignatureCounts(te, t);
        SignatureCounts(tl, t);
      }
    }
  }

  /** A string is always compatible with itself, so a localized value that is
      ordinally equal to the English one is never a mismatch. */
  lemma CompareStringsReflexive(s: string)
    requires Tokens(s).Success?
    ensures CompareStrings(s, s) == Success(true)
  {
    CompareStringsMeaning(s, s);
  }

  // ---------------------------------------------------------------------------
  // Properties of the scan

  /** The loop bound `i < Length - 1` means strings shorter than two
      characters have an empty signature. */
  lemma ShortStringHasNoPlaceholders(s: string)
    requires |s| < 2
    ensures GetStringMetadata(s) == Success(map[])
  {
  }

  /** A string without `{` from index `i` on yields no placeholders from
      there and never makes the scan throw. */
  lemma {:induction false} NoBraceNoTokens(s: string, i: nat)
    requires i <= |s|
    requires forall k :: i <= k < |s| ==> s[k] != '{'
    ensures TokensFrom(s, i) == Success([])
    decreases |s| - i
  {
    if i + 1 < |s| {
      NoBraceNoTokens(s, i + 1);
    }
  }

  /** Characters other than `{` are stepped over one at a time. */
  lemma {:induction false} SkipPlain(s: string, i: nat, j: nat)
    requires i <= j < |s|
    requires forall k :: i <= k < j ==> s[k] != '{'
    ensures TokensFrom(s, i) == TokensFrom(s, j)
    decreases j - i
  {
    if i < j {
      SkipPlain(s, i + 1, j);
    }
  }

  /** A `{` not followed by `{`, whose first `}` at `c` is not doubled,
      records `s[j..c + 1]` and resumes after `c`. */
  lemma TakePlaceholder(s: string, j: nat, c: nat)
    requires j < c < |s| && s[j] == '{' && s[j + 1] != '{' && s[c] == '}'
    requires forall k :: j <= k < c ==> s[k] != '}'
    requires c == |s| - 1 || s[c + 1] != '}'
    ensures TokensFrom(s, c + 1).Success? ==>
      TokensFrom(s, j) == Success([s[j..c + 1]] + TokensFrom(s, c + 1).value)
  {
    assert IndexOf(s, '}', j) == Some(c);
  }

  /** A `{` in the last position is never looked at. */
  lemma {:induction false} TrailingBraceIgnored(s: string, i: nat)
    requires i <= |s|
    requires '{' !in s
    ensures TokensFrom(s + "{", i) == Success([])
    decreases |s| - i
  {
    var s' := s + "{";
    if i + 1 < |s'| {
      assert s'[i] == s[i] && s[i] != '{';
      TrailingBraceIgnored(s, i + 1);
    }
  }

  /** No two adjacent `{`: the scan never throws. */
  predicate NoDoubleOpen(s: string) {
    forall k :: 0 <= k < |s| - 1 ==> !(s[k] == '{' && s[k + 1] == '{')
  }

  lemma {:induction false} NoDoubleOpenNeverFaults(s: string, i: nat)
    requires i <= |s|
    requires NoDoubleOpen(s)
    ensures TokensFrom(s, i).Success?
    decreases |s| - i
  {
    if i + 1 < |s| {
      assert !(s[i] == '{' && s[i + 1] == '{');
      if s[i] == '{' {
        match IndexOf(s, '}', i)
        case None =>
        case Some(c) =>
          if c < |s| - 1 && s[c + 1] == '}' {
            NoDoubleOpenNeverFaults(s, i + 2);
          } else {
            NoDoubleOpenNeverFaults(s, c + 1);
          }
      } else {
        NoDoubleOpenNeverFaults(s, i + 1);
      }
    }
  }

  // ---------------------------------------------------------------------------
  // Worked examples

  /** No brace of either kind. */
  predicate BraceFree(s: string) {
    '{' !in s && '}' !in s
  }

  /** A three-character placeholder followed by brace-free text is the last token. */
  lemma LastPlaceholder(s: string, q: nat)
    requires q + 3 <= |s| && s[q] == '{' && s[q + 1] != '{' && s[q + 1] != '}' && s[q + 2] == '}'
    requires forall k :: q + 3 <= k < |s| ==> s[k] != '{' && s[k] != '}'
    ensures TokensFrom(s, q) == Success([s[q..q + 3]])
  {
    NoBraceNoTokens(s, q + 3);
    TakePlaceholder(s, q, q + 2);
    assert [s[q..q + 3]] + [] == [s[q..q + 3]];
  }

  /** A placeholder of three characters, such as `{0}`. */
  predicate ShortPlaceholder(t: string) {
    |t| == 3 && t[0] == '{' && t[1] != '{' && t[1] != '}' && t[2] == '}'
  }

  /** Two short placeholders at `p` and `q` with no brace anywhere else are
      the two tokens. */
  lemma PlaceholderPair(s: string, p: nat, q: nat)
    requires p + 3 <= q && q + 3 <= |s|
    requires ShortPlaceholder(s[p..p + 3]) && ShortPlaceholder(s[q..q + 3])
    requires forall k :: 0 <= k < p ==> s[k] != '{' && s[k] != '}'
    requires forall k :: p + 3 <= k < q ==> s[k] != '{' && s[k] != '}'
    requires forall k :: q + 3 <= k < |s| ==> s[k] != '{' && s[k] != '}'
    ensures Tokens(s) == Success([s[p..p + 3], s[q..q + 3]])
  {
    PairTail(s, p, q);
    assert s[p] == '{' && s[p + 1] != '{' && s[p + 1] != '}' && s[p + 2] == '}';
    TakePlaceholder(s, p, p + 2);
    SkipPlain(s, 0, p);
    assert [s[p..p + 3]] + [s[q..q + 3]] == [s[p..p + 3], s[q..q + 3]];
  }

  lemma PairTail(s: string, p: nat, q: nat)
    requires p + 3 <= q && q + 3 <= |s|
    requires ShortPlaceholder(s[q..q + 3])
    requires forall k :: p + 3 <= k < q ==> s[k] != '{' && s[k] != '}'
    requires forall k :: q + 3 <= k < |s| ==> s[k] != '{' && s[k] != '}'
    ensures TokensFrom(s, p + 3) == Success([s[q..q + 3]])
  {
    assert s[q] == '{' && s[q + 1] != '{' && s[q + 1] != '}' && s[q + 2] == '}';
    LastPlaceholder(s, q);
    SkipPlain(s, p + 3, q);
  }

  /** The signature of two tokens: both stored as 0, or one stored as 1. */
  lemma PairSignature(u: string, v: string)
    ensures AddAll(map[], [u, v]) == (if u == v then map[u := 1] else map[u := 0, v := 0])
  {
    assert [u, v][1..] == [v];
    assert [v][1..] == [];
    assert AddAll(map[], [u, v]) == AddAll(map[u := 0], [v]);
    assert AddAll(map[u := 0], [v]) == AddAll(AddResult(map[u := 0], v), []);
  }

  lemma TwoPlaceholderTokens(a: string, b: string, c: string)
    requires BraceFree(a) && BraceFree(b) && BraceFree(c)
    ensures Tokens(a + "{0}" + b + "{1}" + c) == Success(["{0}", "{1}"])
  {
    var s := a + "{0}" + b + "{1}" + c;
    var p := |a|;
    var q := p + 3 + |b|;
    assert s[p..p + 3] == "{0}" && s[q..q + 3] == "{1}";
    assert forall k :: 0 <= k < p ==> s[k] == a[k];
    assert forall k :: p + 3 <= k < q ==> s[k] == b[k - p - 3];
    assert forall k :: q + 3 <= k < |s| ==> s[k] == c[k - q - 3];
    PlaceholderPair(s, p, q);
  }

  /** Text with two placeholders between brace-free runs, such as
      "Hello {0}, you have {1} items", has one of each. */
  lemma TwoPlaceholdersExample(a: string, b: string, c: string)
    requires BraceFree(a) && BraceFree(b) && BraceFree(c)
    ensures GetStringMetadata(a + "{0}" + b + "{1}" + c) == Success(map["{0}" := 0, "{1}" := 0])
  {
    TwoPlaceholderTokens(a, b, c);
    PairSignature("{0}", "{1}");
  }

  /** Escaped braces give no placeholder. */
  lemma EscapedBracesExample()
    ensures GetStringMetadata("{{literal}}") == Success(map[])
  {
    NoBraceNoTokens("{{literal}}", 3);
  }

  /** A repeated placeholder is stored as 1: occurrences minus one. */
  lemma RepeatedPlaceholderExample(s: string)
    requires s == "{0}{0}"
    ensures GetStringMetadata(s) == Success(map["{0}" := 1])
  {
    assert s[0..3] == "{0}" && s[3..6] == "{0}";
    PlaceholderPair(s, 0, 3);
    PairSignature("{0}", "{0}");
  }

  /** `}}` right after the first `}` cancels the placeholder. */
  lemma DoubledCloseExample()
    ensures GetStringMetadata("{0}}") == Success(map[])
  {
    assert IndexOf("{0}}", '}', 0) == Some(2);
  }

  /** An unterminated placeholder swallows the rest of the string. */
  lemma UnterminatedExample()
    ensures GetStringMetadata("x{0 y") == Success(map["{0 y" := 0])
  {
    assert IndexOf("x{0 y", '}', 1).None?;
    assert "x{0 y"[1..] == "{0 y";
  }

  /** A string ending in `{{` at an even offset makes the scan read past the end. */
  lemma TrailingEscapeFaultsExample()
    ensures GetStringMetadata("a{{") == Failure(IndexOutOfRange)
    ensures GetStringMetadata("{{{") == Failure(IndexOutOfRange)
  {
  }

  /** The comparison is one-directional: an extra localized placeholder is
      accepted, a dropped one is not. */
  lemma AsymmetryExample(one: string, two: string)
    requires one == "{0}" && two == "{0} {1}"
    ensures CompareStrings(one, two) == Success(true)
    ensures CompareStrings(two, one) == Success(false)
  {
    var m1, m2 := map["{0}" := 0], map["{0}" := 0, "{1}" := 0];
    OnePlaceholderSignature(one);
    TwoPlaceholderSignature(two);
    SignatureVerdict(one, two, m1, m2);
    SignatureVerdict(two, one, m2, m1);
    SubSignature(m1, m2);
  }

  lemma SignatureVerdict(a: string, b: string, ma: Signature, mb: Signature)
    requires GetStringMetadata(a) == Success(ma) && GetStringMetadata(b) == Success(mb)
    ensures CompareStrings(a, b) == Success(StringMetadataEquals(ma, mb))
  {
  }

  lemma SubSignature(m1: Signature, m2: Signature)
    requires m1 == map["{0}" := 0] && m2 == map["{0}" := 0, "{1}" := 0]
    ensures StringMetadataEquals(m1, m2) && !StringMetadataEquals(m2, m1)
  {
    assert "{1}" in m2 && "{1}" !in m1;
  }

  lemma OnePlaceholderSignature(one: string)
    requires one == "{0}"
    ensures GetStringMetadata(one) == Success(map["{0}" := 0])
  {
    LastPlaceholder(one, 0);
    assert one[0..3] == "{0}";
    assert ["{0}"][1..] == [];
    assert AddAll(map[], ["{0}"]) == AddAll(map["{0}" := 0], []);
  }

  lemma TwoPlaceholderSignature(two: string)
    requires two == "{0} {1}"
    ensures GetStringMetadata(two) == Success(map["{0}" := 0, "{1}" := 0])
  {
    assert two[0..3] == "{0}" && two[4..7] == "{1}";
    PlaceholderPair(two, 0, 4);
    PairSignature("{0}", "{1}");
  }
}
