/** Lock comments of LCI records (LocalizationValidator.IsStringResourceLocked,
    GetLockedSubStrings, CleanLockedString, GetStringResourceComments).
    A comment such as `{Locked="NuGet","nuget.exe"}` names substrings that
    need no translation. */
module Locking {
  import opened Wrappers
  import opened Platform
  import opened Text

  // ---------------------------------------------------------------------------
  // Clauses

  /** The shape of a clause cut out of a comment: from a `{` to the first `}`
      after it. The empty clause only arises from a `{` at index 0 with no
      `}` after it, where `Substring(0, 0)` happens to be legal. */
  predicate IsClause(cl: string) {
    cl == [] || (|cl| >= 2 && cl[0] == '{' && cl[|cl| - 1] == '}'
                 && forall k :: 0 <= k < |cl| - 1 ==> cl[k] != '}')
  }

  /** The clause starting at the `{` at index `i`: the shortest stretch of
      `c` from there that ends in `}`. Without a `}` after it only a `{` at
      index 0 gives a (empty) clause; elsewhere `Substring` throws. */
  function ClauseAt(c: string, i: nat): (r: Result<string, Fault>)
    requires i < |c| && c[i] == '{'
    ensures r.Success? ==> IsClause(r.value)
    ensures r.Failure? <==> i > 0 && '}' !in c[i..]
    ensures r == Success([]) <==> i == 0 && '}' !in c[i..]
    ensures r.Success? && r.value != [] ==> i + |r.value| <= |c| && r.value == c[i..i + |r.value|]
  {
    match IndexOf(c, '}', i)
    case Some(e) => Success(c[i..e + 1])
    case None => if i == 0 then Success([]) else Failure(ArgumentOutOfRange)
  }

  /** The positions of the `{` characters of `c` from index `i` on, in order. */
  function Opens(c: string, i: nat): (r: seq<nat>)
    requires i <= |c|
    ensures |r| == Count(c[i..], '{')
    ensures forall k :: 0 <= k < |r| ==> i <= r[k] < |c| && c[r[k]] == '{'
    ensures forall k, m :: 0 <= k < m < |r| ==> r[k] < r[m]
    decreases |c| - i
  {
    if i == |c| then []
    else
      assert c[i..] == [c[i]] + c[i + 1..];
      if c[i] == '{' then [i] + Opens(c, i + 1) else Opens(c, i + 1)
  }

  /** The `{` at index `j` is listed by every scan starting at or before it. */
  lemma {:induction false} OpensHas(c: string, i: nat, j: nat)
    requires i <= j < |c| && c[j] == '{'
    ensures j in Opens(c, i)
    decreases j - i
  {
    var later := Opens(c, i + 1);
    if i == j {
      assert Opens(c, i) == [i] + later;
    } else {
      OpensHas(c, i + 1, j);
      assert j in later;
      if c[i] == '{' {
        assert Opens(c, i) == [i] + later;
      } else {
        assert Opens(c, i) == later;
      }
    }
  }

  /** Every `{` from index `i` on is listed. */
  lemma OpensComplete(c: string, i: nat)
    requires i <= |c|
    ensures forall j :: i <= j < |c| && c[j] == '{' ==> j in Opens(c, i)
  {
    forall j | i <= j < |c| && c[j] == '{' {
      OpensHas(c, i, j);
    }
  }

  /** `GetStringResourceComments` from index `i` on: one clause per `{`, so
      nested braces give overlapping clauses. */
  function ClausesFrom(c: string, i: nat): (r: Result<seq<string>, Fault>)
    requires i <= |c|
    ensures r.Success? ==> |r.value| == Count(c[i..], '{')
    ensures r.Success? ==> forall cl :: cl in r.value ==> IsClause(cl)
    decreases |c| - i
  {
    if i == |c| then Success([])
    else
      assert c[i..] == [c[i]] + c[i + 1..];
      if c[i] == '{' then
        var clause :- ClauseAt(c, i);
        var rest :- ClausesFrom(c, i + 1);
        Success([clause] + rest)
      else ClausesFrom(c, i + 1)
  }

  /** Clause `k` is the one that starts at the `k`-th `{`, and the
      extraction throws iff the clause at one of them does. */
  lemma ClausesAtOpens(c: string, i: nat)
    requires i <= |c|
    ensures ClausesFrom(c, i).Success? ==> forall k :: 0 <= k < |ClausesFrom(c, i).value| ==>
      ClauseAt(c, Opens(c, i)[k]) == Success(ClausesFrom(c, i).value[k])
    ensures ClausesFrom(c, i).Failure? <==> exists k :: 0 <= k < |Opens(c, i)| && ClauseAt(c, Opens(c, i)[k]).Failure?
  {
    if ClausesFrom(c, i).Success? {
      ClausesAtOpensValues(c, i);
    }
    ClausesAtOpensFault(c, i);
  }

  /** The values half of `ClausesAtOpens`. */
  lemma ClausesAtOpensValues(c: string, i: nat)
    requires i <= |c| && ClausesFrom(c, i).Success?
    ensures forall k :: 0 <= k < |ClausesFrom(c, i).value| ==>
      ClauseAt(c, Opens(c, i)[k]) == Success(ClausesFrom(c, i).value[k])
  {
    forall k | 0 <= k < |ClausesFrom(c, i).value| {
      ClauseAtOpen(c, i, k);
    }
  }

  /** Clause `k` of a successful extraction from `i` is the clause at the `k`-th `{`. */
  lemma {:induction false} ClauseAtOpen(c: string, i: nat, k: nat)
    requires i <= |c| && ClausesFrom(c, i).Success? && k < |ClausesFrom(c, i).value|
    ensures k < |Opens(c, i)| && ClauseAt(c, Opens(c, i)[k]) == Success(ClausesFrom(c, i).value[k])
    decreases |c| - i
  {
    assert i < |c|;
    OpensStep(c, i);
    if c[i] == '{' {
      ClausesStep(c, i);
      if k > 0 {
        ClauseAtOpen(c, i + 1, k - 1);
      }
    } else {
      ClausesSkip(c, i);
      ClauseAtOpen(c, i + 1, k);
    }
  }

  /** One step of the scan for `{`. */
  lemma OpensStep(c: string, i: nat)
    requires i < |c|
    ensures c[i] == '{' ==> Opens(c, i) == [i] + Opens(c, i + 1)
    ensures c[i] != '{' ==> Opens(c, i) == Opens(c, i + 1)
  {
  }

  /** A successful extraction at a `{` is that clause followed by the rest. */
  lemma ClausesStep(c: string, i: nat)
    requires i < |c| && c[i] == '{' && ClausesFrom(c, i).Success?
    ensures ClauseAt(c, i).Success? && ClausesFrom(c, i + 1).Success?
    ensures ClausesFrom(c, i).value == [ClauseAt(c, i).value] + ClausesFrom(c, i + 1).value
  {
  }

  /** An extraction at a character other than `{` is the extraction from the next one. */
  lemma ClausesSkip(c: string, i: nat)
    requires i < |c| && c[i] != '{'
    ensures ClausesFrom(c, i) == ClausesFrom(c, i + 1)
  {
  }

  /** At a `{` the extraction fails exactly when that clause or the rest fails. */
  lemma ClausesFaultStep(c: string, i: nat)
    requires i < |c| && c[i] == '{'
    ensures ClausesFrom(c, i).Failure? <==> ClauseAt(c, i).Failure? || ClausesFrom(c, i + 1).Failure?
  {
  }

  /** The fault half of `ClausesAtOpens`. */
  lemma ClausesAtOpensFault(c: string, i: nat)
    requires i <= |c|
    ensures ClausesFrom(c, i).Failure? <==> exists k :: 0 <= k < |Opens(c, i)| && ClauseAt(c, Opens(c, i)[k]).Failure?
  {
    if ClausesFrom(c, i).Failure? {
      var j := FaultyBrace(c, i);
      OpensHas(c, i, j);
      var k :| 0 <= k < |Opens(c, i)| && Opens(c, i)[k] == j;
      assert ClauseAt(c, Opens(c, i)[k]).Failure?;
    }
    forall k | 0 <= k < |Opens(c, i)| && ClauseAt(c, Opens(c, i)[k]).Failure? {
      BraceFaults(c, i, Opens(c, i)[k]);
    }
  }

  /** A failed extraction names the `{` whose clause failed. */
  lemma {:induction false} FaultyBrace(c: string, i: nat) returns (j: nat)
    requires i <= |c| && ClausesFrom(c, i).Failure?
    ensures i <= j < |c| && c[j] == '{' && ClauseAt(c, j).Failure?
    decreases |c| - i
  {
    assert i < |c|;
    if c[i] == '{' {
      ClausesFaultStep(c, i);
      if ClauseAt(c, i).Failure? {
        j := i;
      } else {
        j := FaultyBrace(c, i + 1);
      }
    } else {
      ClausesSkip(c, i);
      j := FaultyBrace(c, i + 1);
    }
  }

  /** A failing clause at any `{` from `i` on fails the whole extraction. */
  lemma {:induction false} BraceFaults(c: string, i: nat, j: nat)
    requires i <= j < |c| && c[j] == '{' && ClauseAt(c, j).Failure?
    ensures ClausesFrom(c, i).Failure?
    decreases j - i
  {
    if c[i] == '{' {
      ClausesFaultStep(c, i);
      if i < j {
        BraceFaults(c, i + 1, j);
      }
    } else {
      ClausesSkip(c, i);
      BraceFaults(c, i + 1, j);
    }
  }

  function GetStringResourceComments(c: string): Result<seq<string>, Fault> {
    ClausesFrom(c, 0)
  }

  /** The extraction throws exactly when some `{` after the first character
      has no `}` anywhere after it. */
  lemma CommentsFault(c: string)
    ensures GetStringResourceComments(c).Failure? <==>
      exists j :: 0 < j < |c| && c[j] == '{' && '}' !in c[j..]
  {
    ClausesAtOpens(c, 0);
    OpensComplete(c, 0);
    var os := Opens(c, 0);
    if GetStringResourceComments(c).Failure? {
      var k :| 0 <= k < |os| && ClauseAt(c, os[k]).Failure?;
      assert 0 < os[k] < |c| && c[os[k]] == '{' && '}' !in c[os[k]..];
    }
    if exists j :: 0 < j < |c| && c[j] == '{' && '}' !in c[j..] {
      var j :| 0 < j < |c| && c[j] == '{' && '}' !in c[j..];
      var k :| 0 <= k < |os| && os[k] == j;
      assert ClauseAt(c, os[k]).Failure?;
    }
  }

  // ---------------------------------------------------------------------------
  // Locked substrings

  /** `CleanLockedString`: drops one trailing `}`, then a leading `"` together
      with the last character, then (if the result still ends in `"`) the
      last two characters. */
  function CleanLockedString(s: string): Result<string, Fault> {
    var s1 := if EndsWith(s, "}") then s[..|s| - 1] else s;
    var s2 :- if !StartsWith(s1, "\"") then Success(s1)
              else if |s1| < 2 then Failure(ArgumentOutOfRange)
              else Success(s1[1..|s1| - 1]);
    if !EndsWith(s2, "\"") then Success(s2)
    else if |s2| < 2 then Failure(ArgumentOutOfRange)
    else Success(s2[..|s2| - 2])
  }

  /** Trims and cleans each comma-separated value; the first value that
      cannot be cleaned makes the whole extraction throw. */
  function CleanAll(rt: Runtime, values: seq<string>): (r: Result<seq<string>, Fault>)
    ensures r.Success? ==> |r.value| == |values|
    ensures r.Success? ==> forall k :: 0 <= k < |values| ==> CleanLockedString(Trim(rt, values[k])) == Success(r.value[k])
    ensures r.Failure? <==> exists k :: 0 <= k < |values| && CleanLockedString(Trim(rt, values[k])).Failure?
  {
    if values == [] then Success([])
    else
      var head := CleanLockedString(Trim(rt, values[0]));
      var tail := CleanAll(rt, values[1..]);
      TailShift(values);
      if head.Failure? then Failure(head.error)
      else if tail.Failure? then Failure(tail.error)
      else Success([head.value] + tail.value)
  }

  /** Index `k` of the tail of `xs` is index `k + 1` of `xs`. */
  lemma TailShift<T>(xs: seq<T>)
    requires xs != []
    ensures forall k :: 1 <= k < |xs| ==> xs[k] == xs[1..][k - 1]
  {
  }

  /** The body of the loop in `GetLockedSubStrings`, over the clauses in order. */
  function LockedFromClauses(rt: Runtime, clauses: seq<string>): Result<seq<string>, Fault> {
    if clauses == [] then Success([])
    else
      var parts := Split(clauses[0], '=');
      if |parts| < 2 then Failure(IndexOutOfRange)
      else
        var here :- if Contains(parts[0], "Locked") then CleanAll(rt, Split(parts[1], ','))
                    else Success([]);
        var rest :- LockedFromClauses(rt, clauses[1..]);
        Success(here + rest)
  }

  function GetLockedSubStrings(rt: Runtime, c: string): Result<seq<string>, Fault> {
    var clauses :- GetStringResourceComments(c);
    LockedFromClauses(rt, clauses)
  }

  // ---------------------------------------------------------------------------
  // The verdict

  /** The loop of `IsStringResourceLocked`: removes every occurrence of each
      locked substring in turn. `Replace` refuses an empty `oldValue`, and
      every string contains the empty string, so an empty one throws. */
  function RemoveLocked(v: string, subs: seq<string>): (r: Result<string, Fault>)
    ensures r.Success? ==> |r.value| <= |v|
    decreases |subs|
  {
    if subs == [] then Success(v)
    else
      var v' :- if !Contains(v, subs[0]) then Success(v)
                else if subs[0] == [] then Failure(ArgumentEmpty)
                else Success(RemoveAll(v, subs[0]));
      RemoveLocked(v', subs[1..])
  }

  /** The marker that locks a whole string. */
  const WholeLock := "{Locked}"

  /** `IsStringResourceLocked(cmt, val)`. */
  function IsStringResourceLocked(rt: Runtime, comment: string, value: string): Result<bool, Fault> {
    if EqualsIgnoreCase(rt, comment, WholeLock) then Success(true)
    else
      var subs :- GetLockedSubStrings(rt, comment);
      var rest :- RemoveLocked(value, subs);
      Success(rest == [] || LetterFree(rt, rest))
  }

  /** Whether the comment mentions a lock at all, used only to report the
      string as locked. */
  predicate MentionsLock(comment: string) {
    Contains(comment, "Locked")
  }

  // ---------------------------------------------------------------------------
  // Properties

  /** `{Locked}` in any letter case locks every value. */
  lemma WholeLockLocksEverything(rt: Runtime, comment: string, value: string)
    requires EqualsIgnoreCase(rt, comment, WholeLock)
    ensures IsStringResourceLocked(rt, comment, value) == Success(true)
  {
  }

  /** Removing non-empty substrings never fails and never brings in a character. */
  lemma {:induction false} RemoveLockedKeepsCharacters(v: string, subs: seq<string>)
    requires forall t :: t in subs ==> t != []
    ensures RemoveLocked(v, subs).Success?
    ensures forall ch :: ch in RemoveLocked(v, subs).value ==> ch in v
    decreases |subs|
  {
    if subs != [] {
      assert subs[0] in subs;
      assert forall t :: t in subs[1..] ==> t in subs;
      var v' := if !Contains(v, subs[0]) then v else RemoveAll(v, subs[0]);
      if Contains(v, subs[0]) {
        RemoveAllKeepsCharacters(v, subs[0]);
      }
      RemoveLockedKeepsCharacters(v', subs[1..]);
    }
  }

  /** An empty locked substring always throws. */
  lemma {:induction false} EmptyLockedSubstringFaults(v: string, subs: seq<string>)
    requires [] in subs
    ensures RemoveLocked(v, subs) == Failure(ArgumentEmpty)
    decreases |subs|
  {
    assert OccursAt(v, [], 0);
    if subs[0] != [] {
      var v' := if !Contains(v, subs[0]) then v else RemoveAll(v, subs[0]);
      EmptyLockedSubstringFaults(v', subs[1..]);
    }
  }

  /** A value without letters is locked whatever its comment names, as long
      as the comment can be parsed and names no empty substring. */
  lemma LetterFreeValueIsLocked(rt: Runtime, comment: string, value: string)
    requires LetterFree(rt, value)
    requires GetLockedSubStrings(rt, comment).Success?
    requires forall t :: t in GetLockedSubStrings(rt, comment).value ==> t != []
    ensures IsStringResourceLocked(rt, comment, value) == Success(true)
  {
    if !EqualsIgnoreCase(rt, comment, WholeLock) {
      var subs := GetLockedSubStrings(rt, comment).value;
      RemoveLockedKeepsCharacters(value, subs);
      var rest := RemoveLocked(value, subs).value;
      forall k | 0 <= k < |rest| ensures !rt.isLetter(rest[k]) {
        assert rest[k] in value;
      }
    }
  }

  lemma {:induction false} NoOpenBraceNoClauses(c: string, i: nat)
    requires i <= |c|
    requires forall k :: i <= k < |c| ==> c[k] != '{'
    ensures ClausesFrom(c, i) == Success([])
    decreases |c| - i
  {
    if i < |c| {
      NoOpenBraceNoClauses(c, i + 1);
    }
  }

  /** A comment without clauses (and not the whole-string marker) locks
      exactly the values without letters. */
  lemma NoClauseLocksOnlyLetterFree(rt: Runtime, comment: string, value: string)
    requires '{' !in comment && !EqualsIgnoreCase(rt, comment, WholeLock)
    ensures IsStringResourceLocked(rt, comment, value) == Success(LetterFree(rt, value))
  {
    NoOpenBraceNoClauses(comment, 0);
  }

  /** Every clause must contain `=`: one that does not throws. */
  lemma {:induction false} ClauseWithoutEqualsFaults(rt: Runtime, clauses: seq<string>, i: nat)
    requires i < |clauses| && '=' !in clauses[i]
    ensures LockedFromClauses(rt, clauses).Failure?
    decreases i
  {
    var parts := Split(clauses[0], '=');
    if i == 0 {
      assert forall k :: 0 <= k < |clauses[0]| ==> clauses[0][k] != '=';
      assert |parts| == 1;
    } else if |parts| >= 2 {
      ClauseWithoutEqualsFaults(rt, clauses[1..], i - 1);
    }
  }

  /** Only clauses whose type (the text before the first `=`) mentions
      `Locked` contribute substrings. */
  lemma {:induction false} UnlockedClausesContributeNothing(rt: Runtime, clauses: seq<string>)
    requires forall cl :: cl in clauses ==> |Split(cl, '=')| >= 2 && !Contains(Split(cl, '=')[0], "Locked")
    ensures LockedFromClauses(rt, clauses) == Success([])
    decreases |clauses|
  {
    if clauses != [] {
      assert clauses[0] in clauses;
      assert forall cl :: cl in clauses[1..] ==> cl in clauses;
      UnlockedClausesContributeNothing(rt, clauses[1..]);
      var parts := Split(clauses[0], '=');
      assert |parts| >= 2 && !Contains(parts[0], "Locked");
      var none: seq<string> := [];
      assert none + none == none;
    }
  }

  // ---------------------------------------------------------------------------
  // Cleaning a locked value

  /** A quoted value loses its quotes, with or without the clause's closing brace. */
  lemma CleanQuoted(x: string)
    requires !EndsWith(x, "\"")
    ensures CleanLockedString("\"" + x + "\"") == Success(x)
    ensures CleanLockedString("\"" + x + "\"}") == Success(x)
  {
    var q := "\"" + x + "\"";
    assert q[1..|q| - 1] == x;
    assert StartsWith(q, "\"") && !EndsWith(q, "}");
    var b := q + "}";
    assert "\"" + x + "\"}" == b;
    assert EndsWith(b, "}");
    assert b[..|b| - 1] == q;
  }

  /** A value with no quote at either end and no trailing brace is kept as is. */
  lemma CleanPlain(x: string)
    requires !StartsWith(x, "\"") && !EndsWith(x, "\"") && !EndsWith(x, "}")
    ensures CleanLockedString(x) == Success(x)
  {
  }

  /** An unmatched closing quote costs the character before it too:
      `Contoso"` becomes `Contos`. */
  lemma CleanUnmatchedQuote(x: string)
    requires |x| >= 1 && x[0] != '"'
    ensures CleanLockedString(x + "\"") == Success(x[..|x| - 1])
  {
    var s := x + "\"";
    CleanClosingQuote(s);
    assert s[..|s| - 2] == x[..|x| - 1];
  }

  /** A value that ends in a quote but does not start with one loses its
      last two characters. */
  lemma CleanClosingQuote(s: string)
    requires |s| >= 2 && s[0] != '"' && s[|s| - 1] == '"'
    ensures CleanLockedString(s) == Success(s[..|s| - 2])
  {
    assert s[|s| - 1..] == [s[|s| - 1]];
    assert s[..1] == [s[0]];
    assert !EndsWith(s, "}") && !StartsWith(s, "\"") && EndsWith(s, "\"");
  }

  /** A lone quote throws: `Substring(1, -1)`. */
  lemma CleanLoneQuote()
    ensures CleanLockedString("\"") == Failure(ArgumentOutOfRange)
  {
  }

  // ---------------------------------------------------------------------------
  // Examples

  /** Nested braces give overlapping clauses, one per `{`. */
  lemma NestedClausesExample(c: string)
    requires c == "{a{b}}"
    ensures GetStringResourceComments(c) == Success(["{a{b}", "{b}"])
  {
    InnerClause(c);
    OuterClause(c);
    assert ClausesFrom(c, 1) == Success(["{b}"]);
    assert ["{a{b}"] + ["{b}"] == ["{a{b}", "{b}"];
  }

  lemma InnerClause(c: string)
    requires c == "{a{b}}"
    ensures ClausesFrom(c, 2) == Success(["{b}"])
  {
    NoOpenBraceNoClauses(c, 3);
    IndexOfIs(c, '}', 2, 4);
    assert c[2..5] == "{b}";
    assert ClauseAt(c, 2) == Success("{b}");
    assert ["{b}"] + [] == ["{b}"];
  }

  lemma OuterClause(c: string)
    requires c == "{a{b}}"
    ensures ClauseAt(c, 0) == Success("{a{b}")
  {
    IndexOfIs(c, '}', 0, 4);
    assert c[0..5] == "{a{b}";
  }

  /** A `{` without a later `}` throws, except at index 0. */
  lemma UnclosedClauseExample()
    ensures GetStringResourceComments("{a") == Success([[]])
    ensures GetStringResourceComments("x{a") == Failure(ArgumentOutOfRange)
  {
    assert IndexOf("{a", '}', 0).None?;
    assert ClausesFrom("{a", 1) == Success([]);
    assert ClauseAt("{a", 0) == Success([]);
    var empty: string := [];
    assert [empty] + [] == [empty];
    assert IndexOf("x{a", '}', 1).None?;
  }

  /** A comment whose only `{` opens it and whose only `}` closes it is one clause. */
  lemma SingleClause(c: string)
    requires |c| >= 2 && c[0] == '{' && c[|c| - 1] == '}'
    requires forall k :: 0 < k < |c| - 1 ==> c[k] != '{' && c[k] != '}'
    ensures GetStringResourceComments(c) == Success([c])
  {
    assert IndexOf(c, '}', 0) == Some(|c| - 1);
    assert c[0..|c|] == c;
    assert ClauseAt(c, 0) == Success(c);
    NoOpenBraceNoClauses(c, 1);
    assert [c] + [] == [c];
  }

  /** `{Locked}` followed by more text is no longer the whole-string marker
      but a clause without `=`, so the lock test throws. */
  lemma LockMarkerWithTailFaults(rt: Runtime, tail: string, value: string)
    requires |tail| > 0 && '{' !in tail
    ensures MentionsLock(WholeLock + tail)
    ensures IsStringResourceLocked(rt, WholeLock + tail, value).Failure?
  {
    var c := WholeLock + tail;
    MarkerClause(c, tail);
    assert !EqualsIgnoreCase(rt, c, WholeLock);
    ClauseWithoutEqualsFaults(rt, [WholeLock], 0);
  }

  lemma MarkerClause(c: string, tail: string)
    requires |tail| > 0 && '{' !in tail && c == WholeLock + tail
    ensures GetStringResourceComments(c) == Success([WholeLock])
    ensures MentionsLock(c)
  {
    MarkerClauseAt(c, tail);
    forall k | 1 <= k < |c| ensures c[k] != '{' {
      if k >= 8 {
        assert c[k] == tail[k - 8];
      }
    }
    NoOpenBraceNoClauses(c, 1);
    assert [WholeLock] + [] == [WholeLock];
  }

  lemma MarkerClauseAt(c: string, tail: string)
    requires c == WholeLock + tail
    ensures c[0] == '{' && ClauseAt(c, 0) == Success(WholeLock)
    ensures OccursAt(c, "Locked", 1)
  {
    assert c[..8] == WholeLock;
    assert c[1..7] == WholeLock[1..7];
    assert c[1..7] == "Locked";
    assert c[7] == '}';
    assert forall k :: 0 <= k < 7 ==> c[k] != '}';
    assert IndexOf(c, '}', 0) == Some(7);
  }

  /** A value free of the comment's delimiters, to be quoted in a clause. */
  predicate PlainValue(x: string) {
    |x| > 0 && '{' !in x && '}' !in x && '=' !in x && ',' !in x && '"' !in x
  }

  /** The comment `{Locked="x"}`. */
  function LockClause(x: string): string {
    "{Locked=\"" + x + "\"}"
  }

  /** The quoted value part of `{Locked="x"}`, after the `=`. */
  function QuotedValue(x: string): string {
    "\"" + x + "\"}"
  }

  lemma LockClauseShape(x: string)
    requires PlainValue(x)
    ensures GetStringResourceComments(LockClause(x)) == Success([LockClause(x)])
    ensures Split(LockClause(x), '=') == ["{Locked", QuotedValue(x)]
    ensures Split(QuotedValue(x), ',') == [QuotedValue(x)]
  {
    LockClauseIsOneClause(x);
    LockClauseSplits(x, QuotedValue(x));
  }

  lemma LockClauseSplits(x: string, value: string)
    requires PlainValue(x) && value == QuotedValue(x)
    ensures Split(LockClause(x), '=') == ["{Locked", value]
    ensures Split(value, ',') == [value]
  {
    QuotedValueIsPlain(x);
    assert LockClause(x) == Join(["{Locked", value], '=');
    SplitJoin(["{Locked", value], '=');
    SplitJoin([value], ',');
  }

  lemma LockClauseIsOneClause(x: string)
    requires PlainValue(x)
    ensures GetStringResourceComments(LockClause(x)) == Success([LockClause(x)])
  {
    var c := LockClause(x);
    assert forall k :: 9 <= k < |c| - 2 ==> c[k] == x[k - 9];
    SingleClause(c);
  }

  lemma QuotedValueIsPlain(x: string)
    requires PlainValue(x)
    ensures '=' !in QuotedValue(x) && ',' !in QuotedValue(x)
  {
    var value := QuotedValue(x);
    assert forall k :: 1 <= k < |value| - 2 ==> value[k] == x[k - 1];
  }

  lemma QuotedValueCleans(rt: Runtime, x: string)
    requires PlainValue(x)
    requires !rt.isWhiteSpace('"') && !rt.isWhiteSpace('}')
    ensures CleanAll(rt, [QuotedValue(x)]) == Success([x])
  {
    var value := QuotedValue(x);
    assert value[0] == '"' && value[|value| - 1] == '}';
    TrimKeeps(rt, value);
    assert !EndsWith(x, "\"") by {
      assert x[|x| - 1] in x;
    }
    CleanQuoted(x);
    CleanSingle(rt, value, x);
  }

  lemma CleanSingle(rt: Runtime, v: string, x: string)
    requires CleanLockedString(Trim(rt, v)) == Success(x)
    ensures CleanAll(rt, [v]) == Success([x])
  {
    assert [v][1..] == [];
    assert [x] + [] == [x];
  }

  lemma LockedKeyword()
    ensures Contains("{Locked", "Locked")
  {
    assert OccursAt("{Locked", "Locked", 1);
  }

  /** `{Locked="x"}` names exactly the substring `x`. */
  lemma LockClauseSubStrings(rt: Runtime, x: string)
    requires PlainValue(x)
    requires !rt.isWhiteSpace('"') && !rt.isWhiteSpace('}')
    ensures GetLockedSubStrings(rt, LockClause(x)) == Success([x])
  {
    var c := LockClause(x);
    LockClauseShape(x);
    QuotedValueCleans(rt, x);
    LockedKeyword();
    assert LockedFromClauses(rt, [c][1..]) == Success([]);
    assert [x] + [] == [x];
  }

  /** With `{Locked="x"}`, the value `x + y` is locked iff what follows `x`
      has no letter (when `y` itself does not contain `x`). */
  lemma LockClauseVerdict(rt: Runtime, x: string, y: string)
    requires PlainValue(x) && !Contains(y, x)
    requires !rt.isWhiteSpace('"') && !rt.isWhiteSpace('}')
    ensures IsStringResourceLocked(rt, LockClause(x), x + y) == Success(LetterFree(rt, y))
  {
    LockClauseSubStrings(rt, x);
    assert !EqualsIgnoreCase(rt, LockClause(x), WholeLock);
    assert OccursAt(x + y, x, 0);
    assert (x + y)[..|x|] == x && (x + y)[|x|..] == y;
    RemoveAllAbsent(y, x);
    assert RemoveLocked(x + y, [x]) == Success(y);
  }

  /** "Contoso 123" is locked by `{Locked="Contoso"}`: only digits and a
      space are left once "Contoso" is removed. */
  lemma ContosoNumberIsLocked(rt: Runtime, name: string, y: string)
    requires name == "Contoso" && y == " 123"
    requires !rt.isWhiteSpace('"') && !rt.isWhiteSpace('}')
    requires !rt.isLetter(' ') && !rt.isLetter('1') && !rt.isLetter('2') && !rt.isLetter('3')
    ensures IsStringResourceLocked(rt, LockClause(name), name + y) == Success(true)
  {
    NumberIsLetterFree(rt, y);
    ContosoVerdict(rt, name, y);
  }

  lemma NumberIsLetterFree(rt: Runtime, y: string)
    requires y == " 123"
    requires !rt.isLetter(' ') && !rt.isLetter('1') && !rt.isLetter('2') && !rt.isLetter('3')
    ensures LetterFree(rt, y)
  {
  }

  /** "Contoso Inc." is not: the "I" of "Inc." is left. */
  lemma ContosoIncIsNotLocked(rt: Runtime, name: string, y: string)
    requires name == "Contoso" && y == " Inc."
    requires !rt.isWhiteSpace('"') && !rt.isWhiteSpace('}')
    requires rt.isLetter('I')
    ensures IsStringResourceLocked(rt, LockClause(name), name + y) == Success(false)
  {
    IncHasLetter(rt, y);
    ContosoVerdict(rt, name, y);
  }

  lemma IncHasLetter(rt: Runtime, y: string)
    requires y == " Inc." && rt.isLetter('I')
    ensures !LetterFree(rt, y)
  {
    assert y[1] == 'I';
  }

  lemma ContosoVerdict(rt: Runtime, name: string, y: string)
    requires name == "Contoso" && |y| < |name|
    requires !rt.isWhiteSpace('"') && !rt.isWhiteSpace('}')
    ensures IsStringResourceLocked(rt, LockClause(name), name + y) == Success(LetterFree(rt, y))
  {
    ShorterNotContained(y, name);
    LockClauseVerdict(rt, name, y);
  }

  /** Without braces the same text is no clause at all: `Locked="Contoso"`
      leaves "Contoso 123" unlocked. */
  lemma BracelessLockIsIgnored(rt: Runtime)
    requires rt.isLetter('C')
    ensures IsStringResourceLocked(rt, "Locked=\"Contoso\"", "Contoso 123") == Success(false)
  {
    NoClauseLocksOnlyLetterFree(rt, "Locked=\"Contoso\"", "Contoso 123");
    assert "Contoso 123"[0] == 'C';
  }
}
