/** The `System.String` operations the validator uses, over `seq<char>`.
    Comparisons are ordinal. */
module Text {
  import opened Wrappers
  import opened Platform

  /** `s.IndexOf(ch, from)`, with `None` for -1. */
  function IndexOf(s: string, ch: char, from: nat): (r: Option<nat>)
    requires from <= |s|
    ensures r.Some? ==> from <= r.value < |s| && s[r.value] == ch
    ensures r.Some? ==> forall k :: from <= k < r.value ==> s[k] != ch
    ensures r.None? <==> forall k :: from <= k < |s| ==> s[k] != ch
    decreases |s| - from
  {
    if from == |s| then None
    else if s[from] == ch then Some(from)
    else IndexOf(s, ch, from + 1)
  }

  /** The first `ch` at or after `from` is at `e`. */
  lemma IndexOfIs(s: string, ch: char, from: nat, e: nat)
    requires from <= e < |s| && s[e] == ch
    requires forall k :: from <= k < e ==> s[k] != ch
    ensures IndexOf(s, ch, from) == Some(e)
  {
  }

  predicate StartsWith(s: string, prefix: string) {
    |prefix| <= |s| && s[..|prefix|] == prefix
  }

  predicate EndsWith(s: string, suffix: string) {
    |suffix| <= |s| && s[|s| - |suffix|..] == suffix
  }

  /** `t` occurs in `s` starting at index `k`. */
  predicate OccursAt(s: string, t: string, k: nat) {
    k + |t| <= |s| && s[k..k + |t|] == t
  }

  /** `s.Contains(t)`; note that every string contains the empty string. */
  predicate Contains(s: string, t: string) {
    exists k: nat | k <= |s| :: OccursAt(s, t, k)
  }

  lemma ShorterNotContained(s: string, t: string)
    requires |s| < |t|
    ensures !Contains(s, t)
  {
  }

  /** Number of occurrences of `x` in `xs`. */
  function Count<T(==)>(xs: seq<T>, x: T): (n: nat)
    ensures n <= |xs|
    ensures n == 0 <==> x !in xs
  {
    if xs == [] then 0 else (if xs[0] == x then 1 else 0) + Count(xs[1..], x)
  }

  lemma CountAppend<T>(xs: seq<T>, ys: seq<T>, x: T)
    ensures Count(xs + ys, x) == Count(xs, x) + Count(ys, x)
  {
    if xs != [] {
      assert (xs + ys)[0] == xs[0];
      assert (xs + ys)[1..] == xs[1..] + ys;
      CountAppend(xs[1..], ys, x);
    } else {
      assert xs + ys == ys;
    }
  }

  // ---------------------------------------------------------------------------
  // Split and Join

  /** `s.Split(sep)`: the pieces between separators, always at least one. */
  function Split(s: string, sep: char): (parts: seq<string>)
    ensures |parts| >= 1
    ensures forall p :: p in parts ==> sep !in p
    decreases |s|
  {
    match IndexOf(s, sep, 0)
    case None => [s]
    case Some(k) => [s[..k]] + Split(s[k + 1..], sep)
  }

  /** `String.Join(sep, parts)`. */
  function Join(parts: seq<string>, sep: char): string
    requires |parts| >= 1
  {
    if |parts| == 1 then parts[0] else parts[0] + [sep] + Join(parts[1..], sep)
  }

  lemma JoinCons(p: string, rest: seq<string>, sep: char)
    requires |rest| >= 1
    ensures Join([p] + rest, sep) == p + [sep] + Join(rest, sep)
  {
    assert ([p] + rest)[1..] == rest;
  }

  /** Joining two lists is joining each and putting a separator between. */
  lemma {:induction false} JoinAppend(a: seq<string>, b: seq<string>, sep: char)
    requires |a| >= 1 && |b| >= 1
    ensures Join(a + b, sep) == Join(a, sep) + [sep] + Join(b, sep)
    decreases |a|
  {
    assert a + b == [a[0]] + (a[1..] + b);
    JoinCons(a[0], a[1..] + b, sep);
    if |a| > 1 {
      JoinAppend(a[1..], b, sep);
      assert a == [a[0]] + a[1..];
      JoinCons(a[0], a[1..], sep);
    }
  }

  /** Splitting loses nothing: joining the pieces rebuilds the string. */
  lemma {:induction false} JoinSplit(s: string, sep: char)
    ensures Join(Split(s, sep), sep) == s
    decreases |s|
  {
    match IndexOf(s, sep, 0)
    case None =>
    case Some(k) =>
      JoinSplit(s[k + 1..], sep);
      JoinSplitStep(s, k, Split(s[k + 1..], sep), sep);
  }

  lemma JoinSplitStep(s: string, k: nat, rest: seq<string>, sep: char)
    requires k < |s| && s[k] == sep && |rest| >= 1
    requires Join(rest, sep) == s[k + 1..]
    ensures Join([s[..k]] + rest, sep) == s
  {
    JoinCons(s[..k], rest, sep);
    assert s == s[..k] + [sep] + s[k + 1..];
  }

  /** A separator-free piece followed by the separator splits off first. */
  lemma SplitFirst(p: string, rest: string, sep: char)
    requires sep !in p
    ensures Split(p + [sep] + rest, sep) == [p] + Split(rest, sep)
  {
    var s := p + [sep] + rest;
    assert s[|p|] == sep;
    assert forall k :: 0 <= k < |p| ==> s[k] == p[k] && p[k] in p;
    assert IndexOf(s, sep, 0) == Some(|p|);
    assert s[..|p|] == p;
    assert s[|p| + 1..] == rest;
  }

  /** Separator-free pieces come back unchanged from a join followed by a split. */
  lemma {:induction false} SplitJoin(parts: seq<string>, sep: char)
    requires |parts| >= 1
    requires forall p :: p in parts ==> sep !in p
    ensures Split(Join(parts, sep), sep) == parts
    decreases |parts|
  {
    assert parts[0] in parts;
    if |parts| == 1 {
      assert IndexOf(parts[0], sep, 0).None?;
    } else {
      SplitJoin(parts[1..], sep);
      SplitFirst(parts[0], Join(parts[1..], sep), sep);
      assert parts == [parts[0]] + parts[1..];
    }
  }

  // ---------------------------------------------------------------------------
  // Trim

  /** The first index at or after `i` that is not white space. */
  function SkipWhiteSpace(rt: Runtime, s: string, i: nat): (j: nat)
    requires i <= |s|
    ensures i <= j <= |s| && (j == |s| || !rt.isWhiteSpace(s[j]))
    ensures forall k :: i <= k < j ==> rt.isWhiteSpace(s[k])
    decreases |s| - i
  {
    if i < |s| && rt.isWhiteSpace(s[i]) then SkipWhiteSpace(rt, s, i + 1) else i
  }

  /** The end of `s[..j]` once its trailing white space is dropped. */
  function BackOverWhiteSpace(rt: Runtime, s: string, j: nat): (e: nat)
    requires j <= |s|
    ensures e <= j && (e == 0 || !rt.isWhiteSpace(s[e - 1]))
    ensures forall k :: e <= k < j ==> rt.isWhiteSpace(s[k])
  {
    if j > 0 && rt.isWhiteSpace(s[j - 1]) then BackOverWhiteSpace(rt, s, j - 1) else j
  }

  function TrimStart(rt: Runtime, s: string): (r: string)
    ensures |r| <= |s| && r == s[|s| - |r|..]
    ensures forall k :: 0 <= k < |s| - |r| ==> rt.isWhiteSpace(s[k])
    ensures r == [] || !rt.isWhiteSpace(r[0])
  {
    s[SkipWhiteSpace(rt, s, 0)..]
  }

  function TrimEnd(rt: Runtime, s: string): (r: string)
    ensures |r| <= |s| && r == s[..|r|]
    ensures forall k :: |r| <= k < |s| ==> rt.isWhiteSpace(s[k])
    ensures r == [] || !rt.isWhiteSpace(r[|r| - 1])
  {
    s[..BackOverWhiteSpace(rt, s, |s|)]
  }

  /** `s.Trim()`: drops leading and trailing white space. */
  function Trim(rt: Runtime, s: string): string {
    TrimEnd(rt, TrimStart(rt, s))
  }

  /** A string with no white space at either end is its own trim. */
  lemma TrimKeeps(rt: Runtime, s: string)
    requires |s| > 0 && !rt.isWhiteSpace(s[0]) && !rt.isWhiteSpace(s[|s| - 1])
    ensures Trim(rt, s) == s
  {
    assert SkipWhiteSpace(rt, s, 0) == 0 && s[0..] == s;
    assert BackOverWhiteSpace(rt, s, |s|) == |s| && s[..|s|] == s;
  }

  /** What `Trim` returns: the slice of `s` starting at `i`, with only white
      space cut away on either side and no white space left at either end. */
  lemma TrimIsInfix(rt: Runtime, s: string) returns (i: nat, r: string)
    ensures r == Trim(rt, s)
    ensures i + |r| <= |s| && r == s[i..i + |r|]
    ensures forall k :: 0 <= k < i ==> rt.isWhiteSpace(s[k])
    ensures forall k :: i + |r| <= k < |s| ==> rt.isWhiteSpace(s[k])
    ensures r == [] || (!rt.isWhiteSpace(r[0]) && !rt.isWhiteSpace(r[|r| - 1]))
  {
    var a := TrimStart(rt, s);
    r := TrimEnd(rt, a);
    i := SliceOfSuffix(rt, s, a, r);
  }

  /** A prefix `r` of a suffix `a` of `s`, each cut only at white space, is
      the slice of `s` at `|s| - |a|` with white space all round it. */
  lemma SliceOfSuffix(rt: Runtime, s: string, a: string, r: string) returns (i: nat)
    requires |a| <= |s| && a == s[|s| - |a|..]
    requires forall k :: 0 <= k < |s| - |a| ==> rt.isWhiteSpace(s[k])
    requires |r| <= |a| && r == a[..|r|]
    requires forall k :: |r| <= k < |a| ==> rt.isWhiteSpace(a[k])
    ensures i == |s| - |a| && i + |r| <= |s| && r == s[i..i + |r|]
    ensures forall k :: 0 <= k < i ==> rt.isWhiteSpace(s[k])
    ensures forall k :: i + |r| <= k < |s| ==> rt.isWhiteSpace(s[k])
  {
    i := |s| - |a|;
    assert r == s[i..i + |r|];
    forall k | i + |r| <= k < |s|
      ensures rt.isWhiteSpace(s[k])
    {
      assert s[k] == a[k - i];
    }
  }

  // ---------------------------------------------------------------------------
  // Replace(t, "")

  /** `s.Replace(t, string.Empty)`: deletes the non-overlapping occurrences of
      `t`, found from left to right. */
  function RemoveAll(s: string, t: string): (r: string)
    requires |t| > 0
    ensures |r| <= |s|
    decreases |s|
  {
    if |s| < |t| then s
    else if s[..|t|] == t then RemoveAll(s[|t|..], t)
    else [s[0]] + RemoveAll(s[1..], t)
  }

  /** Every character that survives the removal was already in `s`. */
  lemma {:induction false} RemoveAllKeepsCharacters(s: string, t: string)
    requires |t| > 0
    ensures forall c :: c in RemoveAll(s, t) ==> c in s
    decreases |s|
  {
    if |s| < |t| {
    } else if s[..|t|] == t {
      RemoveAllKeepsCharacters(s[|t|..], t);
      forall c | c in RemoveAll(s[|t|..], t) ensures c in s {
        var k :| 0 <= k < |s[|t|..]| && s[|t|..][k] == c;
        assert s[k + |t|] == c;
      }
    } else {
      RemoveAllKeepsCharacters(s[1..], t);
      forall c | c in RemoveAll(s[1..], t) ensures c in s {
        var k :| 0 <= k < |s[1..]| && s[1..][k] == c;
        assert s[k + 1] == c;
      }
    }
  }

  /** Removing from a string that does not contain `t` changes nothing. */
  lemma {:induction false} RemoveAllAbsent(s: string, t: string)
    requires |t| > 0
    requires !Contains(s, t)
    ensures RemoveAll(s, t) == s
    decreases |s|
  {
    if |s| < |t| {
    } else {
      if s[..|t|] == t {
        assert OccursAt(s, t, 0);
        assert false;
      }
      ContainsTail(s, t);
      RemoveAllAbsent(s[1..], t);
    }
  }

  /** What the tail of a string contains, the string contains. */
  lemma ContainsTail(s: string, t: string)
    requires |s| >= 1
    ensures Contains(s[1..], t) ==> Contains(s, t)
  {
    forall k: nat | k <= |s[1..]| && OccursAt(s[1..], t, k)
      ensures OccursAt(s, t, k + 1)
    {
      assert s[k + 1..k + 1 + |t|] == s[1..][k..k + |t|];
    }
  }

  /** A single left-to-right pass can leave an occurrence behind: deleting
      "ab" from "aabb" joins the outer characters into a new "ab". */
  lemma RemoveAllOnePass()
    ensures RemoveAll("aabb", "ab") == "ab"
    ensures Contains(RemoveAll("aabb", "ab"), "ab")
  {
    assert "aabb"[..2][1] == 'a' && "ab"[1] == 'b';
    assert "aabb"[1..] == "abb";
    assert "abb"[..2] == "ab";
    assert "abb"[2..] == "b";
    assert OccursAt("ab", "ab", 0);
  }
}
