/** The Python `str` operations the preprocessor is built from, on `seq<char>`:
    `"\n".join`, `s.split("\n")`, `pat in s`, `s.split(pat)[1]` and
    `s.replace(pat, "")`. */
module PyStr {

  datatype Option<T> = None | Some(value: T)

  /** `"\n".join(ls)`. */
  function Join(ls: seq<string>): string
  {
    if |ls| == 0 then ""
    else if |ls| == 1 then ls[0]
    else ls[0] + "\n" + Join(ls[1..])
  }

  /** `s.split("\n")`: the pieces between the newlines of `s`; there is always at
      least one, none holds a newline, and joining them gives `s` back. */
  function Split(s: string): (r: seq<string>)
    ensures |r| >= 1
    ensures forall k :: 0 <= k < |r| ==> '\n' !in r[k]
    ensures Join(r) == s
    decreases |s|
  {
    if |s| == 0 then [""]
    else
      var t := Split(s[1..]);
      if s[0] == '\n' then
        assert s == "\n" + s[1..];
        [""] + t
      else
        assert s == [s[0]] + s[1..];
        assert |t| > 1 ==> Join(t) == t[0] + "\n" + Join(t[1..]);
        assert ([s[0]] + t[0]) + "\n" + Join(t[1..]) == [s[0]] + (t[0] + "\n" + Join(t[1..]));
        [[s[0]] + t[0]] + t[1..]
  }

  lemma {:induction false} JoinAppend(a: seq<string>, b: seq<string>)
    requires |a| >= 1 && |b| >= 1
    ensures Join(a + b) == Join(a) + "\n" + Join(b)
    decreases |a|
  {
    if |a| == 1 {
      assert (a + b)[1..] == b;
    } else {
      assert (a + b)[1..] == a[1..] + b;
      JoinAppend(a[1..], b);
    }
  }

  lemma {:induction false} SplitWithoutNewline(w: string)
    requires '\n' !in w
    ensures Split(w) == [w]
    decreases |w|
  {
    if |w| > 0 {
      SplitWithoutNewline(w[1..]);
      assert [w[0]] + w[1..] == w;
    }
  }

  lemma {:induction false} SplitLine(w: string, rest: string)
    requires '\n' !in w
    ensures Split(w + "\n" + rest) == [w] + Split(rest)
    decreases |w|
  {
    var s := w + "\n" + rest;
    if |w| == 0 {
      assert s[1..] == rest;
    } else {
      assert s[1..] == w[1..] + "\n" + rest;
      SplitLine(w[1..], rest);
      assert [w[0]] + w[1..] == w;
    }
  }

  /** Splitting undoes joining when no piece holds a newline. */
  lemma {:induction false} SplitJoin(ls: seq<string>)
    requires |ls| >= 1
    requires forall k :: 0 <= k < |ls| ==> '\n' !in ls[k]
    ensures Split(Join(ls)) == ls
    decreases |ls|
  {
    if |ls| == 1 {
      SplitWithoutNewline(ls[0]);
    } else {
      SplitJoin(ls[1..]);
      SplitLine(ls[0], Join(ls[1..]));
    }
  }

  /** The last piece of `s.split("\n")` is the text after the last newline of `s`. */
  lemma LastPiece(s: string)
    ensures var r := Split(s); var last := r[|r| - 1];
      |last| <= |s| && s[|s| - |last|..] == last && '\n' !in last &&
      (|last| < |s| ==> s[|s| - |last| - 1] == '\n')
  {
    var r := Split(s);
    var n := |r|;
    if n > 1 {
      assert r == r[..n - 1] + [r[n - 1]];
      JoinAppend(r[..n - 1], [r[n - 1]]);
      var init := Join(r[..n - 1]);
      assert s == init + "\n" + r[n - 1];
      assert s[|s| - |r[n - 1]|..] == r[n - 1];
    }
  }

  /** The first piece of `s.split("\n")` is the text before the first newline of `s`. */
  lemma FirstPiece(s: string)
    ensures var first := Split(s)[0];
      |first| <= |s| && s[..|first|] == first && '\n' !in first &&
      (|first| < |s| ==> s[|first|] == '\n')
  {
  }

  /** `pat` occurs in `s` starting at index `j`. */
  predicate OccursAt(pat: string, s: string, j: nat)
  {
    j + |pat| <= |s| && s[j..j + |pat|] == pat
  }

  lemma OccursShift(pat: string, s: string, j: nat)
    requires |s| >= 1
    ensures OccursAt(pat, s, j + 1) <==> OccursAt(pat, s[1..], j)
  {
    if j + 1 + |pat| <= |s| {
      var a, b := s[j + 1..j + 1 + |pat|], s[1..][j..j + |pat|];
      assert |a| == |b|;
      assert forall k :: 0 <= k < |a| ==> a[k] == b[k];
    }
  }

  lemma OccursInPrefix(pat: string, s: string, n: nat, j: nat)
    requires n <= |s| && OccursAt(pat, s[..n], j)
    ensures OccursAt(pat, s, j) && j + |pat| <= n
  {
    assert s[..n][j..j + |pat|] == s[j..j + |pat|];
  }

  /** `s.find(pat)`, as an option: an index at which `pat` occurs in `s`, the
      lowest one (see FindIsFirst). */
  function Find(pat: string, s: string): (r: Option<nat>)
    ensures r.Some? ==> OccursAt(pat, s, r.value)
    decreases |s|
  {
    if |s| < |pat| then None
    else if s[..|pat|] == pat then Some(0)
    else
      match Find(pat, s[1..])
      case None => None
      case Some(k) =>
        OccursShift(pat, s, k);
        Some(k + 1)
  }

  /** Find returns the lowest index of an occurrence, and None exactly when
      there is no occurrence at all. */
  lemma {:induction false} FindIsFirst(pat: string, s: string, j: nat)
    requires OccursAt(pat, s, j)
    ensures Find(pat, s).Some? && Find(pat, s).value <= j
    decreases |s|
  {
    if s[..|pat|] != pat {
      assert j >= 1;
      OccursShift(pat, s, j - 1);
      FindIsFirst(pat, s[1..], j - 1);
      OccursShift(pat, s, Find(pat, s[1..]).value);
    }
  }

  /** `pat in s`. */
  predicate Contains(s: string, pat: string)
  {
    exists j: nat :: j <= |s| && OccursAt(pat, s, j)
  }

  /** `find` succeeds exactly when `pat` is in `s`. */
  lemma FindFound(s: string, pat: string)
    ensures Contains(s, pat) <==> Find(pat, s).Some?
  {
    if Contains(s, pat) {
      var j: nat :| OccursAt(pat, s, j);
      FindIsFirst(pat, s, j);
    }
  }

  /** `s.split(pat)[1]`, for an `s` that holds `pat`: the text after the first
      `pat`, up to the next `pat` or the end. */
  function SecondField(s: string, pat: string): (r: string)
    requires |pat| > 0 && Find(pat, s).Some?
    ensures var k := Find(pat, s).value + |pat|;
      k + |r| <= |s| && s[k..k + |r|] == r && !Contains(r, pat) &&
      (k + |r| == |s| || OccursAt(pat, s, k + |r|))
    ensures forall j :: Find(pat, s).value + |pat| <= j < Find(pat, s).value + |pat| + |r| ==>
      !OccursAt(pat, s, j)
  {
    var k0 := Find(pat, s).value + |pat|;
    FieldFacts(pat, s, k0);
    s[k0..k0 + FieldEnd(pat, s[k0..])]
  }

  /** Where the field starting the text `rest` ends: at the next `pat`, or at
      the end of `rest`. */
  function FieldEnd(pat: string, rest: string): (m: nat)
    ensures m <= |rest|
  {
    match Find(pat, rest)
    case None => |rest|
    case Some(k) => k
  }

  lemma FieldFacts(pat: string, s: string, k0: nat)
    requires |pat| > 0 && k0 <= |s|
    ensures var m := FieldEnd(pat, s[k0..]);
      k0 + m <= |s| && !Contains(s[k0..k0 + m], pat) &&
      (k0 + m == |s| || OccursAt(pat, s, k0 + m)) &&
      forall j :: k0 <= j < k0 + m ==> !OccursAt(pat, s, j)
  {
    var rest := s[k0..];
    var m := FieldEnd(pat, rest);
    assert s[k0..k0 + m] == rest[..m];
    match Find(pat, rest)
    case None =>
      FindFound(rest, pat);
      assert rest[..m] == rest;
      NoOccurrenceBefore(pat, s, k0, m);
    case Some(k) =>
      NoneBeforeFirst(pat, rest, k);
      OccursAtOffset(pat, s, k0, k);
      NoOccurrenceBefore(pat, s, k0, k);
  }

  /** An occurrence at or after `k0` is one of the suffix from `k0`, so Find
      on that suffix reaches it. */
  lemma FirstInSuffix(pat: string, s: string, k0: nat, j: nat)
    requires k0 <= j
    ensures OccursAt(pat, s, j) ==>
      Find(pat, s[k0..]).Some? && Find(pat, s[k0..]).value <= j - k0
  {
    if OccursAt(pat, s, j) {
      assert s[k0..][j - k0..j - k0 + |pat|] == s[j..j + |pat|];
      FindIsFirst(pat, s[k0..], j - k0);
    }
  }

  /** Nothing starts an occurrence between `k0` and the first occurrence in
      the suffix from `k0` (or its end, when there is none). */
  lemma NoOccurrenceBefore(pat: string, s: string, k0: nat, m: nat)
    requires k0 + m <= |s|
    requires Find(pat, s[k0..]).None? || Find(pat, s[k0..]).value >= m
    ensures forall j :: k0 <= j < k0 + m ==> !OccursAt(pat, s, j)
  {
    forall j | k0 <= j < k0 + m
      ensures !OccursAt(pat, s, j)
    {
      FirstInSuffix(pat, s, k0, j);
    }
  }

  lemma NoneBeforeFirst(pat: string, s: string, k: nat)
    requires |pat| > 0 && Find(pat, s) == Some(k)
    ensures !Contains(s[..k], pat)
  {
    if Contains(s[..k], pat) {
      var j: nat :| j <= k && OccursAt(pat, s[..k], j);
      OccursInPrefix(pat, s, k, j);
      FindIsFirst(pat, s, j);
    }
  }

  lemma OccursAtOffset(pat: string, s: string, k0: nat, k: nat)
    requires k0 <= |s| && OccursAt(pat, s[k0..], k)
    ensures OccursAt(pat, s, k0 + k) && s[k0..k0 + k] == s[k0..][..k]
  {
    assert s[k0..][k..k + |pat|] == s[k0 + k..k0 + k + |pat|];
  }

  /** `s.replace(pat, "")`: Python's algorithm, which cuts at the first
      occurrence found with `find`, keeps what precedes it and goes on after it,
      so that occurrences are removed left to right without overlap. */
  function Remove(s: string, pat: string): (r: string)
    requires |pat| > 0
    ensures |r| <= |s|
    decreases |s|
  {
    match Find(pat, s)
    case None => s
    case Some(k) => s[..k] + Remove(s[k + |pat|..], pat)
  }

  /** Where `replace` cuts: the first occurrence of `pat` in `a + pat + b`
      is the one after `a` when no occurrence starts inside `a`, that is when
      `a` followed by all but the last character of `pat` holds none. That
      occurrence goes, `a` stays, and the rest is treated the same way. */
  lemma RemoveAfter(a: string, pat: string, b: string)
    requires |pat| > 0 && !Contains(a + pat[..|pat| - 1], pat)
    ensures Remove(a + pat + b, pat) == a + Remove(b, pat)
  {
    var s := a + pat + b;
    assert s[|a|..|a| + |pat|] == pat;
    FindIsFirst(pat, s, |a|);
    var k := Find(pat, s).value;
    NotBeforeA(a, pat, b, k);
    assert s[..|a|] == a && s[|a| + |pat|..] == b;
  }

  lemma NotBeforeA(a: string, pat: string, b: string, k: nat)
    requires |pat| > 0 && !Contains(a + pat[..|pat| - 1], pat)
    requires k <= |a| && OccursAt(pat, a + pat + b, k)
    ensures k == |a|
  {
    var s := a + pat + b;
    var t := a + pat[..|pat| - 1];
    if k < |a| {
      assert t[k..k + |pat|] == s[k..k + |pat|];
      assert OccursAt(pat, t, k);
    }
  }

  /** A text that starts with `pat` loses that occurrence, and a text without
      `pat` is left as it is. */
  lemma RemoveLeading(pat: string, s: string)
    requires |pat| > 0
    ensures Remove(pat + s, pat) == Remove(s, pat)
    ensures !Contains(s, pat) ==> Remove(s, pat) == s
  {
    var t := pat + s;
    assert t[..|pat|] == pat;
    assert OccursAt(pat, t, 0);
    FindIsFirst(pat, t, 0);
    assert t[|pat|..] == s;
  }
}
