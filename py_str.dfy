/** Python `str` semantics needed by the story parser: the `isspace`
    character set, `strip()`, substring search (`pat in s`), `split(sep)`
    and `sep.join(parts)`, all over `seq<char>`. */
module PyStr {

  datatype Option<T> = None | Some(value: T)

  /** Python's `str.isspace()` for one character: the characters `strip()`
      with no argument removes. */
  predicate IsSpace(c: char) {
    || ('\t' <= c <= '\r')
    || ('\U{1C}' <= c <= '\U{1F}')
    || c == ' '
    || c == '\U{85}'
    || c == '\U{A0}'
    || c == '\U{1680}'
    || ('\U{2000}' <= c <= '\U{200A}')
    || c == '\U{2028}'
    || c == '\U{2029}'
    || c == '\U{202F}'
    || c == '\U{205F}'
    || c == '\U{3000}'
  }

  /** Every character of `s[lo..hi]` is whitespace. */
  predicate SpaceBetween(s: string, lo: int, hi: int)
    requires 0 <= lo <= hi <= |s|
  {
    forall k :: lo <= k < hi ==> IsSpace(s[k])
  }

  /** Neither leading nor trailing whitespace. */
  predicate Stripped(s: string) {
    s == [] || (!IsSpace(s[0]) && !IsSpace(s[|s| - 1]))
  }

  /** The first index at or after `i` that does not hold whitespace
      (the forward scan of `strip()`). */
  function SkipSpace(s: string, i: nat): (j: nat)
    requires i <= |s|
    ensures i <= j <= |s| && SpaceBetween(s, i, j)
    ensures j == |s| || !IsSpace(s[j])
    decreases |s| - i
  {
    if i < |s| && IsSpace(s[i]) then SkipSpace(s, i + 1) else i
  }

  /** The least `k` in `lo..hi` such that `s[k..hi]` is all whitespace
      (the backward scan of `strip()`, which stops at `lo`). */
  function SkipSpaceBack(s: string, lo: nat, hi: nat): (k: nat)
    requires lo <= hi <= |s|
    ensures lo <= k <= hi && SpaceBetween(s, k, hi)
    ensures k == lo || !IsSpace(s[k - 1])
    decreases hi - lo
  {
    if lo < hi && IsSpace(s[hi - 1]) then SkipSpaceBack(s, lo, hi - 1) else hi
  }

  /** Where the result of `strip()` starts in `s`. */
  function StripStart(s: string): nat {
    SkipSpace(s, 0)
  }

  /** Where the result of `strip()` ends in `s`. */
  function StripEnd(s: string): nat {
    SkipSpaceBack(s, StripStart(s), |s|)
  }

  /** `s.strip()`: the slice of `s` that is left once the leading and the
      trailing whitespace are removed. */
  function Strip(s: string): (r: string)
    ensures StripStart(s) <= StripEnd(s) <= |s| && r == s[StripStart(s)..StripEnd(s)]
    ensures SpaceBetween(s, 0, StripStart(s)) && SpaceBetween(s, StripEnd(s), |s|)
    ensures Stripped(r)
  {
    var a := StripStart(s);
    var b := StripEnd(s);
    assert a < b ==> !IsSpace(s[b - 1]);
    s[a..b]
  }

  /** The slice Strip's postcondition describes is the only one: any slice
      bordered by whitespace and itself stripped is `Strip(s)`. */
  lemma StripUnique(s: string, a: nat, b: nat)
    requires a <= b <= |s|
    requires SpaceBetween(s, 0, a) && SpaceBetween(s, b, |s|) && Stripped(s[a..b])
    ensures Strip(s) == s[a..b]
  {
    var a0, b0 := StripStart(s), StripEnd(s);
    if a == b {
      assert SpaceBetween(s, 0, |s|);
      assert a0 == |s|;
    } else {
      assert !IsSpace(s[a]) && !IsSpace(s[b - 1]) by {
        assert s[a..b][0] == s[a];
        assert s[a..b][b - a - 1] == s[b - 1];
      }
      assert a0 == a;
      assert b0 == b;
    }
  }

  /** Stripping twice is stripping once. */
  lemma StripIdempotent(s: string)
    ensures Strip(Strip(s)) == Strip(s)
  {
    var r := Strip(s);
    assert r[0..|r|] == r;
    StripUnique(r, 0, |r|);
  }

  /** Appending a whitespace character does not change the result of `strip()`. */
  lemma StripTrailingSpace(s: string, c: char)
    requires IsSpace(c)
    ensures Strip(s + [c]) == Strip(s)
  {
    var a, b := StripStart(s), StripEnd(s);
    var u := s + [c];
    assert u[a..b] == s[a..b];
    assert SpaceBetween(u, 0, a) by {
      forall k | 0 <= k < a ensures IsSpace(u[k]) {
        assert u[k] == s[k];
      }
    }
    assert SpaceBetween(u, b, |u|) by {
      forall k | b <= k < |u| ensures IsSpace(u[k]) {
        if k < |s| { assert u[k] == s[k]; }
      }
    }
    StripUnique(u, a, b);
  }

  /** `pat` occurs in `s` at index `i`. */
  predicate MatchAt(s: string, pat: string, i: int) {
    0 <= i && i + |pat| <= |s| && s[i..i + |pat|] == pat
  }

  /** `s.find(pat)`: the index of the leftmost occurrence, if any. */
  function Find(s: string, pat: string): (r: Option<nat>)
    ensures r.Some? ==> MatchAt(s, pat, r.value)
    ensures r.Some? ==> forall j :: 0 <= j < r.value ==> !MatchAt(s, pat, j)
    ensures r.None? ==> forall j :: !MatchAt(s, pat, j)
    decreases |s|
  {
    if |s| < |pat| then None
    else if pat <= s then Some(0)
    else
      var rest := Find(s[1..], pat);
      MatchShift(s, pat);
      match rest
      case None => None
      case Some(i) => Some(i + 1)
  }

  lemma MatchShift(s: string, pat: string)
    requires s != []
    ensures forall j :: 1 <= j ==> MatchAt(s, pat, j) == MatchAt(s[1..], pat, j - 1)
  {
    forall j | 1 <= j
      ensures MatchAt(s, pat, j) == MatchAt(s[1..], pat, j - 1)
    {
      if j + |pat| <= |s| {
        SliceOfSlice(s, 1, |s|, j - 1, j - 1 + |pat|);
      }
    }
  }

  /** Python's `pat in s`. */
  predicate Contains(s: string, pat: string) {
    Find(s, pat).Some?
  }

  /** `pat in s` holds exactly when `pat` occurs at some index of `s`. */
  lemma ContainsMatch(s: string, pat: string)
    ensures Contains(s, pat) <==> exists j :: MatchAt(s, pat, j)
  {
  }

  /** A pattern with a character that does not occur in `s` does not occur in `s`. */
  lemma AbsentChar(s: string, pat: string, k: nat)
    requires k < |pat| && pat[k] !in s
    ensures !Contains(s, pat)
  {
    forall j | MatchAt(s, pat, j) ensures false {
    }
  }

  lemma MatchInPrefix(s: string, pat: string, n: nat, j: int)
    requires n <= |s| && MatchAt(s[..n], pat, j)
    ensures MatchAt(s, pat, j)
  {
    assert s[..n][j..j + |pat|] == s[j..j + |pat|];
  }

  lemma MatchInSuffix(s: string, pat: string, n: nat, j: int)
    requires n <= |s| && 0 <= j
    ensures MatchAt(s[n..], pat, j) <==> MatchAt(s, pat, n + j)
  {
    if n + j + |pat| <= |s| {
      SliceOfSlice(s, n, |s|, j, j + |pat|);
    }
  }

  /** No occurrence of `pat` in `s` starts at an index in `lo..hi`. */
  predicate NoMatchBetween(s: string, pat: string, lo: int, hi: int) {
    forall j :: lo <= j < hi ==> !MatchAt(s, pat, j)
  }

  /** A stretch of `s[n..]` without occurrences is one of `s`, shifted by `n`. */
  lemma NoMatchShift(s: string, pat: string, n: nat, len: nat)
    requires n <= |s| && NoMatchBetween(s[n..], pat, 0, len)
    ensures NoMatchBetween(s, pat, n, n + len)
  {
    forall j | n <= j < n + len ensures !MatchAt(s, pat, j) {
      MatchInSuffix(s, pat, n, j - n);
    }
  }

  /** Whatever occurs in a part of a concatenation occurs in the whole. */
  lemma ContainsConcat(x: string, y: string, pat: string)
    ensures Contains(x, pat) ==> Contains(x + y, pat)
    ensures Contains(y, pat) ==> Contains(x + y, pat)
  {
    if Contains(x, pat) {
      var j :| MatchAt(x, pat, j);
      assert (x + y)[..|x|] == x;
      MatchInPrefix(x + y, pat, |x|, j);
    }
    if Contains(y, pat) {
      var j :| MatchAt(y, pat, j);
      assert MatchAt(y, pat, j);
      assert (x + y)[|x|..] == y;
      MatchInSuffix(x + y, pat, |x|, j);
    }
  }

  /** No occurrence starting before the leftmost one lies inside `s[..i]`. */
  lemma NoMatchBefore(s: string, pat: string, i: nat)
    requires pat != [] && i <= |s|
    requires forall j :: 0 <= j < i ==> !MatchAt(s, pat, j)
    ensures !Contains(s[..i], pat)
  {
    forall j | MatchAt(s[..i], pat, j) ensures false {
      MatchInPrefix(s, pat, i, j);
    }
  }

  /** Stripping cannot make a pattern appear. */
  lemma StripKeepsAbsence(s: string, pat: string)
    requires !Contains(s, pat)
    ensures !Contains(Strip(s), pat)
  {
    var a, b := StripStart(s), StripEnd(s);
    assert s == s[..a] + Strip(s) + s[b..];
    ContainsConcat(s[..a], Strip(s), pat);
    ContainsConcat(s[..a] + Strip(s), s[b..], pat);
  }

  /** `s.split(sep)` for a non-empty separator: the pieces between
      successive leftmost non-overlapping occurrences of `sep`. */
  function Split(s: string, sep: string): (parts: seq<string>)
    requires sep != []
    ensures |parts| >= 1
    ensures Contains(s, sep) <==> |parts| >= 2
    ensures forall k :: 0 <= k < |parts| ==> !Contains(parts[k], sep)
    decreases |s|
  {
    match Find(s, sep)
    case None => [s]
    case Some(i) =>
      var head := s[..i];
      NoMatchBefore(s, sep, i);
      [head] + Split(s[i + |sep|..], sep)
  }

  /** `sep.join(parts)`. */
  function Join(parts: seq<string>, sep: string): (r: string)
    ensures |parts| == 1 ==> r == parts[0]
    ensures parts == [] ==> r == []
    decreases |parts|
  {
    if |parts| == 0 then ""
    else if |parts| == 1 then parts[0]
    else parts[0] + sep + Join(parts[1..], sep)
  }

  /** Joining the pieces of a split with the same separator gives back the
      original string. */
  lemma {:induction false} JoinSplit(s: string, sep: string)
    requires sep != []
    ensures Join(Split(s, sep), sep) == s
    decreases |s|
  {
    var f := Find(s, sep);
    if f.Some? {
      var i := f.value;
      var rest := s[i + |sep|..];
      var tail := Split(rest, sep);
      JoinSplit(rest, sep);
      assert Split(s, sep) == [s[..i]] + tail;
      assert Join([s[..i]] + tail, sep) == s[..i] + sep + Join(tail, sep) by {
        assert ([s[..i]] + tail)[1..] == tail;
      }
      assert s[i..i + |sep|] == sep;
      assert s == s[..i] + s[i..i + |sep|] + rest;
    }
  }

  /** Splitting a join on a one-character separator gives back the parts,
      when no part contains the separator. */
  lemma {:induction false} SplitJoin(parts: seq<string>, sep: string)
    requires |sep| == 1 && parts != []
    requires forall k :: 0 <= k < |parts| ==> sep[0] !in parts[k]
    ensures Split(Join(parts, sep), sep) == parts
    decreases |parts|
  {
    var s := Join(parts, sep);
    var p := parts[0];
    if |parts| == 1 {
      AbsentChar(p, sep, 0);
    } else {
      var rest := Join(parts[1..], sep);
      assert s == p + sep + rest;
      assert MatchAt(s, sep, |p|);
      forall j | 0 <= j < |p| ensures !MatchAt(s, sep, j) {
        assert s[j] == p[j];
      }
      assert Find(s, sep) == Some(|p|);
      assert s[..|p|] == p;
      assert s[|p| + |sep|..] == rest;
      SplitJoin(parts[1..], sep);
    }
  }

  /** If some part contains `pat`, so does the join. */
  lemma {:induction false} JoinContains(parts: seq<string>, sep: string, k: nat, pat: string)
    requires k < |parts| && Contains(parts[k], pat)
    ensures Contains(Join(parts, sep), pat)
    decreases |parts|
  {
    if |parts| > 1 {
      if k == 0 {
        ContainsConcat(parts[0], sep + Join(parts[1..], sep), pat);
        assert parts[0] + sep + Join(parts[1..], sep) == parts[0] + (sep + Join(parts[1..], sep));
      } else {
        JoinContains(parts[1..], sep, k - 1, pat);
        ContainsConcat(parts[0] + sep, Join(parts[1..], sep), pat);
      }
    }
  }

  /** Joining one more part appends the separator and that part. */
  lemma {:induction false} JoinAppend(parts: seq<string>, x: string, sep: string)
    requires parts != []
    ensures Join(parts + [x], sep) == Join(parts, sep) + sep + x
    decreases |parts|
  {
    if |parts| > 1 {
      assert (parts + [x])[1..] == parts[1..] + [x];
      JoinAppend(parts[1..], x, sep);
    }
  }

  /** The first piece of a split is a prefix that ends at the end of the
      string or right before an occurrence of the separator. */
  lemma SplitHead(s: string, sep: string)
    requires sep != []
    ensures var r := Split(s, sep)[0];
            && r <= s
            && (forall j :: 0 <= j < |r| ==> !MatchAt(s, sep, j))
            && (r == s || MatchAt(s, sep, |r|))
  {
    match Find(s, sep)
    case None =>
    case Some(j) =>
  }

  /** `s.split(sep)[1]` when `sep in s`: the text between the first
      occurrence of `sep` and the next one, or the end of `s`. */
  function SecondField(s: string, sep: string): (r: string)
    requires sep != [] && Contains(s, sep)
    ensures Find(s, sep).Some?
    ensures var rest := s[Find(s, sep).value + |sep|..];
            && r <= rest
            && !Contains(r, sep)
            && NoMatchBetween(rest, sep, 0, |r|)
            && (r == rest || MatchAt(rest, sep, |r|))
  {
    var i := Find(s, sep).value;
    var rest := s[i + |sep|..];
    assert Split(s, sep) == [s[..i]] + Split(rest, sep);
    SplitHead(rest, sep);
    Split(rest, sep)[0]
  }

  /** Stripping `t`, the slice `s[lo..hi]`, gives a slice of `s` bordered
      by whitespace within `lo..hi`. */
  lemma StripWithin(s: string, t: string, lo: nat, hi: nat) returns (a: nat, b: nat)
    requires lo <= hi <= |s| && t == s[lo..hi]
    ensures lo <= a <= b <= hi && Strip(t) == s[a..b]
    ensures SpaceBetween(s, lo, a) && SpaceBetween(s, b, hi)
  {
    a, b := lo + StripStart(t), lo + StripEnd(t);
    assert Strip(t) == t[a - lo..b - lo];
    SliceOfSlice(s, lo, hi, a - lo, b - lo);
    forall k | lo <= k < a ensures IsSpace(s[k]) {
      assert s[k] == t[k - lo];
    }
    forall k | b <= k < hi ensures IsSpace(s[k]) {
      assert s[k] == t[k - lo];
    }
  }

  lemma SliceOfSlice(s: string, lo: nat, hi: nat, x: nat, y: nat)
    requires lo <= hi <= |s| && x <= y <= hi - lo
    ensures s[lo..hi][x..y] == s[lo + x..lo + y]
  {
    assert forall k :: 0 <= k < y - x ==> s[lo..hi][x..y][k] == s[lo + x + k];
  }

  /** `s.split(sep)[1].strip()` located in `s`: `i` is the first occurrence
      of `sep`; from its end, whitespace runs up to `a`, the result is
      `s[a..b]`, and whitespace runs from `b` up to `e`, which is the next
      occurrence of `sep` or the end of `s`. */
  lemma StrippedSecondField(s: string, sep: string) returns (i: nat, a: nat, b: nat, e: nat)
    requires sep != [] && Contains(s, sep)
    ensures MatchAt(s, sep, i) && forall j :: 0 <= j < i ==> !MatchAt(s, sep, j)
    ensures i + |sep| <= a <= b <= e <= |s|
    ensures Strip(SecondField(s, sep)) == s[a..b]
    ensures SpaceBetween(s, i + |sep|, a) && SpaceBetween(s, b, e)
    ensures !Contains(s[i + |sep|..e], sep)
    ensures NoMatchBetween(s, sep, i + |sep|, e)
    ensures e == |s| || MatchAt(s, sep, e)
  {
    i, e := SecondFieldAt(s, sep);
    a, b := StripWithin(s, SecondField(s, sep), i + |sep|, e);
  }

  /** `s.split(sep)[1]` located in `s`: it runs from the end of the first
      occurrence of `sep` up to `e`, the next occurrence or the end of `s`. */
  lemma SecondFieldAt(s: string, sep: string) returns (i: nat, e: nat)
    requires sep != [] && Contains(s, sep)
    ensures MatchAt(s, sep, i) && forall j :: 0 <= j < i ==> !MatchAt(s, sep, j)
    ensures i + |sep| <= e <= |s| && SecondField(s, sep) == s[i + |sep|..e]
    ensures !Contains(s[i + |sep|..e], sep)
    ensures NoMatchBetween(s, sep, i + |sep|, e)
    ensures e == |s| || MatchAt(s, sep, e)
  {
    i := Find(s, sep).value;
    var field := SecondField(s, sep);
    var start := i + |sep|;
    e := start + |field|;
    assert field == s[start..e];
    NoMatchShift(s, sep, start, |field|);
    if e < |s| {
      assert MatchAt(s[start..], sep, |field|);
      MatchInSuffix(s, sep, start, |field|);
    }
  }
}
