/** Strings as Python 3 sees them: sequences of code points (Dafny `char`s are
    Unicode scalar values). Each function here gives one of Python's `str`
    operations the meaning the digest parser relies on, and its contract
    states that meaning independently of how it is computed. */
module Text {

  datatype Option<T> = None | Some(value: T)

  /** The characters Python's `str.isspace()` accepts, which is the set
      `str.strip()` removes when called without arguments. */
  predicate IsSpace(c: char)
  {
    c == ' ' || ('\t' <= c <= '\r') || ('\U{1C}' <= c <= '\U{1F}')
    || c == '\U{85}' || c == '\U{A0}' || c == '\U{1680}'
    || ('\U{2000}' <= c <= '\U{200A}') || c == '\U{2028}' || c == '\U{2029}'
    || c == '\U{202F}' || c == '\U{205F}' || c == '\U{3000}'
  }

  /** A decimal digit `0`..`9`. */
  predicate IsDigit(c: char)
  {
    '0' <= c <= '9'
  }

  predicate AllSpace(s: string)
  {
    forall i :: 0 <= i < |s| ==> IsSpace(s[i])
  }

  // ---------------------------------------------------------------------------
  // Substring search
  // ---------------------------------------------------------------------------

  /** `pat` occurs in `s` starting at index `i`. */
  predicate OccursAt(s: string, pat: string, i: int)
  {
    0 <= i && i + |pat| <= |s| && s[i..i + |pat|] == pat
  }

  /** `pat` occurs somewhere in `s` (Python's `pat in s`), stated by a quantifier. */
  ghost predicate Occurs(s: string, pat: string)
  {
    exists i :: OccursAt(s, pat, i)
  }

  lemma OccursShift(s: string, pat: string, j: int)
    requires s != [] && 1 <= j
    ensures OccursAt(s, pat, j) <==> OccursAt(s[1..], pat, j - 1)
  {
    if j + |pat| <= |s| {
      assert s[1..][j - 1..j - 1 + |pat|] == s[j..j + |pat|];
    }
  }

  /** The index of the first occurrence of `pat` in `s` (Python's `s.find(pat)`,
      with `None` for -1). */
  function IndexOf(s: string, pat: string): (r: Option<nat>)
    ensures r.Some? ==> OccursAt(s, pat, r.value)
    ensures r.Some? ==> forall j :: 0 <= j < r.value ==> !OccursAt(s, pat, j)
    ensures r.None? ==> forall j :: !OccursAt(s, pat, j)
    decreases |s|
  {
    if |s| < |pat| then None
    else if s[..|pat|] == pat then Some(0)
    else
      var tail := IndexOf(s[1..], pat);
      assert forall j :: 1 <= j ==> (OccursAt(s, pat, j) <==> OccursAt(s[1..], pat, j - 1)) by {
        forall j | 1 <= j { OccursShift(s, pat, j); }
      }
      match tail
      case None => None
      case Some(k) => Some(k + 1)
  }

  /** Python's `pat in s`. */
  predicate Contains(s: string, pat: string)
  {
    IndexOf(s, pat).Some?
  }

  lemma ContainsIff(s: string, pat: string)
    ensures Contains(s, pat) <==> Occurs(s, pat)
  {
    if Occurs(s, pat) {
      var i :| OccursAt(s, pat, i);
    }
  }

  /** For a one-character pattern, substring search is membership. */
  lemma ContainsChar(s: string, c: char)
    ensures Contains(s, [c]) <==> c in s
  {
    if c in s {
      var i :| 0 <= i < |s| && s[i] == c;
      assert OccursAt(s, [c], i);
    }
    if Contains(s, [c]) {
      var i := IndexOf(s, [c]).value;
      assert s[i] == s[i..i + 1][0];
    }
  }

  /** An occurrence inside an infix is an occurrence in the whole string. */
  lemma InfixOccurs(s: string, t: string, lo: int, pat: string, j: int)
    requires OccursAt(s, t, lo) && OccursAt(t, pat, j)
    ensures OccursAt(s, pat, lo + j)
  {
    var u, v := s[lo + j..lo + j + |pat|], t[j..j + |pat|];
    forall k | 0 <= k < |pat| ensures u[k] == v[k] {
      assert v[k] == s[lo..lo + |t|][j + k];
    }
    assert u == v;
  }

  /** An infix of a string that avoids `pat` avoids it too. */
  lemma InfixAvoids(s: string, t: string, pat: string)
    requires Occurs(s, t) && !Occurs(s, pat)
    ensures !Occurs(t, pat)
  {
    var lo :| OccursAt(s, t, lo);
    forall j | OccursAt(t, pat, j) ensures OccursAt(s, pat, lo + j) {
      InfixOccurs(s, t, lo, pat, j);
    }
  }

  // ---------------------------------------------------------------------------
  // Splitting around a marker
  // ---------------------------------------------------------------------------

  /** Python's `s.split(marker)[0]`: the text before the first occurrence of
      `marker`, or all of `s` when it does not occur. */
  function Before(s: string, marker: string): (r: string)
    requires marker != []
    ensures r <= s
    ensures !Occurs(r, marker)
    ensures Contains(s, marker) ==> OccursAt(s, marker, |r|)
    ensures Contains(s, marker) ==> forall j :: 0 <= j < |r| ==> !OccursAt(s, marker, j)
    ensures !Contains(s, marker) ==> r == s
  {
    match IndexOf(s, marker)
    case None => s
    case Some(i) =>
      var r := s[..i];
      assert !Occurs(r, marker) by {
        if j :| OccursAt(r, marker, j) {
          assert s[j..j + |marker|] == r[j..j + |marker|];
          assert OccursAt(s, marker, j);
        }
      }
      r
  }

  /** An occurrence in a prefix is an occurrence in the whole string. */
  lemma PrefixOccurs(s: string, k: int, pat: string, j: int)
    requires 0 <= k <= |s| && OccursAt(s[..k], pat, j)
    ensures OccursAt(s, pat, j) && j + |pat| <= k
  {
    assert s[..k][j..j + |pat|] == s[j..j + |pat|];
  }

  /** A pattern that does not start before `k` does not occur in `s[..k]`. */
  lemma NoneInPrefix(s: string, k: int, pat: string)
    requires 0 <= k <= |s| && pat != []
    requires forall j :: 0 <= j < k ==> !OccursAt(s, pat, j)
    ensures !Occurs(s[..k], pat)
  {
    forall j | 0 <= j ensures !OccursAt(s[..k], pat, j) {
      if OccursAt(s[..k], pat, j) { PrefixOccurs(s, k, pat, j); }
    }
  }

  /** The first occurrence in a string, when it ends within a prefix, is the
      first occurrence in that prefix. */
  lemma FirstInPrefix(s: string, k: int, pat: string, m: nat)
    requires OccursAt(s, pat, m) && m + |pat| <= k <= |s|
    requires forall j :: 0 <= j < m ==> !OccursAt(s, pat, j)
    ensures OccursAt(s[..k], pat, m)
    ensures forall j :: 0 <= j < m ==> !OccursAt(s[..k], pat, j)
  {
    assert s[..k][m..m + |pat|] == s[m..m + |pat|];
    forall j | 0 <= j < m ensures !OccursAt(s[..k], pat, j) {
      if OccursAt(s[..k], pat, j) { PrefixOccurs(s, k, pat, j); }
    }
  }

  /** With a marker that overlaps itself, `Before` still cuts at the first
      occurrence: `"aaa".split("aa")[0]` is empty. */
  lemma BeforeOverlapping()
    ensures Before("aaa", "aa") == ""
  {
    assert OccursAt("aaa", "aa", 0) by { assert "aaa"[0..2] == "aa"; }
  }

  /** `Before` cuts at the first occurrence of the marker. */
  lemma BeforeFirst(s: string, marker: string, i: nat)
    requires marker != [] && OccursAt(s, marker, i)
    requires forall j :: 0 <= j < i ==> !OccursAt(s, marker, j)
    ensures Contains(s, marker) && Before(s, marker) == s[..i]
  {
    var r := IndexOf(s, marker);
    assert r.Some?;
    assert r.value == i;
  }

  /** Python's `s.split(sep, 1)[1]`: the text after the first occurrence of
      `sep`; Python raises IndexError when `sep` does not occur. */
  function After(s: string, sep: string): (r: string)
    requires sep != [] && Contains(s, sep)
    ensures s == Before(s, sep) + sep + r
  {
    var i := |Before(s, sep)|;
    assert s == s[..i] + s[i..i + |sep|] + s[i + |sep|..];
    s[i + |sep|..]
  }

  // ---------------------------------------------------------------------------
  // Trimming
  // ---------------------------------------------------------------------------

  /** The first index from `i` on that does not hold whitespace, or `|s|`. */
  function SkipSpaces(s: string, i: nat): (j: nat)
    requires i <= |s|
    ensures i <= j <= |s|
    decreases |s| - i
  {
    if i < |s| && IsSpace(s[i]) then SkipSpaces(s, i + 1) else i
  }

  /** The first index, going down from `j` but not below `lo`, that follows a
      character other than whitespace, or `lo`. */
  function SkipSpacesBack(s: string, lo: nat, j: nat): (k: nat)
    requires lo <= j <= |s|
    ensures lo <= k <= j
    decreases j
  {
    if lo < j && IsSpace(s[j - 1]) then SkipSpacesBack(s, lo, j - 1) else j
  }

  lemma {:induction false} SkipSpacesStops(s: string, i: nat)
    requires i <= |s|
    ensures forall k :: i <= k < SkipSpaces(s, i) ==> IsSpace(s[k])
    ensures SkipSpaces(s, i) < |s| ==> !IsSpace(s[SkipSpaces(s, i)])
    decreases |s| - i
  {
    if i < |s| && IsSpace(s[i]) {
      SkipSpacesStops(s, i + 1);
    }
  }

  lemma {:induction false} SkipSpacesBackStops(s: string, lo: nat, j: nat)
    requires lo <= j <= |s|
    ensures forall k :: SkipSpacesBack(s, lo, j) <= k < j ==> IsSpace(s[k])
    ensures lo < SkipSpacesBack(s, lo, j) ==> !IsSpace(s[SkipSpacesBack(s, lo, j) - 1])
    decreases j
  {
    if lo < j && IsSpace(s[j - 1]) {
      SkipSpacesBackStops(s, lo, j - 1);
    }
  }

  /** `r` sits at index `lo` of `s` with only whitespace around it. */
  predicate Padded(s: string, r: string, lo: int)
  {
    OccursAt(s, r, lo) && AllSpace(s[..lo]) && AllSpace(s[lo + |r|..])
  }

  /** Python's `s.strip()`: `s` is the result padded by whitespace on both
      sides, and the result neither starts nor ends with whitespace. */
  function Trim(s: string): (r: string)
    ensures exists lo :: Padded(s, r, lo)
    ensures r == [] || (!IsSpace(r[0]) && !IsSpace(r[|r| - 1]))
  {
    var lo := SkipSpaces(s, 0);
    var hi := SkipSpacesBack(s, lo, |s|);
    TrimSlice(s, lo, hi);
    s[lo..hi]
  }

  lemma TrimSlice(s: string, lo: nat, hi: nat)
    requires lo == SkipSpaces(s, 0) && hi == SkipSpacesBack(s, lo, |s|)
    ensures Padded(s, s[lo..hi], lo)
    ensures lo < hi ==> !IsSpace(s[lo]) && !IsSpace(s[hi - 1])
  {
    SkipSpacesStops(s, 0);
    SkipSpacesBackStops(s, lo, |s|);
    LeadingSpaces(s, lo);
    TrailingSpaces(s, lo, hi);
  }

  lemma LeadingSpaces(s: string, lo: nat)
    requires lo == SkipSpaces(s, 0)
    ensures AllSpace(s[..lo])
  {
    SkipSpacesStops(s, 0);
    forall k | 0 <= k < lo ensures IsSpace(s[..lo][k]) {
      assert s[..lo][k] == s[k];
    }
  }

  lemma TrailingSpaces(s: string, lo: nat, hi: nat)
    requires lo <= |s| && hi == SkipSpacesBack(s, lo, |s|)
    ensures AllSpace(s[hi..])
  {
    SkipSpacesBackStops(s, lo, |s|);
    forall k | 0 <= k < |s| - hi ensures IsSpace(s[hi..][k]) {
      assert s[hi..][k] == s[hi + k];
    }
  }

  lemma SpaceBefore(s: string, r: string, lo: int, k: int)
    requires Padded(s, r, lo) && 0 <= k < lo
    ensures IsSpace(s[k])
  {
    assert s[..lo][k] == s[k];
  }

  lemma SpaceAfter(s: string, r: string, lo: int, k: int)
    requires Padded(s, r, lo) && lo + |r| <= k < |s|
    ensures IsSpace(s[k])
  {
    assert s[lo + |r|..][k - lo - |r|] == s[k];
  }

  lemma PaddedAt(s: string, r: string, lo: int, k: int)
    requires Padded(s, r, lo) && 0 <= k < |r|
    ensures r[k] == s[lo + k]
  {
    assert s[lo..lo + |r|][k] == s[lo + k];
  }

  /** Two infixes with only whitespace around them and none at their ends
      are the same infix. */
  lemma PaddedUnique(s: string, r: string, lo: int, t: string, lo2: int)
    requires Padded(s, r, lo) && (r == [] || (!IsSpace(r[0]) && !IsSpace(r[|r| - 1])))
    requires Padded(s, t, lo2) && (t == [] || (!IsSpace(t[0]) && !IsSpace(t[|t| - 1])))
    ensures r == t
  {
    if r != [] && t != [] {
      PaddedAt(s, r, lo, 0);
      PaddedAt(s, t, lo2, 0);
      if lo < lo2 { SpaceBefore(s, t, lo2, lo); }
      if lo2 < lo { SpaceBefore(s, r, lo, lo2); }
      PaddedAt(s, r, lo, |r| - 1);
      PaddedAt(s, t, lo2, |t| - 1);
      if |r| < |t| { SpaceAfter(s, r, lo, lo + |t| - 1); }
      if |t| < |r| { SpaceAfter(s, t, lo2, lo2 + |r| - 1); }
    } else if r != [] {
      PaddedAt(s, r, lo, 0);
      if lo < lo2 { SpaceBefore(s, t, lo2, lo); } else { SpaceAfter(s, t, lo2, lo); }
    } else if t != [] {
      PaddedAt(s, t, lo2, 0);
      if lo2 < lo { SpaceBefore(s, r, lo, lo2); } else { SpaceAfter(s, r, lo, lo2); }
    }
  }

  /** The contract of `Trim` determines its result: any infix with only
      whitespace around it and none at its ends is the strip. */
  lemma TrimUnique(s: string, r: string, lo: int)
    requires Padded(s, r, lo)
    requires r == [] || (!IsSpace(r[0]) && !IsSpace(r[|r| - 1]))
    ensures Trim(s) == r
  {
    var lo2 :| Padded(s, Trim(s), lo2);
    PaddedUnique(s, r, lo, Trim(s), lo2);
  }

  /** Leading whitespace does not change what `strip` leaves. */
  lemma TrimAfterSpaces(a: string, b: string)
    requires AllSpace(a)
    ensures Trim(a + b) == Trim(b)
  {
    var lo :| Padded(b, Trim(b), lo);
    PaddedAfterSpaces(a, b, Trim(b), lo);
    TrimUnique(a + b, Trim(b), |a| + lo);
  }

  lemma PaddedAfterSpaces(a: string, b: string, t: string, lo: int)
    requires AllSpace(a) && Padded(b, t, lo)
    ensures Padded(a + b, t, |a| + lo)
  {
    var s := a + b;
    assert s[|a| + lo..|a| + lo + |t|] == b[lo..lo + |t|];
    assert s[..|a| + lo] == a + b[..lo];
    AllSpaceAppend(a, b[..lo]);
    assert s[|a| + lo + |t|..] == b[lo + |t|..];
  }

  lemma AllSpaceAppend(a: string, b: string)
    requires AllSpace(a) && AllSpace(b)
    ensures AllSpace(a + b)
  {
    forall k | 0 <= k < |a + b| ensures IsSpace((a + b)[k]) {
      if k >= |a| { assert (a + b)[k] == b[k - |a|]; }
    }
  }

  /** Stripping a text and cutting it at the first occurrence of a marker that
      starts and ends with non-whitespace, then stripping again, is the same
      as cutting the text at that occurrence and stripping once. */
  lemma TrimCutFirst(s: string, marker: string, m: nat)
    requires marker != [] && !IsSpace(marker[0]) && !IsSpace(marker[|marker| - 1])
    requires OccursAt(s, marker, m)
    requires forall j :: 0 <= j < m ==> !OccursAt(s, marker, j)
    ensures Contains(Trim(s), marker)
    ensures Trim(Before(Trim(s), marker)) == Trim(s[..m])
  {
    var t := Trim(s);
    var lo :| Padded(s, t, lo);
    CutPadded(s, t, lo, marker, m);
  }

  /** `TrimCutFirst` for any infix `t` that only whitespace surrounds. */
  lemma CutPadded(s: string, t: string, lo: int, marker: string, m: nat)
    requires Padded(s, t, lo)
    requires marker != [] && !IsSpace(marker[0]) && !IsSpace(marker[|marker| - 1])
    requires OccursAt(s, marker, m)
    requires forall j :: 0 <= j < m ==> !OccursAt(s, marker, j)
    ensures Contains(t, marker)
    ensures Trim(Before(t, marker)) == Trim(s[..m])
  {
    MarkerInsidePadding(s, t, lo, marker, m);
    assert Contains(t, marker) && Before(t, marker) == s[lo..m] by {
      FirstInInfix(s, t, lo, marker, m);
      BeforeFirst(t, marker, m - lo);
      InfixSlice(s, t, lo, 0, m - lo);
    }
    assert Trim(s[..m]) == Trim(s[lo..m]) by {
      PrefixConcat(s, lo, m);
      TrimAfterSpaces(s[..lo], s[lo..m]);
    }
  }

  /** A slice of an infix is the matching slice of the whole. */
  lemma InfixSlice(s: string, t: string, lo: int, i: int, j: int)
    requires OccursAt(s, t, lo) && 0 <= i <= j <= |t|
    ensures t[i..j] == s[lo + i..lo + j]
  {
    forall k | 0 <= k < j - i ensures t[i..j][k] == s[lo + i..lo + j][k] {
      assert t[i + k] == s[lo..lo + |t|][i + k];
    }
  }

  lemma PrefixOfPrefix(s: string, k: int, m: int)
    requires 0 <= m <= k <= |s|
    ensures s[..k][..m] == s[..m]
  {
  }

  lemma PrefixConcat(s: string, lo: int, m: int)
    requires 0 <= lo <= m <= |s|
    ensures s[..m] == s[..lo] + s[lo..m]
  {
  }

  /** An occurrence of a marker with non-whitespace ends lies inside the
      stripped part of the text. */
  lemma MarkerInsidePadding(s: string, t: string, lo: int, marker: string, m: nat)
    requires Padded(s, t, lo)
    requires marker != [] && !IsSpace(marker[0]) && !IsSpace(marker[|marker| - 1])
    requires OccursAt(s, marker, m)
    ensures lo <= m && m + |marker| <= lo + |t|
  {
    var hi := lo + |t|;
    assert s[m] == marker[0] by { assert s[m] == s[m..m + |marker|][0]; }
    var k := m + |marker| - 1;
    assert s[k] == marker[|marker| - 1] by { assert s[k] == s[m..m + |marker|][|marker| - 1]; }
  }

  /** The first occurrence in `s`, when it lies inside the infix `t` at `lo`,
      is the first occurrence in `t`. */
  lemma FirstInInfix(s: string, t: string, lo: int, marker: string, m: nat)
    requires OccursAt(s, t, lo) && lo <= m && m + |marker| <= lo + |t|
    requires OccursAt(s, marker, m)
    requires forall j :: 0 <= j < m ==> !OccursAt(s, marker, j)
    ensures OccursAt(t, marker, m - lo)
    ensures forall j :: 0 <= j < m - lo ==> !OccursAt(t, marker, j)
  {
    InfixSlice(s, t, lo, m - lo, m - lo + |marker|);
    forall j | 0 <= j < m - lo ensures !OccursAt(t, marker, j) {
      if OccursAt(t, marker, j) { InfixOccurs(s, t, lo, marker, j); }
    }
  }

  lemma TrimInfix(s: string)
    ensures Occurs(s, Trim(s))
  {
  }

  /** A string without surrounding whitespace is its own strip. */
  lemma TrimOfTrimmed(s: string)
    requires s == [] || (!IsSpace(s[0]) && !IsSpace(s[|s| - 1]))
    ensures Trim(s) == s
  {
    assert s[0..|s|] == s;
    TrimUnique(s, s, 0);
  }

  /** Stripping twice is stripping once. */
  lemma TrimIdempotent(s: string)
    ensures Trim(Trim(s)) == Trim(s)
  {
    TrimOfTrimmed(Trim(s));
  }

  // ---------------------------------------------------------------------------
  // Python slicing s[:n]
  // ---------------------------------------------------------------------------

  /** Python's `s[:n]` for any integer `n`: a negative `n` counts from the end. */
  function SliceTo<T>(s: seq<T>, n: int): (r: seq<T>)
    ensures r <= s
    ensures n >= 0 ==> |r| == if n < |s| then n else |s|
    ensures n < 0 ==> |r| == if |s| + n > 0 then |s| + n else 0
  {
    if n >= 0 then (if n < |s| then s[..n] else s)
    else (if |s| + n > 0 then s[..|s| + n] else [])
  }

  // ---------------------------------------------------------------------------
  // Splitting on a separator character
  // ---------------------------------------------------------------------------

  /** Python's `s.split(sep)` for a one-character separator. */
  function Split(s: string, sep: char): (parts: seq<string>)
    ensures |parts| >= 1
    ensures forall k :: 0 <= k < |parts| ==> sep !in parts[k]
    decreases |s|
  {
    if s == [] then [""]
    else
      var rest := Split(s[1..], sep);
      if s[0] == sep then [""] + rest
      else [[s[0]] + rest[0]] + rest[1..]
  }

  /** Python's `sep.join(parts)`. */
  function Join(parts: seq<string>, sep: char): string
    requires |parts| >= 1
    decreases |parts|
  {
    if |parts| == 1 then parts[0] else parts[0] + [sep] + Join(parts[1..], sep)
  }

  /** Joining what was split gives back the original text. */
  lemma {:induction false} JoinSplit(s: string, sep: char)
    ensures Join(Split(s, sep), sep) == s
    decreases |s|
  {
    if s != [] {
      JoinSplit(s[1..], sep);
      var rest := Split(s[1..], sep);
      if s[0] != sep {
        var parts := Split(s, sep);
        if |rest| > 1 {
          assert parts[1..] == rest[1..];
        }
      }
    }
  }

  /** Splitting a join of separator-free parts gives back the parts. */
  lemma {:induction false} SplitJoin(parts: seq<string>, sep: char)
    requires |parts| >= 1
    requires forall k :: 0 <= k < |parts| ==> sep !in parts[k]
    ensures Split(Join(parts, sep), sep) == parts
    decreases |parts|, |parts[0]|
  {
    var p := parts[0];
    if p == [] {
      if |parts| > 1 {
        SplitJoin(parts[1..], sep);
        SplitJoinEmptyHead(parts, sep);
      }
    } else {
      var tailParts := [p[1..]] + parts[1..];
      assert forall k :: 0 <= k < |tailParts| ==> sep !in tailParts[k] by {
        assert p == [p[0]] + p[1..];
      }
      SplitJoin(tailParts, sep);
      SplitJoinFirstChar(parts, tailParts, sep);
    }
  }

  /** The step of `SplitJoin` for an empty first part. */
  lemma SplitJoinEmptyHead(parts: seq<string>, sep: char)
    requires |parts| > 1 && parts[0] == []
    requires Split(Join(parts[1..], sep), sep) == parts[1..]
    ensures Split(Join(parts, sep), sep) == parts
  {
    assert Join(parts, sep) == [sep] + Join(parts[1..], sep);
    assert Join(parts, sep)[1..] == Join(parts[1..], sep);
    assert parts == [""] + parts[1..];
  }

  /** The step of `SplitJoin` for a first part that starts with a character
      other than the separator. */
  lemma SplitJoinFirstChar(parts: seq<string>, tailParts: seq<string>, sep: char)
    requires |parts| >= 1 && parts[0] != [] && parts[0][0] != sep
    requires tailParts == [parts[0][1..]] + parts[1..]
    requires Split(Join(tailParts, sep), sep) == tailParts
    ensures Split(Join(parts, sep), sep) == parts
  {
    var p := parts[0];
    assert p == [p[0]] + p[1..];
    assert tailParts[1..] == parts[1..];
    assert Join(parts, sep) == [p[0]] + Join(tailParts, sep);
    assert Join(parts, sep)[1..] == Join(tailParts, sep);
  }

  lemma {:induction false} JoinAppend(xs: seq<string>, ys: seq<string>, sep: char)
    requires |xs| >= 1 && |ys| >= 1
    ensures Join(xs + ys, sep) == Join(xs, sep) + [sep] + Join(ys, sep)
    decreases |xs|
  {
    if |xs| > 1 {
      assert (xs + ys)[1..] == xs[1..] + ys;
      JoinAppend(xs[1..], ys, sep);
    }
  }

  /** A separator splits the text into the parts on either side of it. */
  lemma SplitAround(a: string, sep: char, b: string)
    ensures Split(a + [sep] + b, sep) == Split(a, sep) + Split(b, sep)
  {
    var xs, ys := Split(a, sep), Split(b, sep);
    JoinSplit(a, sep);
    JoinSplit(b, sep);
    JoinAppend(xs, ys, sep);
    SplitJoin(xs + ys, sep);
  }

  /** Text without the separator is a single part. */
  lemma SplitNone(s: string, sep: char)
    requires sep !in s
    ensures Split(s, sep) == [s]
  {
    SplitJoin([s], sep);
  }

  /** Split yields more than one part exactly when the separator occurs. */
  lemma SplitMany(s: string, sep: char)
    ensures |Split(s, sep)| > 1 <==> sep in s
  {
    if sep in s {
      var i :| 0 <= i < |s| && s[i] == sep;
      assert s == s[..i] + [sep] + s[i + 1..];
      SplitAround(s[..i], sep, s[i + 1..]);
    } else {
      SplitNone(s, sep);
    }
  }

  /** A character absent from a string is absent from every piece of its split. */
  lemma {:induction false} SplitKeepsAbsent(s: string, sep: char, c: char)
    requires c !in s
    ensures forall k :: 0 <= k < |Split(s, sep)| ==> c !in Split(s, sep)[k]
    decreases |s|
  {
    if s != [] {
      assert c !in s[1..] by {
        forall i | 0 <= i < |s[1..]| ensures s[1..][i] != c {
          assert s[1..][i] == s[i + 1];
        }
      }
      SplitKeepsAbsent(s[1..], sep, c);
    }
  }

  /** The second part of `s.split(sep)` is the text between the first and the
      second separator (or the end). */
  lemma SecondPart(s: string, sep: char)
    requires sep in s
    ensures |Split(s, sep)| > 1 && Contains(s, [sep])
    ensures Split(s, sep)[1] == Before(After(s, [sep]), [sep])
  {
    ContainsChar(s, sep);
    var a, b := Before(s, [sep]), After(s, [sep]);
    assert sep !in a by { ContainsChar(a, sep); ContainsIff(a, [sep]); }
    SplitAround(a, sep, b);
    SplitNone(a, sep);
    var c := Before(b, [sep]);
    if Contains(b, [sep]) {
      var d := After(b, [sep]);
      assert sep !in c by { ContainsChar(c, sep); ContainsIff(c, [sep]); }
      SplitAround(c, sep, d);
      SplitNone(c, sep);
    } else {
      ContainsChar(b, sep);
      SplitNone(b, sep);
    }
  }

  lemma {:induction false} JoinExtendLast(parts: seq<string>, t: string, sep: char)
    requires |parts| >= 1
    ensures Join(parts[..|parts| - 1] + [parts[|parts| - 1] + t], sep) == Join(parts, sep) + t
    decreases |parts|
  {
    if |parts| > 1 {
      var rest := parts[1..];
      JoinExtendLast(rest, t, sep);
      assert (parts[..|parts| - 1] + [parts[|parts| - 1] + t])[1..]
          == rest[..|rest| - 1] + [rest[|rest| - 1] + t];
    }
  }

  /** Text without the separator extends the last part. */
  lemma SplitAppendPlain(a: string, t: string, sep: char)
    requires sep !in t
    ensures var parts := Split(a, sep);
      Split(a + t, sep) == parts[..|parts| - 1] + [parts[|parts| - 1] + t]
  {
    var parts := Split(a, sep);
    var extended := parts[..|parts| - 1] + [parts[|parts| - 1] + t];
    JoinSplit(a, sep);
    JoinExtendLast(parts, t, sep);
    assert sep !in parts[|parts| - 1] + t;
    assert forall k :: 0 <= k < |extended| ==> sep !in extended[k] by {
      forall k | 0 <= k < |extended| ensures sep !in extended[k] {
        if k < |parts| - 1 { assert extended[k] == parts[k]; }
      }
    }
    SplitJoin(extended, sep);
  }

  /** A trailing separator starts a new, empty part. */
  lemma SplitAppendSep(a: string, sep: char)
    ensures Split(a + [sep], sep) == Split(a, sep) + [""]
  {
    SplitAround(a, sep, "");
    assert a + [sep] + "" == a + [sep];
  }

  // ---------------------------------------------------------------------------
  // Decimal numerals
  // ---------------------------------------------------------------------------

  function DigitChar(d: nat): (c: char)
    requires d < 10
    ensures IsDigit(c)
  {
    ['0', '1', '2', '3', '4', '5', '6', '7', '8', '9'][d]
  }

  /** Python's `str(n)` for a natural number. */
  function Decimal(n: nat): (r: string)
    ensures r != []
    ensures forall k :: 0 <= k < |r| ==> IsDigit(r[k])
    ensures r[0] == '0' ==> n == 0
  {
    if n < 10 then [DigitChar(n)] else Decimal(n / 10) + [DigitChar(n % 10)]
  }

  /** The value of a string of decimal digits. */
  function DecimalValue(s: string): nat
    requires forall k :: 0 <= k < |s| ==> IsDigit(s[k])
  {
    if s == [] then 0
    else 10 * DecimalValue(s[..|s| - 1]) + DigitValue(s[|s| - 1])
  }

  function DigitValue(c: char): (d: nat)
    requires IsDigit(c)
    ensures d < 10 && DigitChar(d) == c
  {
    if c == '0' then 0 else if c == '1' then 1 else if c == '2' then 2
    else if c == '3' then 3 else if c == '4' then 4 else if c == '5' then 5
    else if c == '6' then 6 else if c == '7' then 7 else if c == '8' then 8
    else 9
  }

  /** Reading back a rendered number gives the number. */
  lemma {:induction false} DecimalRoundTrip(n: nat)
    ensures DecimalValue(Decimal(n)) == n
  {
    var r := Decimal(n);
    if n >= 10 {
      DecimalRoundTrip(n / 10);
      assert r[..|r| - 1] == Decimal(n / 10);
    }
  }
}
