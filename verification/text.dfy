/**
 * String primitives with the meaning Python gives them: `str.isspace`,
 * `str.strip`, ASCII `str.lower`, single-pass `str.replace(term, "")`,
 * deletion by a character class, and `re.split` on a one-character
 * alternative.
 */
module Text {

  /** A character Python's `str.isspace()` accepts. */
  predicate IsSpace(c: char) {
    || c == ' '
    || '\t' <= c <= '\r'
    || '\U{1C}' <= c <= '\U{1F}'
    || c == '\U{85}' || c == '\U{A0}' || c == '\U{1680}'
    || '\U{2000}' <= c <= '\U{200A}'
    || c == '\U{2028}' || c == '\U{2029}' || c == '\U{202F}' || c == '\U{205F}' || c == '\U{3000}'
  }

  predicate IsUpper(c: char) { 'A' <= c <= 'Z' }

  /** No ASCII capital letter occurs in `s`. */
  predicate IsLowerCase(s: string) {
    forall c :: c in s ==> !IsUpper(c)
  }

  /** `s` neither begins nor ends with whitespace. */
  predicate IsTrimmed(s: string) {
    s == [] || (!IsSpace(s[0]) && !IsSpace(s[|s| - 1]))
  }

  /** `t` occurs in `s` as a contiguous slice (Python's `t in s`). */
  predicate Occurs(t: string, s: string) {
    exists i :: 0 <= i <= |s| - |t| && OccursAt(t, s, i)
  }

  /** `t` occurs in `s` starting at index `i`. */
  predicate OccursAt(t: string, s: string, i: int) {
    0 <= i && i + |t| <= |s| && s[i..i + |t|] == t
  }

  // ---------------------------------------------------------------- strip

  /** Drops leading whitespace. */
  function TrimStart(s: string): (r: string)
    ensures |r| <= |s| && r == s[|s| - |r|..]
    ensures forall k :: 0 <= k < |s| - |r| ==> IsSpace(s[k])
    ensures r == [] || !IsSpace(r[0])
  {
    if s != [] && IsSpace(s[0]) then
      var r := TrimStart(s[1..]);
      assert s[1..][|s| - 1 - |r|..] == s[|s| - |r|..];
      r
    else s
  }

  /** Drops trailing whitespace. */
  function TrimEnd(s: string): (r: string)
    ensures |r| <= |s| && r == s[..|r|]
    ensures forall k :: |r| <= k < |s| ==> IsSpace(s[k])
    ensures r == [] || !IsSpace(r[|r| - 1])
  {
    if s != [] && IsSpace(s[|s| - 1]) then TrimEnd(s[..|s| - 1]) else s
  }

  /** Python's `str.strip()` with no argument. */
  function Strip(s: string): (r: string)
    ensures IsTrimmed(r)
    ensures forall c :: c in r ==> c in s
    ensures forall c :: c in s && !IsSpace(c) ==> c in r
    ensures IsTrimmed(s) ==> r == s
  {
    var a := TrimStart(s);
    TrimBoth(s, a, TrimEnd(a));
    TrimEnd(a)
  }

  /** Trimming both ends keeps a slice whose outside is all whitespace. */
  lemma TrimBoth(s: string, a: string, r: string)
    requires a == TrimStart(s) && r == TrimEnd(a)
    ensures IsTrimmed(r)
    ensures forall c :: c in r ==> c in s
    ensures forall c :: c in s && !IsSpace(c) ==> c in r
    ensures IsTrimmed(s) ==> r == s
  {
    var i, j := TrimBothSlice(s, a, r);
    SliceChars(s, i, j);
    NonSpaceInside(s, i, j);
    TrimBothEnds(s, a, r);
  }

  /** Trimming both ends leaves the slice from `i` whose outside is all whitespace. */
  lemma TrimBothSlice(s: string, a: string, r: string) returns (i: nat, j: nat)
    requires a == TrimStart(s) && r == TrimEnd(a)
    ensures i <= j <= |s| && r == s[i..j]
    ensures forall k :: 0 <= k < i ==> IsSpace(s[k])
    ensures forall k :: j <= k < |s| ==> IsSpace(s[k])
  {
    i := |s| - |a|;
    j := i + |r|;
    PrefixOfSuffix(s, i, a, |r|);
    assert r == a[..|r|];
    assert a[..|r|] == s[i..j];
    forall k | 0 <= k < i ensures IsSpace(s[k]) {
      assert k < |s| - |a|;
    }
    forall k | j <= k < |s| ensures IsSpace(s[k]) {
      assert s[k] == a[k - i] && |r| <= k - i < |a|;
    }
  }

  /** A prefix of a suffix is a slice. */
  lemma PrefixOfSuffix<T>(s: seq<T>, i: nat, a: seq<T>, n: nat)
    requires i <= |s| && a == s[i..] && n <= |a|
    ensures a[..n] == s[i..i + n]
    ensures forall k :: i <= k < |s| ==> s[k] == a[k - i]
  {
  }

  /** The result of trimming both ends is trimmed, and a trimmed string is left as it is. */
  lemma TrimBothEnds(s: string, a: string, r: string)
    requires a == TrimStart(s) && r == TrimEnd(a)
    ensures IsTrimmed(r)
    ensures IsTrimmed(s) ==> r == s
  {
    if r != [] {
      assert r[0] == a[0];
    }
    if IsTrimmed(s) {
      assert a == s;
    }
  }

  /**
   * Stripping only trims whitespace at the ends: its result is the slice
   * `s[i..j]`, and everything before `i` and from `j` on is whitespace.
   */
  lemma StripBounds(s: string) returns (i: nat, j: nat)
    ensures i <= j <= |s| && Strip(s) == s[i..j]
    ensures forall k :: 0 <= k < i ==> IsSpace(s[k])
    ensures forall k :: j <= k < |s| ==> IsSpace(s[k])
  {
    var a := TrimStart(s);
    var r := TrimEnd(a);
    i, j := TrimBothSlice(s, a, r);
    StripTrims(s, r);
  }

  lemma StripTrims(s: string, r: string)
    requires r == TrimEnd(TrimStart(s))
    ensures Strip(s) == r
  {
  }

  /** Every character of a slice is a character of the whole. */
  lemma SliceChars(s: string, i: int, j: int)
    requires 0 <= i <= j <= |s|
    ensures forall c :: c in s[i..j] ==> c in s
  {
    forall c | c in s[i..j] ensures c in s {
      var k :| 0 <= k < j - i && s[i..j][k] == c;
      assert s[i + k] == c;
    }
  }

  /** A slice whose outside is all whitespace keeps every other character. */
  lemma NonSpaceInside(s: string, i: int, j: int)
    requires 0 <= i <= j <= |s|
    requires forall k :: 0 <= k < i ==> IsSpace(s[k])
    requires forall k :: j <= k < |s| ==> IsSpace(s[k])
    ensures forall c :: c in s && !IsSpace(c) ==> c in s[i..j]
  {
    forall c | c in s && !IsSpace(c) ensures c in s[i..j] {
      var k :| 0 <= k < |s| && s[k] == c;
      assert s[i..j][k - i] == c;
    }
  }

  // ---------------------------------------------------------------- lower

  /** ASCII lower-casing of one character. */
  function LowerChar(c: char): (d: char)
    ensures !IsUpper(d)
    ensures IsUpper(c) ==> d as int == c as int + 32
    ensures !IsUpper(c) ==> d == c
  {
    if IsUpper(c) then (c as int + 32) as char else c
  }

  /** Python's `str.lower()` restricted to ASCII letters. */
  function Lower(s: string): (r: string)
    ensures |r| == |s|
    ensures IsLowerCase(r)
    ensures forall k :: 0 <= k < |s| && !IsUpper(s[k]) ==> r[k] == s[k]
    ensures forall k :: 0 <= k < |s| && IsUpper(s[k]) ==> r[k] as int == s[k] as int + 32
  {
    seq(|s|, k requires 0 <= k < |s| => LowerChar(s[k]))
  }

  /** Lower-casing works character by character, so it distributes over concatenation. */
  lemma LowerAppend(a: string, b: string)
    ensures Lower(a + b) == Lower(a) + Lower(b)
  {
  }

  /** Lower-casing leaves a lower-case string as it is. */
  lemma LowerOfLowerCase(s: string)
    requires IsLowerCase(s)
    ensures Lower(s) == s
  {
  }

  // -------------------------------------------------------------- replace

  /**
   * Python's `s.replace(t, "")`: scans left to right and deletes each
   * occurrence of `t` that does not overlap one already deleted; the
   * text left behind is not scanned again.
   */
  function RemoveAll(s: string, t: string): (r: string)
    ensures |r| <= |s|
    ensures forall c :: c in r ==> c in s
    decreases |s|
  {
    if |t| == 0 || |s| < |t| then s
    else if s[..|t|] == t then RemoveAll(s[|t|..], t)
    else [s[0]] + RemoveAll(s[1..], t)
  }

  /** An occurrence in a suffix is an occurrence in the whole string. */
  lemma OccursInSuffix(t: string, s: string, n: nat)
    requires n <= |s| && Occurs(t, s[n..])
    ensures Occurs(t, s)
  {
    var i :| 0 <= i <= |s[n..]| - |t| && OccursAt(t, s[n..], i);
    assert s[n..][i..i + |t|] == s[n + i..n + i + |t|];
    assert OccursAt(t, s, n + i);
  }

  /** Where `t` does not occur, deleting it changes nothing. */
  lemma {:induction false} RemoveAllAbsent(s: string, t: string)
    requires !Occurs(t, s)
    ensures RemoveAll(s, t) == s
    decreases |s|
  {
    if |t| != 0 && |s| >= |t| {
      assert !OccursAt(t, s, 0);
      if Occurs(t, s[1..]) {
        OccursInSuffix(t, s, 1);
      }
      RemoveAllAbsent(s[1..], t);
    }
  }

  /** Deleting a one-character term leaves no copy of that character. */
  lemma {:induction false} RemoveAllChar(s: string, c: char)
    ensures c !in RemoveAll(s, [c])
    decreases |s|
  {
    if |s| < 1 {
    } else if s[..1] == [c] {
      RemoveAllChar(s[1..], c);
    } else {
      assert s[0] != c;
      RemoveAllChar(s[1..], c);
    }
  }

  /**
   * The scan steps over a prefix at none of whose positions an occurrence
   * of `t` begins; the leftmost occurrence is the first one deleted.
   */
  lemma {:induction false} RemoveAllSkipPrefix(a: string, rest: string, t: string)
    requires |t| > 0
    requires forall k :: 0 <= k < |a| ==> !OccursAt(t, a + rest, k)
    ensures RemoveAll(a + rest, t) == a + RemoveAll(rest, t)
    decreases |a|
  {
    var s := a + rest;
    if a == [] {
      assert s == rest;
    } else if |s| < |t| {
      assert RemoveAll(rest, t) == rest;
    } else {
      assert s[1..] == a[1..] + rest;
      assert s[..|t|] != t by {
        assert !OccursAt(t, s, 0);
        assert s[0..|t|] == s[..|t|];
      }
      assert RemoveAll(s, t) == [s[0]] + RemoveAll(s[1..], t);
      forall k | 0 <= k < |a[1..]| ensures !OccursAt(t, a[1..] + rest, k) {
        assert !OccursAt(t, s, k + 1);
        if k + |t| <= |a[1..] + rest| {
          assert s[k + 1..k + 1 + |t|] == (a[1..] + rest)[k..k + |t|];
        }
      }
      RemoveAllSkipPrefix(a[1..], rest, t);
      assert [s[0]] + a[1..] == a;
    }
  }

  /** An occurrence at the head of the text is deleted and the scan resumes after it. */
  lemma RemoveAllAtHead(t: string, b: string)
    requires |t| > 0
    ensures RemoveAll(t + b, t) == RemoveAll(b, t)
  {
    assert (t + b)[..|t|] == t;
    assert (t + b)[|t|..] == b;
  }

  /**
   * A single occurrence of `t`, after a part without its first character
   * and before a part lacking one of its characters, is the only deletion.
   */
  lemma RemoveAllOnce(a: string, t: string, b: string, c: char)
    requires |t| > 0 && t[0] !in a && c in t && c !in b
    ensures RemoveAll(a + t + b, t) == a + b
  {
    forall k | 0 <= k < |a| ensures !OccursAt(t, a + (t + b), k) {
      assert (a + (t + b))[k] == a[k] != t[0];
    }
    RemoveAllSkipPrefix(a, t + b, t);
    assert a + t + b == a + (t + b);
    RemoveAllAtHead(t, b);
    RemoveAllMissingChar(b, t, c);
  }

  /** A term with a character the text lacks does not occur in it. */
  lemma RemoveAllMissingChar(s: string, t: string, c: char)
    requires c in t && c !in s
    ensures RemoveAll(s, t) == s
  {
    var k :| 0 <= k < |t| && t[k] == c;
    forall i | 0 <= i <= |s| - |t| ensures !OccursAt(t, s, i) {
      assert s[i..i + |t|][k] != c;
    }
    RemoveAllAbsent(s, t);
  }

  // --------------------------------------------------------------- filter

  /** Keeps exactly the characters of `s` that satisfy `keep`, in order. */
  function Filter(s: string, keep: char -> bool): (r: string)
    ensures |r| <= |s|
    ensures forall c :: c in r <==> c in s && keep(c)
    ensures |s| == 1 ==> r == (if keep(s[0]) then s else [])
  {
    if s == [] then []
    else if keep(s[0]) then [s[0]] + Filter(s[1..], keep)
    else Filter(s[1..], keep)
  }

  /** Filtering a string all of whose characters pass keeps it whole. */
  lemma {:induction false} FilterAllKept(s: string, keep: char -> bool)
    requires forall k :: 0 <= k < |s| ==> keep(s[k])
    ensures Filter(s, keep) == s
  {
    if s != [] {
      FilterAllKept(s[1..], keep);
    }
  }

  /** Filtering works character by character: it distributes over concatenation, keeping order. */
  lemma {:induction false} FilterAppend(a: string, b: string, keep: char -> bool)
    ensures Filter(a + b, keep) == Filter(a, keep) + Filter(b, keep)
    decreases |a|
  {
    if a == [] {
      assert a + b == b;
    } else {
      assert (a + b)[0] == a[0];
      assert (a + b)[1..] == a[1..] + b;
      FilterAppend(a[1..], b, keep);
    }
  }

  /** Python's `s.replace(a, b)` for single characters `a` and `b`. */
  function ReplaceChar(s: string, a: char, b: char): (r: string)
    ensures |r| == |s|
    ensures a != b ==> a !in r
    ensures forall k :: 0 <= k < |s| ==> r[k] == (if s[k] == a then b else s[k])
  {
    seq(|s|, k requires 0 <= k < |s| => if s[k] == a then b else s[k])
  }

  /** Replacing `a` by `b` keeps every other character and introduces only `b`. */
  lemma ReplaceCharChars(s: string, a: char, b: char)
    ensures forall c :: c in s && c != a ==> c in ReplaceChar(s, a, b)
    ensures a in s ==> b in ReplaceChar(s, a, b)
    ensures forall c :: c in ReplaceChar(s, a, b) ==> c in s || c == b
  {
    var r := ReplaceChar(s, a, b);
    forall c | c in s && c != a ensures c in r {
      var k :| 0 <= k < |s| && s[k] == c;
      assert r[k] == c;
    }
    if a in s {
      var k :| 0 <= k < |s| && s[k] == a;
      assert r[k] == b;
    }
    forall c | c in r ensures c in s || c == b {
      var k :| 0 <= k < |r| && r[k] == c;
      assert s[k] == c || c == b;
    }
  }

  // ---------------------------------------------------------------- split

  /** A separator of `re.split(r'\n|,', …)`. */
  predicate IsFieldSep(c: char) { c == '\n' || c == ',' }

  /** The number of separators in `s`. */
  function SepCount(s: string): nat {
    if s == [] then 0 else (if IsFieldSep(s[0]) then 1 else 0) + SepCount(s[1..])
  }

  /**
   * `re.split(r'\n|,', s)`: the pieces between separators, including the
   * empty ones; a string without separators is its own single piece.
   */
  function SplitFields(s: string): (r: seq<string>)
    ensures |r| == SepCount(s) + 1
    ensures forall k, c :: 0 <= k < |r| && c in r[k] ==> !IsFieldSep(c) && c in s
  {
    if s == [] then [[]]
    else
      var rest := SplitFields(s[1..]);
      assert forall c :: c in s[1..] ==> c in s;
      if IsFieldSep(s[0]) then
        var r := [[]] + rest;
        assert forall k :: 1 <= k < |r| ==> r[k] == rest[k - 1];
        r
      else
        var r := [[s[0]] + rest[0]] + rest[1..];
        assert forall k :: 1 <= k < |r| ==> r[k] == rest[k];
        assert forall c :: c in r[0] ==> c == s[0] || c in rest[0];
        r
  }

  /** The pieces joined back together with `sep` between consecutive ones. */
  function Join(pieces: seq<string>, sep: string): string {
    if pieces == [] then []
    else if |pieces| == 1 then pieces[0]
    else pieces[0] + sep + Join(pieces[1..], sep)
  }

  /** Prepending a character to the first piece prepends it to the join. */
  lemma JoinConsFirst(c: char, pieces: seq<string>, sep: string)
    requires pieces != []
    ensures Join([[c] + pieces[0]] + pieces[1..], sep) == [c] + Join(pieces, sep)
  {
    var p := [[c] + pieces[0]] + pieces[1..];
    assert p[1..] == pieces[1..];
  }

  /**
   * Splitting loses nothing but the kind of separator: joining the pieces
   * with commas gives back `s` with each newline turned into a comma.
   */
  lemma {:induction false} SplitJoin(s: string)
    ensures Join(SplitFields(s), ",") == ReplaceChar(s, '\n', ',')
  {
    if s != [] {
      var rest := SplitFields(s[1..]);
      SplitJoin(s[1..]);
      assert ReplaceChar(s, '\n', ',') == [ReplaceChar(s, '\n', ',')[0]] + ReplaceChar(s[1..], '\n', ',');
      if IsFieldSep(s[0]) {
        var p := [[]] + rest;
        assert p[1..] == rest;
      } else {
        JoinConsFirst(s[0], rest, ",");
      }
    }
  }

  /** A piece without separators, a separator, and the rest split as the piece then the rest's pieces. */
  lemma {:induction false} SplitFieldsCons(a: string, sep: char, b: string)
    requires forall c :: c in a ==> !IsFieldSep(c)
    requires IsFieldSep(sep)
    ensures SplitFields(a + [sep] + b) == [a] + SplitFields(b)
    decreases |a|
  {
    var s := a + [sep] + b;
    if a == [] {
      assert s[1..] == b;
    } else {
      assert s[1..] == a[1..] + [sep] + b;
      SplitFieldsCons(a[1..], sep, b);
      assert [a[0]] + a[1..] == a;
    }
  }

  /** A string without separators is a single piece. */
  lemma {:induction false} SplitFieldsNone(a: string)
    requires forall c :: c in a ==> !IsFieldSep(c)
    ensures SplitFields(a) == [a]
  {
    if a != [] {
      SplitFieldsNone(a[1..]);
      assert [a[0]] + a[1..] == a;
    }
  }
}
