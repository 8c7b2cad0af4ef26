/**
 * The tag sanitizer: `clean_tags`, which turns free-text genre and
 * descriptor pieces into Last.fm-safe tags, and `clean_album_title`, which
 * normalises an album title for the fallback metadata query.
 */
module Sanitizer {
  import opened Wrappers
  import opened Text

  // ================================================================ tags

  /** A character Last.fm tags may carry: `[0-9A-Za-z -]`. */
  predicate IsTagChar(c: char) {
    '0' <= c <= '9' || 'A' <= c <= 'Z' || 'a' <= c <= 'z' || c == ' ' || c == '-'
  }

  /** A well-formed tag: tag characters only, no surrounding whitespace. */
  predicate IsTag(s: string) {
    (forall k :: 0 <= k < |s| ==> IsTagChar(s[k])) && IsTrimmed(s)
  }

  /**
   * One item of `clean_tags`: `&` becomes `n`, every character outside
   * `[0-9A-Za-z -]` is deleted, and surrounding whitespace is stripped.
   */
  function CleanTag(item: string): (r: string)
    ensures IsTag(r)
    ensures |r| <= |item|
    ensures '&' in item ==> 'n' in r
    ensures forall c :: c in r ==> c in item || (c == 'n' && '&' in item)
    ensures forall c :: c in item && IsTagChar(c) && c != ' ' ==> c in r
  {
    var replaced := ReplaceChar(item, '&', 'n');
    var kept := Filter(replaced, IsTagChar);
    CleanTagStages(item, replaced, kept, Strip(kept));
    Strip(kept)
  }

  /** What each stage of `CleanTag` keeps and drops. */
  lemma CleanTagStages(item: string, replaced: string, kept: string, r: string)
    requires replaced == ReplaceChar(item, '&', 'n')
    requires kept == Filter(replaced, IsTagChar)
    requires r == Strip(kept)
    ensures IsTag(r)
    ensures '&' in item ==> 'n' in r
    ensures forall c :: c in r ==> c in item || (c == 'n' && '&' in item)
    ensures forall c :: c in item && IsTagChar(c) && c != ' ' ==> c in r
    ensures |r| <= |item|
  {
    var i, j := StripBounds(kept);
    ReplaceCharChars(item, '&', 'n');
    forall k | 0 <= k < |r| ensures IsTagChar(r[k]) {
      assert r[k] in kept;
    }
    forall c | c in item && IsTagChar(c) && c != ' ' ensures c in r {
      TagCharNotSpace(c);
      assert c in kept;
    }
  }

  /** The only whitespace character a tag may hold is the plain space. */
  lemma TagCharNotSpace(c: char)
    requires IsTagChar(c) && c != ' '
    ensures !IsSpace(c)
  {
  }

  /**
   * The cleaned item is a slice of the filtered item, and what the slice
   * leaves out at either end is plain spaces: filtering keeps the tag
   * characters in order and stripping removes only the spaces at the ends.
   */
  lemma CleanTagSlice(item: string) returns (i: nat, j: nat)
    ensures var f := Filter(ReplaceChar(item, '&', 'n'), IsTagChar);
      && i <= j <= |f| && CleanTag(item) == f[i..j]
      && (forall k :: 0 <= k < i ==> f[k] == ' ')
      && (forall k :: j <= k < |f| ==> f[k] == ' ')
  {
    var f := Filter(ReplaceChar(item, '&', 'n'), IsTagChar);
    i, j := StripBounds(f);
    forall k | 0 <= k < i ensures f[k] == ' ' {
      assert f[k] in f;
      if f[k] != ' ' { TagCharNotSpace(f[k]); }
    }
    forall k | j <= k < |f| ensures f[k] == ' ' {
      assert f[k] in f;
      if f[k] != ' ' { TagCharNotSpace(f[k]); }
    }
  }

  /** An item made only of tag characters is merely stripped. */
  lemma CleanTagOfTagChars(s: string)
    requires forall k :: 0 <= k < |s| ==> IsTagChar(s[k])
    ensures CleanTag(s) == Strip(s)
  {
    assert ReplaceChar(s, '&', 'n') == s;
    FilterAllKept(s, IsTagChar);
  }

  /** A string that already is a tag is its own clean form. */
  lemma CleanTagOfTag(s: string)
    requires IsTag(s)
    ensures CleanTag(s) == s
  {
    var replaced := ReplaceChar(s, '&', 'n');
    assert replaced == s;
    FilterAllKept(s, IsTagChar);
  }

  /** Cleaning a tag twice is cleaning it once. */
  lemma CleanTagIdempotent(s: string)
    ensures CleanTag(CleanTag(s)) == CleanTag(s)
  {
    CleanTagOfTag(CleanTag(s));
  }

  /**
   * `clean_tags`: exactly one tag per item, in the same order, with no
   * deduplication and empty results kept.
   */
  function CleanTags(items: seq<string>): (r: seq<string>)
    ensures |r| == |items|
    ensures forall k :: 0 <= k < |items| ==> r[k] == CleanTag(items[k])
    ensures forall k :: 0 <= k < |r| ==> IsTag(r[k])
  {
    seq(|items|, k requires 0 <= k < |items| => CleanTag(items[k]))
  }

  /** `clean_tags(clean_tags(x)) == clean_tags(x)`. */
  lemma CleanTagsIdempotent(items: seq<string>)
    ensures CleanTags(CleanTags(items)) == CleanTags(items)
  {
    var once := CleanTags(items);
    forall k | 0 <= k < |items|
      ensures CleanTags(once)[k] == once[k]
    {
      CleanTagIdempotent(items[k]);
    }
  }

  /** Cleaning distributes over concatenation of the raw item lists. */
  lemma CleanTagsAppend(a: seq<string>, b: seq<string>)
    ensures CleanTags(a + b) == CleanTags(a) + CleanTags(b)
  {
  }

  /**
   * The ampersand is replaced, not deleted: an item that becomes a valid tag
   * once each `&` is read as `n` is cleaned to exactly that.
   */
  lemma CleanTagReplacesAmpersand(item: string)
    requires IsTag(ReplaceChar(item, '&', 'n'))
    ensures CleanTag(item) == ReplaceChar(item, '&', 'n')
  {
    FilterAllKept(ReplaceChar(item, '&', 'n'), IsTagChar);
  }

  lemma RockAndRollReplaced()
    ensures ReplaceChar("Rock & Roll", '&', 'n') == "Rock n Roll"
  {
    var item, replaced := "Rock & Roll", "Rock n Roll";
    var r := ReplaceChar(item, '&', 'n');
    forall k | 0 <= k < |item| ensures r[k] == replaced[k] {
      assert item[k] == '&' <==> k == 5;
    }
  }

  lemma RockNRollIsTag()
    ensures IsTag("Rock n Roll")
  {
  }

  /** A one-item list is cleaned to the one cleaned item. */
  lemma CleanTagsOne(item: string, r: string)
    requires CleanTag(item) == r
    ensures CleanTags([item]) == [r]
  {
    assert CleanTags([item])[0] == r;
  }

  /** `"Rock & Roll"` is cleaned to `"Rock n Roll"`: the ampersand is read as `n`. */
  lemma CleanTagsRockAndRoll()
    ensures CleanTags(["Rock & Roll"]) == ["Rock n Roll"]
  {
    RockAndRollReplaced();
    RockNRollIsTag();
    CleanTagReplacesAmpersand("Rock & Roll");
    CleanTagsOne("Rock & Roll", "Rock n Roll");
  }

  // ============================================================== titles

  /** The noise terms `clean_album_title` deletes, in the order it deletes them. */
  const NoiseTerms: seq<string> := [
    "original", "version", "remastered", "mixtape", "deluxe", "edition", "extended", "the remaster",
    "remaster", "expanded", "bonus track", "complete", "live", "single", "ep", "-", "&"
  ]

  /**
   * The term loop of `clean_album_title`: for each term in order, lower-case
   * the title and then delete the term's non-overlapping occurrences. The
   * loop over `terms` is the loop over all but the last term followed by
   * one more pass for the last.
   */
  function StripTerms(s: string, terms: seq<string>): (r: string)
    ensures terms == [] ==> r == s
    ensures terms != [] ==> IsLowerCase(r) && forall c :: c in r ==> c in Lower(s)
    ensures forall k :: 0 <= k < |terms| && |terms[k]| == 1 ==> terms[k][0] !in r
    decreases |terms|
  {
    if terms == [] then s
    else
      var n := |terms| - 1;
      var prev := StripTerms(s, terms[..n]);
      var r := RemoveAll(Lower(prev), terms[n]);
      StripTermsStep(s, terms[..n], prev, terms[n], r);
      assert terms[..n] + [terms[n]] == terms;
      r
  }

  /** What one more pass of the term loop keeps and deletes. */
  lemma StripTermsStep(s: string, terms: seq<string>, prev: string, t: string, r: string)
    requires terms == [] ==> prev == s
    requires terms != [] ==> IsLowerCase(prev) && forall c :: c in prev ==> c in Lower(s)
    requires forall k :: 0 <= k < |terms| && |terms[k]| == 1 ==> terms[k][0] !in prev
    requires r == RemoveAll(Lower(prev), t)
    ensures IsLowerCase(r) && forall c :: c in r ==> c in Lower(s)
    ensures forall k :: 0 <= k < |terms + [t]| && |(terms + [t])[k]| == 1 ==> (terms + [t])[k][0] !in r
  {
    if terms != [] {
      LowerOfLowerCase(prev);
      assert forall c :: c in Lower(prev) ==> c in Lower(s);
    }
    if |t| == 1 {
      assert t == [t[0]];
      RemoveAllChar(Lower(prev), t[0]);
    }
    forall k | 0 <= k < |terms| && |terms[k]| == 1 ensures terms[k][0] !in r {
      LowerOfLowerCase(prev);
    }
  }

  /** The term loop is a fold: running it over `a + b` runs it over `a`, then over `b`. */
  lemma {:induction false} StripTermsAppend(s: string, a: seq<string>, b: seq<string>)
    ensures StripTerms(s, a + b) == StripTerms(StripTerms(s, a), b)
    decreases |b|
  {
    if b == [] {
      assert a + b == a;
    } else {
      var n := |b| - 1;
      assert (a + b)[..|a + b| - 1] == a + b[..n];
      StripTermsAppend(s, a, b[..n]);
    }
  }

  /** The first pass of the term loop, then the loop over the remaining terms. */
  lemma StripTermsHead(s: string, terms: seq<string>)
    requires terms != []
    ensures StripTerms(s, terms) == StripTerms(RemoveAll(Lower(s), terms[0]), terms[1..])
  {
    StripTermsAppend(s, [terms[0]], terms[1..]);
    assert [terms[0]] + terms[1..] == terms;
    assert [terms[0]][..0] == [];
  }

  /** A first term with a character the lower-cased title lacks only lower-cases it. */
  lemma StripTermsSkip(s: string, terms: seq<string>, c: char)
    requires terms != [] && c in terms[0] && c !in Lower(s)
    ensures StripTerms(s, terms) == StripTerms(Lower(s), terms[1..])
  {
    StripTermsHead(s, terms);
    RemoveAllMissingChar(Lower(s), terms[0], c);
  }

  /**
   * Where the lower-cased title holds the first term once, after a part
   * without the term's first character and before a part lacking one of
   * its characters, exactly that occurrence is deleted.
   */
  lemma StripTermsRemoveOnce(s: string, terms: seq<string>, a: string, b: string, c: char)
    requires terms != [] && Lower(s) == a + terms[0] + b
    requires |terms[0]| > 0 && terms[0][0] !in a && c in terms[0] && c !in b
    ensures StripTerms(s, terms) == StripTerms(a + b, terms[1..])
  {
    StripTermsHead(s, terms);
    RemoveAllOnce(a, terms[0], b, c);
  }

  /**
   * A lower-case title lacking some character of every term comes out of
   * the term loop unchanged; `witnesses[k]` names the missing character of
   * `terms[k]`.
   */
  lemma {:induction false} StripTermsNoneApply(s: string, terms: seq<string>, witnesses: string)
    requires IsLowerCase(s) && |witnesses| == |terms|
    requires forall k :: 0 <= k < |terms| ==> witnesses[k] in terms[k] && witnesses[k] !in s
    ensures StripTerms(s, terms) == s
    decreases |terms|
  {
    if terms != [] {
      LowerOfLowerCase(s);
      StripTermsSkip(s, terms, witnesses[0]);
      StripTermsNoneApply(s, terms[1..], witnesses[1..]);
    }
  }

  /** An opening bracket of the title pattern `[(\[]`. */
  predicate IsOpener(c: char) { c == '(' || c == '[' }

  /** A closing bracket of the title pattern `[)\]]`. */
  predicate IsCloser(c: char) { c == ')' || c == ']' }

  /**
   * A match of `[(\[].*?[)\]]` from `i` to `j`: an opener, a closer, and no
   * newline between them (`.` does not match a newline).
   */
  predicate SpanAt(s: string, i: int, j: int) {
    0 <= i < j < |s| && IsOpener(s[i]) && IsCloser(s[j]) && forall k :: i < k < j ==> s[k] != '\n'
  }

  /** The title pattern matches nowhere in `s`. */
  ghost predicate NoSpan(s: string) {
    forall i, j :: !SpanAt(s, i, j)
  }

  /** No closing bracket occurs in `t` before its first newline. */
  predicate NoCloserOnLine(t: string) {
    t == [] || t[0] == '\n' || (!IsCloser(t[0]) && NoCloserOnLine(t[1..]))
  }

  /**
   * The non-greedy `.*?[)\]]` after an opener: the first closer at or after
   * `i`, provided no newline comes before it.
   */
  function CloserFrom(s: string, i: nat): (r: Option<nat>)
    requires i <= |s|
    ensures r.Some? ==> i <= r.value < |s| && IsCloser(s[r.value])
    ensures r.Some? ==> forall k :: i <= k < r.value ==> s[k] != '\n' && !IsCloser(s[k])
    ensures r.None? <==> NoCloserOnLine(s[i..])
    decreases |s| - i
  {
    if i == |s| || s[i] == '\n' then None
    else if IsCloser(s[i]) then Some(i)
    else
      assert s[i..][1..] == s[i + 1..];
      CloserFrom(s, i + 1)
  }

  /**
   * `re.sub(r"[(\[].*?[)\]]", "", s)` as a left-to-right scanner: at an
   * opener with a reachable closer the whole span is dropped and scanning
   * resumes after the closer; any other character, including an opener
   * with no reachable closer, is kept.
   */
  function RemoveBrackets(s: string): (r: string)
    ensures |r| <= |s|
    ensures forall c :: c in r ==> c in s
    decreases |s|
  {
    if s == [] then []
    else if IsOpener(s[0]) && CloserFrom(s, 1).Some? then
      var j := CloserFrom(s, 1).value;
      var r := RemoveBrackets(s[j + 1..]);
      assert forall c :: c in s[j + 1..] ==> c in s;
      r
    else [s[0]] + RemoveBrackets(s[1..])
  }

  /** The closer found is the first one after `i`, when no newline or closer comes before it. */
  lemma {:induction false} CloserFromFirst(s: string, i: nat, j: nat)
    requires i <= j < |s| && IsCloser(s[j])
    requires forall k :: i <= k < j ==> s[k] != '\n' && !IsCloser(s[k])
    ensures CloserFrom(s, i) == Some(j)
    decreases j - i
  {
    if i < j {
      CloserFromFirst(s, i + 1, j);
    }
  }

  /** Text with no opener passes through the scanner unchanged. */
  lemma {:induction false} RemoveBracketsSkip(a: string, rest: string)
    requires forall c :: c in a ==> !IsOpener(c)
    ensures RemoveBrackets(a + rest) == a + RemoveBrackets(rest)
    decreases |a|
  {
    if a != [] {
      assert (a + rest)[1..] == a[1..] + rest;
      assert (a + rest)[0] == a[0];
      RemoveBracketsSkip(a[1..], rest);
    } else {
      assert a + rest == rest;
    }
  }

  /**
   * An opener, a middle with no closer or newline, and a closer are
   * dropped together, and scanning resumes after the closer.
   */
  lemma RemoveBracketsDropSpan(open: char, middle: string, close: char, rest: string)
    requires IsOpener(open) && IsCloser(close)
    requires forall c :: c in middle ==> c != '\n' && !IsCloser(c)
    ensures RemoveBrackets([open] + middle + [close] + rest) == RemoveBrackets(rest)
  {
    var s := [open] + middle + [close] + rest;
    var j := |middle| + 1;
    forall k | 1 <= k < j ensures s[k] != '\n' && !IsCloser(s[k]) {
      assert s[k] == middle[k - 1] && middle[k - 1] in middle;
    }
    CloserFromFirst(s, 1, j);
    assert s[j + 1..] == rest;
  }

  /**
   * An opener with no closer before the next newline is no match: the
   * scanner keeps it and resumes at the next character.
   */
  lemma RemoveBracketsKeepOpener(s: string)
    requires s != [] && IsOpener(s[0]) && NoCloserOnLine(s[1..])
    ensures RemoveBrackets(s) == [s[0]] + RemoveBrackets(s[1..])
  {
    assert CloserFrom(s, 1).None?;
  }

  /** Scanning a line that has no closer keeps that line's closers absent. */
  lemma {:induction false} RemoveBracketsNoCloserOnLine(t: string)
    requires NoCloserOnLine(t)
    ensures NoCloserOnLine(RemoveBrackets(t))
    decreases |t|
  {
    if t != [] && t[0] != '\n' {
      assert t[1..] == t[1..][0..];
      if IsOpener(t[0]) {
        assert CloserFrom(t, 1).None?;
      }
      RemoveBracketsNoCloserOnLine(t[1..]);
    }
  }

  /** With no closer before the first newline, no closer is reachable without a newline. */
  lemma {:induction false} NoCloserOnLineNoReach(t: string, j: int)
    requires NoCloserOnLine(t) && 0 <= j < |t| && IsCloser(t[j])
    ensures exists k :: 0 <= k < j && t[k] == '\n'
    decreases |t|
  {
    if t[0] != '\n' {
      NoCloserOnLineNoReach(t[1..], j - 1);
      var k :| 0 <= k < j - 1 && t[1..][k] == '\n';
      assert t[k + 1] == '\n';
    }
  }

  /** The scanner leaves no match of the title pattern behind. */
  lemma {:induction false} RemoveBracketsNoSpan(s: string)
    ensures NoSpan(RemoveBrackets(s))
    decreases |s|
  {
    if s == [] {
    } else if IsOpener(s[0]) && CloserFrom(s, 1).Some? {
      RemoveBracketsNoSpan(s[CloserFrom(s, 1).value + 1..]);
    } else {
      var rest := RemoveBrackets(s[1..]);
      var r := [s[0]] + rest;
      RemoveBracketsNoSpan(s[1..]);
      forall i, j | 0 <= i < j < |r|
        ensures !SpanAt(r, i, j)
      {
        if i == 0 {
          if IsOpener(s[0]) && IsCloser(r[j]) {
            assert s[1..] == s[1..][0..];
            RemoveBracketsNoCloserOnLine(s[1..]);
            NoCloserOnLineNoReach(rest, j - 1);
            var k :| 0 <= k < j - 1 && rest[k] == '\n';
            assert r[k + 1] == '\n';
          }
        } else {
          assert !SpanAt(rest, i - 1, j - 1);
          if SpanAt(r, i, j) {
            forall k | i - 1 < k < j - 1 ensures rest[k] != '\n' {
              assert rest[k] == r[k + 1];
            }
            assert false;
          }
        }
      }
    }
  }

  /** A suffix of a string with no match has no match either. */
  lemma NoSpanSuffix(s: string, n: nat)
    requires NoSpan(s) && n <= |s|
    ensures NoSpan(s[n..])
  {
    var t := s[n..];
    forall i, j | SpanAt(t, i, j)
      ensures false
    {
      assert SpanAt(s, i + n, j + n);
    }
  }

  /** A prefix of a string with no match has no match either. */
  lemma NoSpanPrefix(s: string, n: nat)
    requires NoSpan(s) && n <= |s|
    ensures NoSpan(s[..n])
  {
    var t := s[..n];
    forall i, j | SpanAt(t, i, j)
      ensures false
    {
      assert SpanAt(s, i, j);
    }
  }

  /** Where the title pattern matches nowhere, the scanner changes nothing. */
  lemma {:induction false} RemoveBracketsUnchanged(s: string)
    requires NoSpan(s)
    ensures RemoveBrackets(s) == s
    decreases |s|
  {
    if s != [] {
      if IsOpener(s[0]) && CloserFrom(s, 1).Some? {
        var j := CloserFrom(s, 1).value;
        assert SpanAt(s, 0, j);
      } else {
        NoSpanSuffix(s, 1);
        RemoveBracketsUnchanged(s[1..]);
      }
    }
  }

  /** Removing bracketed text twice is removing it once. */
  lemma RemoveBracketsIdempotent(s: string)
    ensures RemoveBrackets(RemoveBrackets(s)) == RemoveBrackets(s)
  {
    RemoveBracketsNoSpan(s);
    RemoveBracketsUnchanged(RemoveBrackets(s));
  }

  /**
   * `clean_album_title`: delete the noise terms (lower-casing as it goes),
   * then bracketed text, then strip surrounding whitespace.
   */
  function CleanAlbumTitle(title: string): (r: string)
    ensures IsLowerCase(r)
    ensures IsTrimmed(r)
    ensures '-' !in r && '&' !in r
    ensures forall c :: c in r ==> c in Lower(title)
  {
    var stripped := StripTerms(title, NoiseTerms);
    var unbracketed := RemoveBrackets(stripped);
    CleanAlbumTitleStages(title, stripped, unbracketed, Strip(unbracketed));
    Strip(unbracketed)
  }

  /** The last two noise terms are the one-character terms `-` and `&`. */
  lemma NoiseTermsEnd()
    ensures |NoiseTerms| == 17 && NoiseTerms[15] == "-" && NoiseTerms[16] == "&"
  {
  }

  /** What each stage of `CleanAlbumTitle` guarantees of the next. */
  lemma CleanAlbumTitleStages(title: string, stripped: string, unbracketed: string, r: string)
    requires stripped == StripTerms(title, NoiseTerms)
    requires unbracketed == RemoveBrackets(stripped)
    requires r == Strip(unbracketed)
    ensures IsLowerCase(r) && IsTrimmed(r)
    ensures '-' !in r && '&' !in r
    ensures forall c :: c in r ==> c in Lower(title)
  {
    NoiseTermsEnd();
    assert '-' !in stripped && '&' !in stripped by {
      assert |NoiseTerms[15]| == 1 && NoiseTerms[15][0] == '-';
      assert |NoiseTerms[16]| == 1 && NoiseTerms[16][0] == '&';
    }
    assert forall c :: c in r ==> c in stripped;
  }

  /** A slice of a string with no match has no match either. */
  lemma NoSpanSlice(s: string, i: nat, j: nat)
    requires NoSpan(s) && i <= j <= |s|
    ensures NoSpan(s[i..j])
  {
    NoSpanSuffix(s, i);
    NoSpanPrefix(s[i..], j - i);
    assert s[i..][..j - i] == s[i..j];
  }

  /** Stripping only trims the ends, so it creates no match. */
  lemma StripNoSpan(s: string)
    requires NoSpan(s)
    ensures NoSpan(Strip(s))
  {
    var i, j := StripBounds(s);
    NoSpanSlice(s, i, j);
  }

  /** No bracketed span survives in a cleaned title. */
  lemma CleanAlbumTitleNoSpan(title: string)
    ensures NoSpan(CleanAlbumTitle(title))
  {
    var stripped := StripTerms(title, NoiseTerms);
    var unbracketed := RemoveBrackets(stripped);
    RemoveBracketsNoSpan(stripped);
    StripNoSpan(unbracketed);
    assert CleanAlbumTitle(title) == Strip(unbracketed);
  }
}
