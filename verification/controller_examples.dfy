/**
 * A worked input for the tag list of `get_tags`, derived from the general
 * lemmas about splitting and cleaning. The literal facts each step needs
 * are stated in small lemmas of their own.
 */
module ControllerExamples {
  import opened Wrappers
  import opened Text
  import opened Sanitizer
  import opened Controller

  /** One leading space is stripped from a trimmed string. */
  lemma StripLeadingSpace(w: string)
    requires IsTrimmed(w) && w != []
    ensures Strip([' '] + w) == w
  {
    var s := [' '] + w;
    assert s[1..] == w;
    assert TrimStart(w) == w;
  }

  /** A tag after a separator's trailing space is cleaned back to the tag. */
  lemma CleanTagLeadingSpace(w: string)
    requires IsTag(w) && w != []
    ensures CleanTag([' '] + w) == w
  {
    var s := [' '] + w;
    assert forall k :: 0 <= k < |s| ==> IsTagChar(s[k]) by {
      forall k | 0 <= k < |s| ensures IsTagChar(s[k]) {
        if k > 0 { assert s[k] == w[k - 1]; }
      }
    }
    CleanTagOfTagChars(s);
    StripLeadingSpace(w);
  }

  /** `"a, b"` splits into `a` and `" b"` when neither holds a separator. */
  lemma SplitCommaSpace(a: string, b: string)
    requires forall c :: c in a ==> !IsFieldSep(c)
    requires forall c :: c in b ==> !IsFieldSep(c)
    ensures SplitFields(a + ", " + b) == [a, " " + b]
  {
    assert a + ", " + b == a + [','] + (" " + b);
    SplitFieldsCons(a, ',', " " + b);
    SplitFieldsNone(" " + b);
  }

  /** A two-element sequence given element by element. */
  lemma PairOf<T>(r: seq<T>, a: T, b: T)
    requires |r| == 2 && r[0] == a && r[1] == b
    ensures r == [a, b]
  {
  }

  lemma CleanTagsTwo(items: seq<string>, a: string, b: string)
    requires |items| == 2 && CleanTag(items[0]) == a && CleanTag(items[1]) == b
    ensures |CleanTags(items)| == 2 && CleanTags(items)[0] == a && CleanTags(items)[1] == b
  {
  }

  /** Two tags, the second after a space, are cleaned to the two tags. */
  lemma CleanTagsPair(a: string, b: string)
    requires IsTag(a) && IsTag(b) && b != []
    ensures CleanTags([a, [' '] + b]) == [a, b]
  {
    var items := [a, [' '] + b];
    CleanTagOfTag(a);
    CleanTagLeadingSpace(b);
    CleanTagsTwo(items, a, b);
    PairOf(CleanTags(items), a, b);
  }

  /** A field of two tags separated by a comma and a space is cleaned to the two tags. */
  lemma CleanTagsCommaSpace(a: string, b: string)
    requires IsTag(a) && IsTag(b) && b != []
    requires forall c :: c in a ==> !IsFieldSep(c)
    requires forall c :: c in b ==> !IsFieldSep(c)
    ensures CleanTags(SplitFields(a + ", " + b)) == [a, b]
  {
    SplitCommaSpace(a, b);
    CleanTagsPair(a, b);
  }

  /** A word that is a tag and holds no separator. */
  predicate PlainTag(w: string) {
    IsTag(w) && w != [] && forall c :: c in w ==> !IsFieldSep(c)
  }

  /**
   * Genres `"g0, g1"` and descriptors `"d0, d1"` give the tags
   * `[g0, g1, d0, d1]`, genres first; without descriptors, `[g0, g1]`.
   */
  lemma ComputeTagsTwoFields(g0: string, g1: string, d0: string, d1: string)
    requires PlainTag(g0) && PlainTag(g1) && PlainTag(d0) && PlainTag(d1)
    ensures ComputeTags(true, Some(RymAlbum(Some(g0 + ", " + g1), Some(d0 + ", " + d1)))) == Some([g0, g1, d0, d1])
    ensures ComputeTags(false, Some(RymAlbum(Some(g0 + ", " + g1), None))) == Some([g0, g1])
  {
    var g, d := SplitFields(g0 + ", " + g1), SplitFields(d0 + ", " + d1);
    CleanTagsCommaSpace(g0, g1);
    CleanTagsCommaSpace(d0, d1);
    CleanTagsAppend(g, d);
    assert [g0, g1] + [d0, d1] == [g0, g1, d0, d1];
    assert g + [] == g;
  }

  lemma WordsArePlainTags()
    ensures PlainTag("Rock") && PlainTag("Pop") && PlainTag("Melodic") && PlainTag("Energetic")
  {
  }

  /**
   * Genres `"Rock, Pop"` and descriptors `"Melodic, Energetic"` give the
   * tags `["Rock", "Pop", "Melodic", "Energetic"]`; without descriptors
   * only `["Rock", "Pop"]`.
   */
  lemma ComputeTagsRockPop()
    ensures ComputeTags(true, Some(RymAlbum(Some("Rock, Pop"), Some("Melodic, Energetic"))))
      == Some(["Rock", "Pop", "Melodic", "Energetic"])
    ensures ComputeTags(false, Some(RymAlbum(Some("Rock, Pop"), None))) == Some(["Rock", "Pop"])
  {
    WordsArePlainTags();
    assert "Rock, Pop" == "Rock" + ", " + "Pop" && "Melodic, Energetic" == "Melodic" + ", " + "Energetic";
    ComputeTagsTwoFields("Rock", "Pop", "Melodic", "Energetic");
  }
}
