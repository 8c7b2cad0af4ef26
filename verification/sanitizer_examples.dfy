/**
 * A worked input for `clean_album_title`, derived from the general lemmas
 * about the term loop and the bracket scanner. The literal facts each step
 * needs are stated in small lemmas of their own.
 */
module SanitizerExamples {
  import opened Text
  import opened Sanitizer

  // The title is reduced in these stages:
  //   Title  the title
  //   L0     lower-cased; "original", "version" absent
  //   L1     "remastered" deleted; "mixtape" absent
  //   L2     "deluxe" deleted
  //   L3     "edition" deleted; no later term occurs
  //   Left   both bracketed groups deleted
  //   "album" stripped
  const Title: string := "Album (Deluxe Edition) [Remastered]"
  const L0: string := "album (deluxe edition) [remastered]"
  const L1: string := "album (deluxe edition) []"
  const L2: string := "album ( edition) []"
  const L3: string := "album ( ) []"
  const Left: string := "album  "

  /** A string none of whose positions holds a capital letter is lower-case. */
  lemma LowerCaseAt(s: string)
    requires forall k :: 0 <= k < |s| ==> !IsUpper(s[k])
    ensures IsLowerCase(s) && Lower(s) == s
  {
    LowerOfLowerCase(s);
  }

  /** A character found at no position of `s` does not occur in it. */
  lemma NotAt(s: string, c: char)
    requires forall k :: 0 <= k < |s| ==> s[k] != c
    ensures c !in s
  {
  }

  lemma DeluxeLower()
    ensures Lower(Title) == L0
  {
    DeluxeCutTitle();
    DeluxeLowerHead();
    DeluxeLowerTail();
    LowerAppend("Album (Deluxe Edition) ", "[Remastered]");
  }

  /** The title and its lower-cased form, cut before the second bracketed group. */
  lemma DeluxeCutTitle()
    ensures Title == "Album (Deluxe Edition) " + "[Remastered]"
    ensures L0 == "album (deluxe edition) " + "[remastered]"
  {
  }

  lemma DeluxeLowerHead()
    ensures Lower("Album (Deluxe Edition) ") == "album (deluxe edition) "
  {
    var a, b := "Album (Deluxe Edition) ", "album (deluxe edition) ";
    forall k | 0 <= k < |a| ensures Lower(a)[k] == b[k] {
    }
  }

  lemma DeluxeLowerTail()
    ensures Lower("[Remastered]") == "[remastered]"
  {
    var a, b := "[Remastered]", "[remastered]";
    forall k | 0 <= k < |a| ensures Lower(a)[k] == b[k] {
    }
  }

  lemma DeluxeL0()
    ensures Lower(L0) == L0 && 'g' !in L0 && 'v' !in L0
  {
    LowerCaseAt(L0);
    NotAt(L0, 'g');
    NotAt(L0, 'v');
  }

  lemma DeluxeL1()
    ensures Lower(L1) == L1
  {
    LowerCaseAt(L1);
  }

  lemma DeluxeL1Missing()
    ensures 'p' !in L1
  {
    NotAt(L1, 'p');
  }

  lemma DeluxeL2()
    ensures Lower(L2) == L2
  {
    LowerCaseAt(L2);
  }

  /** Where "remastered" sits in the lower-cased title. */
  lemma DeluxeCutRemastered()
    ensures L0 == "album (deluxe edition) [" + "remastered" + "]"
    ensures L1 == "album (deluxe edition) [" + "]"
  {
  }

  /** Where "deluxe" sits once "remastered" is gone. */
  lemma DeluxeCutDeluxe()
    ensures L1 == "album (" + "deluxe" + " edition) []"
    ensures L2 == "album (" + " edition) []"
  {
  }

  /** Where "edition" sits once "deluxe" is gone. */
  lemma DeluxeCutEdition()
    ensures L2 == "album ( " + "edition" + ") []"
    ensures L3 == "album ( " + ") []"
  {
  }

  lemma DeluxeTerms()
    ensures |NoiseTerms| == 17 && 'g' in NoiseTerms[0] && 'v' in NoiseTerms[1]
    ensures NoiseTerms[2] == "remastered" && 'p' in NoiseTerms[3]
    ensures NoiseTerms[4] == "deluxe" && NoiseTerms[5] == "edition"
  {
  }

  /** "original" and "version" are absent; the title is only lower-cased. */
  lemma DeluxeStep1()
    ensures StripTerms(Title, NoiseTerms) == StripTerms(L0, NoiseTerms[2..])
  {
    var T := NoiseTerms;
    DeluxeLower();
    DeluxeL0();
    DeluxeTerms();
    StripTermsSkip(Title, T, 'g');
    StripTermsSkip(L0, T[1..], 'v');
    assert T[1..][1..] == T[2..];
  }

  /** "remastered" is deleted; "mixtape" is absent. */
  lemma DeluxeStep2()
    ensures StripTerms(L0, NoiseTerms[2..]) == StripTerms(L1, NoiseTerms[4..])
  {
    var T := NoiseTerms;
    DeluxeL0();
    DeluxeL1();
    DeluxeTerms();
    DeluxeL1Missing();
    DeluxeCutRemastered();
    StripTermsRemoveOnce(L0, T[2..], "album (deluxe edition) [", "]", 'r');
    assert T[2..][1..] == T[3..];
    StripTermsSkip(L1, T[3..], 'p');
    assert T[3..][1..] == T[4..];
  }

  /** "deluxe" is deleted. */
  lemma DeluxeStep3()
    ensures StripTerms(L1, NoiseTerms[4..]) == StripTerms(L2, NoiseTerms[5..])
  {
    var T := NoiseTerms;
    DeluxeL1();
    DeluxeL2();
    DeluxeTerms();
    DeluxeCutDeluxe();
    StripTermsRemoveOnce(L1, T[4..], "album (", " edition) []", 'x');
    assert T[4..][1..] == T[5..];
  }

  /** "edition" is deleted. */
  lemma DeluxeStep4()
    ensures StripTerms(L2, NoiseTerms[5..]) == StripTerms(L3, NoiseTerms[6..])
  {
    var T := NoiseTerms;
    DeluxeL2();
    DeluxeTerms();
    DeluxeCutEdition();
    StripTermsRemoveOnce(L2, T[5..], "album ( ", ") []", 'e');
    assert T[5..][1..] == T[6..];
  }

  /** None of "extended" through "&" occurs in what is left. */
  lemma DeluxeStep5()
    ensures StripTerms(L3, NoiseTerms[6..]) == L3
  {
    StripTermsNoneApply(L3, NoiseTerms[6..], "xhrxkcvge-&");
  }

  /** The first bracketed group is removed; the text before it is kept. */
  lemma DeluxeBracketsHead()
    ensures RemoveBrackets(L3) == "album " + RemoveBrackets(" []")
  {
    var tail := " []";
    assert L3 == "album " + (['('] + " " + [')'] + tail);
    RemoveBracketsSkip("album ", ['('] + " " + [')'] + tail);
    RemoveBracketsDropSpan('(', " ", ')', tail);
  }

  /** The second, empty, bracketed group is removed; the space before it is kept. */
  lemma DeluxeBracketsTail()
    ensures RemoveBrackets(" []") == " "
  {
    var tail, e: string := " []", [];
    assert tail == " " + (['['] + e + [']'] + e);
    RemoveBracketsSkip(" ", ['['] + e + [']'] + e);
    RemoveBracketsDropSpan('[', e, ']', e);
  }

  /** Both bracketed groups are removed, leaving the spaces around them. */
  lemma DeluxeBrackets()
    ensures RemoveBrackets(L3) == Left
  {
    DeluxeBracketsHead();
    DeluxeBracketsTail();
    assert "album " + " " == Left;
  }

  /** The spaces the brackets left behind are stripped. */
  lemma DeluxeStrip()
    ensures Strip(Left) == "album"
  {
    var s := Left;
    assert TrimStart(s) == s;
    var t := s[..|s| - 1];
    assert TrimEnd(s) == TrimEnd(t);
    var u := t[..|t| - 1];
    assert TrimEnd(t) == TrimEnd(u);
    assert u == "album";
  }

  /** The whole term loop on the title. */
  lemma DeluxeTermLoop()
    ensures StripTerms(Title, NoiseTerms) == L3
  {
    DeluxeStep1();
    DeluxeStep2();
    DeluxeStep3();
    DeluxeStep4();
    DeluxeStep5();
  }

  /** `clean_album_title("Album (Deluxe Edition) [Remastered]")` is `"album"`. */
  lemma CleanAlbumTitleDeluxe()
    ensures CleanAlbumTitle("Album (Deluxe Edition) [Remastered]") == "album"
  {
    DeluxeTermLoop();
    DeluxeBrackets();
    DeluxeStrip();
    CleanAlbumTitleComposes(Title, L3, Left, "album");
  }

  /** `clean_album_title` is the term loop, then the bracket scanner, then strip. */
  lemma CleanAlbumTitleComposes(title: string, t: string, b: string, r: string)
    requires StripTerms(title, NoiseTerms) == t && RemoveBrackets(t) == b && Strip(b) == r
    ensures CleanAlbumTitle(title) == r
  {
  }

  // ------------------------------------------------ replace and the scanner

  /** `"eep".replace("ep", "")` is `"e"`: the occurrence at 1 is deleted, though "e" begins at 0. */
  lemma RemoveAllLeftmost()
    ensures RemoveAll("eep", "ep") == "e"
  {
    var a, t: string := "e", "ep";
    assert "eep" == a + t;
    assert !OccursAt(t, a + t, 0) by {
      assert (a + t)[0..2][1] == 'e' != t[1];
    }
    RemoveAllSkipPrefix(a, t, t);
    RemoveAllAtHead(t, []);
    assert t + [] == t;
  }

  /** `"aaa".replace("aa", "")` is `"a"`: occurrences do not overlap and the rest is not rescanned. */
  lemma RemoveAllNoOverlap()
    ensures RemoveAll("aaa", "aa") == "a"
  {
    var t: string := "aa";
    assert "aaa" == t + "a";
    RemoveAllAtHead(t, "a");
  }

  /**
   * In `"(a\n(b)"` the first opener has no closer on its line and is kept;
   * the second group is deleted.
   */
  lemma RemoveBracketsUnclosedOpener()
    ensures RemoveBrackets("(a\n(b)") == "(a\n"
  {
    var s := ['('] + ("a\n" + "(b)");
    UnclosedLine("(b)");
    assert "(a\n(b)" == s;
    RemoveBracketsKeepOpener(s);
    assert s[1..] == "a\n" + "(b)";
    RemoveBracketsSkip("a\n", "(b)");
    ClosedGroup();
    assert ['('] + "a\n" + [] == "(a\n";
  }

  /** A line with no closer before its newline, whatever follows it. */
  lemma UnclosedLine(rest: string)
    ensures NoCloserOnLine("a\n" + rest)
    ensures forall c :: c in "a\n" ==> !IsOpener(c)
  {
    var t := "a\n" + rest;
    assert t[1..][0] == '\n';
  }

  /** A bracketed group on its own is deleted. */
  lemma ClosedGroup()
    ensures RemoveBrackets("(b)") == []
  {
    var e: string := [];
    assert "(b)" == ['('] + "b" + [')'] + e;
    RemoveBracketsDropSpan('(', "b", ')', e);
  }
}
