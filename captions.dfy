/**
 * Caption parsing and image metadata in `src/lib/models.ts`: the `#tag` and
 * `@user` extraction (`findRes`, `findHashtags`, `findMentions`) and the width
 * and height reported for an image with an EXIF orientation.
 */
module Captions {
  import opened Wrappers

  // ---- words ----

  /** A character of the regular-expression class `\w` (no `u` flag): `[A-Za-z0-9_]`. */
  predicate IsWordChar(c: char) {
    ('A' <= c <= 'Z') || ('a' <= c <= 'z') || ('0' <= c <= '9') || c == '_'
  }

  /** The characters `String.prototype.trim` removes: white space and line terminators. */
  predicate IsJsWhitespace(c: char) {
    var n := c as int;
    (0x09 <= n <= 0x0D) || n == 0x20 || n == 0xA0 || n == 0x1680 || (0x2000 <= n <= 0x200A)
    || n == 0x2028 || n == 0x2029 || n == 0x202F || n == 0x205F || n == 0x3000 || n == 0xFEFF
  }

  /** `str.trim() === ""`. */
  predicate IsBlank(s: string) {
    forall i | 0 <= i < |s| :: IsJsWhitespace(s[i])
  }

  /** The longest prefix of word characters (what the greedy `\w+` takes). */
  function WordRun(t: string): (w: string)
    ensures |w| <= |t| && w == t[..|w|]
    ensures forall i | 0 <= i < |w| :: IsWordChar(w[i])
    ensures |w| < |t| ==> !IsWordChar(t[|w|])
  {
    if |t| == 0 || !IsWordChar(t[0]) then "" else [t[0]] + WordRun(t[1..])
  }

  /** A match of `marker\w+` starts at `p`. */
  predicate MatchAt(s: string, marker: char, p: int) {
    0 <= p && p + 1 < |s| && s[p] == marker && IsWordChar(s[p + 1])
  }

  // ---- the scan ----

  /**
   * `str.matchAll(/marker(\w+)/g)` mapped to the capture group, from position
   * `p`: each search resumes where the previous match ended, and every
   * captured word is non-empty.
   */
  function Scan(s: string, marker: char, p: nat): (r: seq<string>)
    ensures forall k | 0 <= k < |r| :: r[k] != []
    decreases |s| - p
  {
    if p >= |s| then []
    else if MatchAt(s, marker, p) then
      var w := WordRun(s[p + 1..]);
      assert |w| > 0 by { assert s[p + 1..][0] == s[p + 1]; }
      [w] + Scan(s, marker, p + 1 + |w|)
    else Scan(s, marker, p + 1)
  }

  /** `findRes`: nothing for a blank caption, otherwise the scan's non-empty words. */
  function FindRes(s: string, marker: char): (r: seq<string>)
    ensures IsBlank(s) ==> r == []
    ensures forall k | 0 <= k < |r| :: r[k] != []
  {
    if IsBlank(s) then [] else Scan(s, marker, 0)
  }

  /** `findHashtags` (`/#(?<hashtag>\w+)/g`): the word after every `#` followed by one. */
  function FindHashtags(s: string): (r: seq<string>)
    ensures r == MarkedWords(s, '#')
  {
    FindResIsMarkedWords(s, '#');
    FindRes(s, '#')
  }

  /** `findMentions` (`/@(?<user>\w+)/g`): the word after every `@` followed by one. */
  function FindMentions(s: string): (r: seq<string>)
    ensures r == MarkedWords(s, '@')
  {
    FindResIsMarkedWords(s, '@');
    FindRes(s, '@')
  }

  // ---- a reference definition ----

  /** The word after every marker that is followed by a word character, in order. */
  function MarkedWords(s: string, marker: char): seq<string> {
    if |s| == 0 then []
    else (if MatchAt(s, marker, 0) then [WordRun(s[1..])] else []) + MarkedWords(s[1..], marker)
  }

  /** Word characters hold no match of a marker that is not itself a word character. */
  lemma {:induction false} SkipWordChars(t: string, marker: char, k: nat)
    requires !IsWordChar(marker) && k <= |t|
    requires forall i | 0 <= i < k :: IsWordChar(t[i])
    ensures MarkedWords(t, marker) == MarkedWords(t[k..], marker)
    decreases k
  {
    if k > 0 {
      assert !MatchAt(t, marker, 0);
      assert MarkedWords(t, marker) == MarkedWords(t[1..], marker);
      assert t[1..][k - 1..] == t[k..];
      SkipWordChars(t[1..], marker, k - 1);
    }
  }

  /** At a match, the reference definition takes the word and then has nothing until the word ends. */
  lemma MarkedWordsAtMatch(t: string, marker: char)
    requires !IsWordChar(marker) && MatchAt(t, marker, 0)
    ensures var w := WordRun(t[1..]);
      1 + |w| <= |t| && MarkedWords(t, marker) == [w] + MarkedWords(t[1 + |w|..], marker)
  {
    var u := t[1..];
    var w := WordRun(u);
    forall i | 0 <= i < |w| ensures IsWordChar(u[i]) {
      assert u[i] == w[i];
    }
    SkipWordChars(u, marker, |w|);
    assert u[|w|..] == t[1 + |w|..];
  }

  /**
   * The scan finds a match at every marker followed by a word character: the
   * jump past a match skips only word characters, which no match starts on.
   */
  lemma {:induction false} ScanFindsEveryMarker(s: string, marker: char, p: nat)
    requires !IsWordChar(marker) && p <= |s|
    ensures Scan(s, marker, p) == MarkedWords(s[p..], marker)
    decreases |s| - p
  {
    if p == |s| {
    } else if MatchAt(s, marker, p) {
      var w := WordRun(s[p + 1..]);
      ScanStepAtMatch(s, marker, p);
      ScanFindsEveryMarker(s, marker, p + 1 + |w|);
    } else {
      var t := s[p..];
      assert !MatchAt(t, marker, 0) && t[1..] == s[p + 1..];
      assert MarkedWords(t, marker) == MarkedWords(t[1..], marker);
      ScanFindsEveryMarker(s, marker, p + 1);
    }
  }

  /** At a match both the scan and the reference definition take the word and resume after it. */
  lemma ScanStepAtMatch(s: string, marker: char, p: nat)
    requires !IsWordChar(marker) && MatchAt(s, marker, p)
    ensures var w := WordRun(s[p + 1..]);
      && p + 1 + |w| <= |s|
      && Scan(s, marker, p) == [w] + Scan(s, marker, p + 1 + |w|)
      && MarkedWords(s[p..], marker) == [w] + MarkedWords(s[p + 1 + |w|..], marker)
  {
    var t := s[p..];
    var w := WordRun(s[p + 1..]);
    assert MatchAt(t, marker, 0) && t[1..] == s[p + 1..];
    MarkedWordsAtMatch(t, marker);
    assert t[1 + |w|..] == s[p + 1 + |w|..];
  }

  /** Each marked word is a non-empty, maximal run of word characters right after the marker. */
  lemma {:induction false} MarkedWordsAreWords(s: string, marker: char)
    ensures forall w | w in MarkedWords(s, marker) ::
      |w| > 0 && forall i | 0 <= i < |w| :: IsWordChar(w[i])
  {
    if |s| > 0 {
      MarkedWordsAreWords(s[1..], marker);
      if MatchAt(s, marker, 0) {
        assert s[1..][0] == s[1];
        assert |WordRun(s[1..])| > 0;
      }
    }
  }

  /** A word is found exactly when some marker in the caption is followed by it. */
  lemma {:induction false} MarkedWordsMembership(s: string, marker: char, w: string)
    ensures w in MarkedWords(s, marker) <==> exists p | MatchAt(s, marker, p) :: w == WordRun(s[p + 1..])
  {
    if |s| > 0 {
      MarkedWordsMembership(s[1..], marker, w);
      var head := if MatchAt(s, marker, 0) then [WordRun(s[1..])] else [];
      assert MarkedWords(s, marker) == head + MarkedWords(s[1..], marker);
      if w in MarkedWords(s[1..], marker) {
        var p :| MatchAt(s[1..], marker, p) && w == WordRun(s[1..][p + 1..]);
        assert MatchAt(s, marker, p + 1) && s[1..][p + 1..] == s[p + 2..];
      }
      if exists p | MatchAt(s, marker, p) :: w == WordRun(s[p + 1..]) {
        var p :| MatchAt(s, marker, p) && w == WordRun(s[p + 1..]);
        if p > 0 {
          assert MatchAt(s[1..], marker, p - 1) && s[1..][p..] == s[p + 1..];
        }
      }
    }
  }

  // ---- what findRes promises ----

  /**
   * The words `findRes` returns are, in order, the maximal `\w` run after each
   * marker followed by a word character; the blank test changes nothing.
   */
  lemma FindResIsMarkedWords(s: string, marker: char)
    requires !IsWordChar(marker) && !IsJsWhitespace(marker)
    ensures FindRes(s, marker) == MarkedWords(s, marker)
    ensures forall w | w in FindRes(s, marker) :: |w| > 0 && forall i | 0 <= i < |w| :: IsWordChar(w[i])
  {
    ScanFindsEveryMarker(s, marker, 0);
    assert s[0..] == s;
    if IsBlank(s) {
      BlankHasNoMarks(s, marker);
    }
    MarkedWordsAreWords(s, marker);
  }

  lemma {:induction false} BlankHasNoMarks(s: string, marker: char)
    requires IsBlank(s) && !IsJsWhitespace(marker)
    ensures MarkedWords(s, marker) == []
  {
    if |s| > 0 {
      assert IsBlank(s[1..]) by {
        forall i | 0 <= i < |s| - 1 ensures IsJsWhitespace(s[1..][i]) {
          assert s[1..][i] == s[i + 1];
        }
      }
      BlankHasNoMarks(s[1..], marker);
    }
  }

  /** `findHashtags` and `findMentions` are the same scan over their markers. */
  lemma HashtagsAndMentions(s: string, w: string)
    ensures w in FindHashtags(s) <==> exists p | MatchAt(s, '#', p) :: w == WordRun(s[p + 1..])
    ensures w in FindMentions(s) <==> exists p | MatchAt(s, '@', p) :: w == WordRun(s[p + 1..])
  {
    MarkedWordsMembership(s, '#', w);
    MarkedWordsMembership(s, '@', w);
  }

  /**
   * Matches do not overlap and repeats are kept: in `#a#b #a` the second `#`
   * ends the first word, and `a` is reported twice by `findHashtags`.
   */
  lemma RepeatsKept()
    ensures FindRes("#a#b #a", '#') == ["a", "b", "a"]
  {
    var s := "#a#b #a";
    assert !IsBlank(s) by { assert !IsJsWhitespace(s[0]); }
    assert WordRun(s[1..]) == "a" by { assert s[1..][1..] == s[2..]; assert WordRun(s[2..]) == ""; }
    HashtagsAfterFirst();
    assert Scan(s, '#', 0) == ["a"] + Scan(s, '#', 2);
  }

  /** The rest of that caption after the first hashtag. */
  lemma HashtagsAfterFirst()
    ensures Scan("#a#b #a", '#', 2) == ["b", "a"]
  {
    var s := "#a#b #a";
    assert WordRun(s[3..]) == "b" by { assert s[3..][1..] == s[4..]; assert WordRun(s[4..]) == ""; }
    assert WordRun(s[6..]) == "a" by { assert s[6..][1..] == []; }
    assert Scan(s, '#', 7) == [];
    assert Scan(s, '#', 5) == ["a"];
    assert Scan(s, '#', 4) == ["a"];
  }

  /**
   * `findMentions`: a mention stops at the first character outside `\w`, and
   * an `@` with no word after it is skipped.
   */
  lemma MentionsStopAtPunctuation()
    ensures FindRes("@x_1,@ @y", '@') == ["x_1", "y"]
  {
    var s := "@x_1,@ @y";
    assert !IsBlank(s) by { assert !IsJsWhitespace(s[0]); }
    assert s[1..] == "x_1,@ @y";
    FirstMention();
    MentionsAfterComma();
    assert Scan(s, '@', 0) == ["x_1"] + Scan(s, '@', 4);
  }

  /** The first mention of that caption runs up to the comma. */
  lemma FirstMention()
    ensures WordRun("x_1,@ @y") == "x_1"
  {
    var t := "x_1,@ @y";
    assert t[1..][1..] == t[2..] && t[2..][1..] == t[3..];
    assert WordRun(t[3..]) == "";
    assert WordRun(t[2..]) == "1";
    assert WordRun(t[1..]) == "_1";
  }

  /** The rest of that caption after the first mention: the lone `@` yields nothing. */
  lemma MentionsAfterComma()
    ensures Scan("@x_1,@ @y", '@', 4) == ["y"]
  {
    var s := "@x_1,@ @y";
    assert WordRun(s[8..]) == "y" by { assert s[8..][1..] == []; }
    assert Scan(s, '@', 9) == [];
    assert Scan(s, '@', 7) == ["y"];
    assert Scan(s, '@', 6) == ["y"];
    assert Scan(s, '@', 5) == ["y"];
  }

  // ---- EXIF orientation ----

  /**
   * The width and height `fileMetaFromPath` reports: swapped when the
   * orientation (missing counts as 0) is above 5.
   */
  function ReportedSize<T>(width: T, height: T, orientation: Option<int>): (r: (T, T))
    ensures r == (width, height) || r == (height, width)
    ensures orientation.None? || orientation.value <= 5 ==> r == (width, height)
    ensures orientation.Some? && orientation.value > 5 ==> r == (height, width)
  {
    var o := if orientation.Some? then orientation.value else 0;
    if o > 5 then (height, width) else (width, height)
  }

  /**
   * The EXIF orientation tag (values 1 to 8): the quarter turns clockwise that
   * bring the stored pixels upright, mirroring aside. 2, 4, 5 and 7 also mirror.
   */
  function QuarterTurns(o: int): (t: int)
    requires 1 <= o <= 8
    ensures 0 <= t < 4
  {
    if o <= 2 then 0 else if o <= 4 then 2 else if o == 5 || o == 8 then 3 else 1
  }

  /**
   * The upright width and height of an image whose stored pixels are `width`
   * by `height`: swapped when the orientation turns the image by an odd number
   * of quarter turns. A missing or out-of-range orientation leaves them alone.
   */
  function DisplayedSize<T>(width: T, height: T, orientation: Option<int>): (T, T) {
    if orientation.Some? && 1 <= orientation.value <= 8 && QuarterTurns(orientation.value) % 2 == 1
    then (height, width)
    else (width, height)
  }

  /** The upright size swaps exactly for orientations 5 to 8. */
  lemma DisplayedSwapsFromFive<T>(width: T, height: T, o: int)
    requires 1 <= o <= 8
    ensures DisplayedSize(width, height, Some(o)) == if 5 <= o then (height, width) else (width, height)
  {
  }

  /**
   * The reported size is the upright one for every valid orientation but 5,
   * the transposed image, which is taller than wide once upright yet is
   * reported as stored.
   */
  lemma ReportedSizeMissesTranspose<T>(width: T, height: T, o: int)
    requires 1 <= o <= 8
    ensures o != 5 ==> ReportedSize(width, height, Some(o)) == DisplayedSize(width, height, Some(o))
    ensures ReportedSize(640, 480, Some(5)) == (640, 480) && DisplayedSize(640, 480, Some(5)) == (480, 640)
  {
  }

  /** Reporting is an involution: applying the same swap twice restores the stored size. */
  lemma ReportedSizeInvolutive<T>(width: T, height: T, orientation: Option<int>)
    ensures var (w, h) := ReportedSize(width, height, orientation);
      ReportedSize(w, h, orientation) == (width, height)
    ensures ReportedSize(width, height, None) == (width, height)
  {
  }
}
