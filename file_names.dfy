/**
 * Which directory entries count as image files, and the numeric key a file
 * name is sorted by (src/mosaic_creator.py, lines 21-29).
 */
module FileNames {
  import opened Options

  // ---------------------------------------------------------------------------
  // The extension filter: re.match(r".*\.(jpg|jpeg|png)$", name, re.IGNORECASE)
  // ---------------------------------------------------------------------------

  /** Lower-cases ASCII letters and leaves every other character alone. */
  function ToLower(c: char): char {
    if 'A' <= c <= 'Z' then (c as int + 32) as char else c
  }

  /** `s` ends with `suffix`, a lower-case literal, ignoring the case of `s`. */
  predicate EndsWithIgnoringCase(s: string, suffix: string) {
    |suffix| <= |s| &&
    forall i :: 0 <= i < |suffix| ==> ToLower(s[|s| - |suffix| + i]) == suffix[i]
  }

  /** `$` matches at the very end or just before one final line feed. */
  function BeforeFinalNewline(s: string): (t: string)
    ensures t == s || (s == t + ['\n'])
  {
    if |s| > 0 && s[|s| - 1] == '\n' then s[..|s| - 1] else s
  }

  predicate HasImageExtension(s: string) {
    EndsWithIgnoringCase(s, ".jpg") || EndsWithIgnoringCase(s, ".jpeg") || EndsWithIgnoringCase(s, ".png")
  }

  /**
   * The name matches the extension pattern: `.*` cannot cross a line feed, so
   * everything up to the end anchor is free of line feeds and ends in one of
   * the three extensions, in any case.
   */
  predicate IsImageFileName(name: string) {
    var body := BeforeFinalNewline(name);
    '\n' !in body && HasImageExtension(body)
  }

  function LowerAll(s: string): (t: string)
    ensures |t| == |s| && forall i :: 0 <= i < |s| ==> t[i] == ToLower(s[i])
  {
    seq(|s|, i requires 0 <= i < |s| => ToLower(s[i]))
  }

  lemma LoweringKeepsSuffixMatch(s: string, suffix: string)
    ensures EndsWithIgnoringCase(LowerAll(s), suffix) == EndsWithIgnoringCase(s, suffix)
  {
    var lower := LowerAll(s);
    forall i | 0 <= i < |s| ensures ToLower(lower[i]) == ToLower(s[i]) {
    }
  }

  lemma LoweringKeepsLineFeeds(s: string)
    ensures ('\n' in LowerAll(s)) == ('\n' in s)
    ensures BeforeFinalNewline(LowerAll(s)) == LowerAll(BeforeFinalNewline(s))
  {
    var lower := LowerAll(s);
    forall i | 0 <= i < |s| ensures (lower[i] == '\n') == (s[i] == '\n') {
    }
    if |s| > 0 && s[|s| - 1] == '\n' {
      assert LowerAll(s[..|s| - 1]) == lower[..|s| - 1];
    }
  }

  /** The pattern is matched case-insensitively: lower-casing a name never changes the verdict. */
  lemma ImageFileNameIgnoresCase(name: string)
    ensures IsImageFileName(LowerAll(name)) == IsImageFileName(name)
  {
    var body := BeforeFinalNewline(name);
    LoweringKeepsLineFeeds(name);
    LoweringKeepsLineFeeds(body);
    LoweringKeepsSuffixMatch(body, ".jpg");
    LoweringKeepsSuffixMatch(body, ".jpeg");
    LoweringKeepsSuffixMatch(body, ".png");
  }

  /**
   * The end anchor `$` accepts one final line feed and no more: a line feed
   * added to a name without one leaves the verdict alone, and two line feeds
   * at the end always reject the name.
   */
  lemma EndAnchorAllowsOneLineFeed(name: string)
    ensures '\n' !in name ==> IsImageFileName(name + "\n") == IsImageFileName(name)
    ensures !IsImageFileName(name + "\n\n")
  {
    assert (name + "\n")[..|name|] == name;
    assert (name + "\n\n")[..|name| + 1] == name + "\n";
    assert '\n' in name + "\n" by {
      assert (name + "\n")[|name|] == '\n';
    }
    if '\n' !in name && |name| > 0 {
      assert name[|name| - 1] in name;
    }
  }

  /** Filters a directory listing down to the image files, keeping the listing order. */
  function ImageFiles(listing: seq<string>): (files: seq<string>)
    ensures |files| <= |listing|
  {
    if listing == [] then []
    else
      var rest := ImageFiles(listing[..|listing| - 1]);
      var last := listing[|listing| - 1];
      if IsImageFileName(last) then rest + [last] else rest
  }

  /**
   * The filter selects exactly the image entries: each one as often as the
   * listing holds it, and nothing else.
   */
  lemma {:induction false} ImageFilesSelectsImages(listing: seq<string>)
    ensures forall f :: multiset(ImageFiles(listing))[f] == if IsImageFileName(f) then multiset(listing)[f] else 0
    decreases |listing|
  {
    if listing != [] {
      var front, last := listing[..|listing| - 1], listing[|listing| - 1];
      ImageFilesSelectsImages(front);
      assert listing == front + [last];
      assert multiset(listing) == multiset(front) + multiset{last};
      if IsImageFileName(last) {
        assert ImageFiles(listing) == ImageFiles(front) + [last];
        assert multiset(ImageFiles(listing)) == multiset(ImageFiles(front)) + multiset{last};
      } else {
        assert ImageFiles(listing) == ImageFiles(front);
      }
    }
  }

  /** The filter keeps the listing order: filtering a concatenation filters each part. */
  lemma {:induction false} ImageFilesKeepOrder(a: seq<string>, b: seq<string>)
    ensures ImageFiles(a + b) == ImageFiles(a) + ImageFiles(b)
    decreases |b|
  {
    if b == [] {
      assert a + b == a;
    } else {
      var front := b[..|b| - 1];
      assert (a + b)[..|a + b| - 1] == a + front;
      assert (a + b)[|a + b| - 1] == b[|b| - 1];
      ImageFilesKeepOrder(a, front);
    }
  }

  // ---------------------------------------------------------------------------
  // The sort key: re.search(r"-([0-9]+)\.", name), int of the group, else inf
  // ---------------------------------------------------------------------------

  /** A sort key: the decimal number found in the name, or infinity when there is none. */
  datatype Key = Finite(n: nat) | Infinite

  /** The order Python uses to compare an int with an int or with float('inf'). */
  predicate KeyLe(a: Key, b: Key) {
    b.Infinite? || (a.Finite? && a.n <= b.n)
  }

  /**
   * The comparison is a total order on keys, with infinity above every
   * number, so sorting by it is well defined.
   */
  lemma KeyLeIsTotalOrder(a: Key, b: Key, c: Key)
    ensures KeyLe(a, a)
    ensures KeyLe(a, b) || KeyLe(b, a)
    ensures KeyLe(a, b) && KeyLe(b, a) ==> a == b
    ensures KeyLe(a, b) && KeyLe(b, c) ==> KeyLe(a, c)
    ensures KeyLe(Finite(a.n), Infinite) && !KeyLe(Infinite, Finite(a.n)) <== a.Finite?
  {
  }

  predicate IsDigit(c: char) {
    '0' <= c <= '9'
  }

  predicate AllDigits(s: string) {
    forall i :: 0 <= i < |s| ==> IsDigit(s[i])
  }

  /** What int() gives for a string of ASCII digits (leading zeros allowed). */
  function DecimalValue(digits: string): nat
    requires AllDigits(digits)
  {
    if digits == [] then 0
    else 10 * DecimalValue(digits[..|digits| - 1]) + (digits[|digits| - 1] as int - '0' as int)
  }

  /** As with int(), leading zeros do not change the value: int("007") is 7. */
  lemma {:induction false} LeadingZeroIgnored(digits: string)
    requires AllDigits(digits)
    ensures AllDigits(['0'] + digits) && DecimalValue(['0'] + digits) == DecimalValue(digits)
    decreases |digits|
  {
    var padded := ['0'] + digits;
    assert forall i :: 0 < i < |padded| ==> padded[i] == digits[i - 1];
    if digits != [] {
      var front := digits[..|digits| - 1];
      assert AllDigits(front);
      LeadingZeroIgnored(front);
      assert padded[..|padded| - 1] == ['0'] + front;
      assert padded[|padded| - 1] == digits[|digits| - 1];
    }
  }

  /** The regular expression `-([0-9]+)\.` matches at `start` with a group of `len` digits. */
  predicate PatternAt(s: string, start: int, len: int) {
    0 <= start && 1 <= len && start + len + 1 < |s| &&
    s[start] == '-' && AllDigits(s[start + 1..start + 1 + len]) && s[start + 1 + len] == '.'
  }

  /** The length of the longest run of digits that starts at `i`. */
  function DigitRun(s: string, i: nat): (n: nat)
    requires i <= |s|
    ensures i + n <= |s| && AllDigits(s[i..i + n])
    ensures i + n == |s| || !IsDigit(s[i + n])
    decreases |s| - i
  {
    if i < |s| && IsDigit(s[i]) then
      var rest := DigitRun(s, i + 1);
      assert s[i..i + 1 + rest] == [s[i]] + s[i + 1..i + 1 + rest];
      1 + rest
    else 0
  }

  /** The pattern matches at `start` (with the one group length that can succeed). */
  predicate MatchAt(s: string, start: nat) {
    start + 1 < |s| && s[start] == '-' &&
    var len := DigitRun(s, start + 1);
    1 <= len && start + 1 + len < |s| && s[start + 1 + len] == '.'
  }

  /**
   * Backtracking over the greedy `[0-9]+` cannot help: the pattern matches at
   * `start` exactly when MatchAt holds, and then the group is the whole digit run.
   */
  lemma PatternAtIsMatchAt(s: string, start: nat, len: int)
    ensures PatternAt(s, start, len) <==> MatchAt(s, start) && len == DigitRun(s, start + 1)
  {
    if PatternAt(s, start, len) {
      var run := DigitRun(s, start + 1);
      assert run >= len;
      assert run <= len;
    }
    if MatchAt(s, start) && len == DigitRun(s, start + 1) {
      assert PatternAt(s, start, len);
    }
  }

  /** The leftmost position at or after `from` where the pattern matches, as re.search scans. */
  function LeftmostMatch(s: string, from: nat): (r: Option<nat>)
    requires from <= |s|
    ensures r.Some? ==> from <= r.value < |s| && MatchAt(s, r.value)
    ensures r.Some? ==> forall j :: from <= j < r.value ==> !MatchAt(s, j)
    ensures r.None? ==> forall j :: from <= j ==> !MatchAt(s, j)
    decreases |s| - from
  {
    if from == |s| then None
    else if MatchAt(s, from) then Some(from)
    else LeftmostMatch(s, from + 1)
  }

  /** The digits of the leftmost match. */
  function MatchedDigits(s: string, start: nat): (digits: string)
    requires MatchAt(s, start)
    ensures |digits| >= 1 && AllDigits(digits)
  {
    s[start + 1..start + 1 + DigitRun(s, start + 1)]
  }

  /**
   * extract_number: the integer value of the digit group of the leftmost
   * `-<digits>.` in the name, or infinity when the name has none.
   */
  function ExtractNumber(name: string): (k: Key)
    ensures k.Infinite? <==> forall i: nat :: !MatchAt(name, i)
    ensures k.Finite? ==> exists i: nat ::
      MatchAt(name, i) && (forall j :: 0 <= j < i ==> !MatchAt(name, j)) && k.n == DecimalValue(MatchedDigits(name, i))
  {
    match LeftmostMatch(name, 0)
    case Some(i) => Finite(DecimalValue(MatchedDigits(name, i)))
    case None => Infinite
  }

  /** A name with no hyphen never matches, so it sorts with the infinite key. */
  lemma NoHyphenMeansInfinite(name: string)
    requires '-' !in name
    ensures ExtractNumber(name) == Infinite
  {
    forall i: nat ensures !MatchAt(name, i) {
      if i < |name| {
        assert name[i] in name;
      }
    }
  }

  /** The frame files written by the extractor, such as image_00001.jpg, all get the infinite key. */
  lemma FrameNameHasNoKey()
    ensures ExtractNumber("image_00001.jpg") == Infinite
  {
    NoHyphenMeansInfinite("image_00001.jpg");
  }

  /** In foo-<d>.jpg the pattern first matches at the hyphen, with the one digit as its group. */
  lemma NumberedNameMatch(d: char)
    requires IsDigit(d)
    ensures var s := "foo-" + [d] + ".jpg";
      LeftmostMatch(s, 0) == Some(3) && MatchAt(s, 3) && MatchedDigits(s, 3) == [d]
  {
    var s := "foo-" + [d] + ".jpg";
    assert s[3] == '-' && s[4] == d && s[5] == '.';
    assert DigitRun(s, 5) == 0;
    assert DigitRun(s, 4) == 1;
    assert !MatchAt(s, 0) && !MatchAt(s, 1) && !MatchAt(s, 2);
    assert LeftmostMatch(s, 3) == Some(3);
    assert LeftmostMatch(s, 1) == LeftmostMatch(s, 2) == Some(3);
  }

  /** foo-3.jpg has key 3, and likewise for every other single digit. */
  lemma NumberedNameKey(d: char)
    requires IsDigit(d)
    ensures ExtractNumber("foo-" + [d] + ".jpg") == Finite(d as int - '0' as int)
  {
    NumberedNameMatch(d);
    assert [d][..0] == [];
    assert DecimalValue([d]) == d as int - '0' as int;
  }
}
