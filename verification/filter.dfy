/** The eligibility rule of the cross-posting bot: a case-insensitive keyword
    matcher over text, and the rule that decides whether one submission of the
    watched subreddit may be cross-posted (openhomeautomationbot/filter.py). */
module Filter {

  // ---------------------------------------------------------------------------
  // Lowercasing. Python's `str.lower()` is modelled on ASCII letters only:
  // 'A'..'Z' become 'a'..'z', every other character is left as it is.
  // ---------------------------------------------------------------------------

  function ToLower(c: char): (r: char)
  {
    if 'A' <= c <= 'Z' then (c as int - 'A' as int + 'a' as int) as char else c
  }

  /** `text.lower()`: the text with every letter lowered, character by character. */
  function Lower(s: string): (r: string)
    ensures |r| == |s|
  {
    if s == [] then [] else [ToLower(s[0])] + Lower(s[1..])
  }

  /** Each character of the lowered text is the lowered character. */
  lemma {:induction false} LowerAt(s: string, i: nat)
    requires i < |s|
    ensures Lower(s)[i] == ToLower(s[i])
  {
    if i > 0 { LowerAt(s[1..], i - 1); }
  }

  /** Lowering commutes with concatenation. */
  lemma LowerAppend(a: string, b: string)
    ensures Lower(a + b) == Lower(a) + Lower(b)
  {
    var l, r := Lower(a + b), Lower(a) + Lower(b);
    forall i | 0 <= i < |l| ensures l[i] == r[i] {
      LowerAt(a + b, i);
      if i < |a| {
        LowerAt(a, i);
      } else {
        LowerAt(b, i - |a|);
      }
    }
  }

  /** Lowering twice is lowering once. */
  lemma LowerIdempotent(s: string)
    ensures Lower(Lower(s)) == Lower(s)
  {
    var l := Lower(s);
    forall i | 0 <= i < |l| ensures Lower(l)[i] == l[i] {
      LowerAt(s, i);
      LowerAt(l, i);
    }
  }

  // ---------------------------------------------------------------------------
  // Substring search: Python's `keyword in text` on two strings.
  // ---------------------------------------------------------------------------

  /** Reference meaning of `k in t`: `k` starts at some position of `t`. */
  ghost predicate IsSubstring(k: string, t: string)
  {
    exists i :: 0 <= i <= |t| && k <= t[i..]
  }

  /** The search itself: `k` is a prefix of `t` or of one of its suffixes. */
  function Occurs(k: string, t: string): (r: bool)
    ensures r <==> IsSubstring(k, t)
    decreases |t|
  {
    if k <= t then
      assert t[0..] == t;
      true
    else if t == [] then
      false
    else
      var r := Occurs(k, t[1..]);
      assert IsSubstring(k, t[1..]) ==> IsSubstring(k, t) by {
        if IsSubstring(k, t[1..]) {
          var j :| 0 <= j <= |t[1..]| && k <= t[1..][j..];
          assert t[1..][j..] == t[j + 1..];
        }
      }
      assert IsSubstring(k, t) ==> IsSubstring(k, t[1..]) by {
        if IsSubstring(k, t) {
          var i :| 0 <= i <= |t| && k <= t[i..];
          assert t[0..] == t;
          assert t[1..][i - 1..] == t[i..];
        }
      }
      r
  }

  /** Text that occurs inside `t` also occurs inside `p + t + s`. */
  lemma {:induction false} SubstringWidens(k: string, p: string, t: string, s: string)
    requires IsSubstring(k, t)
    ensures IsSubstring(k, p + t + s)
  {
    var i :| 0 <= i <= |t| && k <= t[i..];
    var w := p + t + s;
    assert w[|p| + i..] == t[i..] + s;
    assert k <= w[|p| + i..];
  }

  /** Every character of a substring occurs in the text. */
  lemma SubstringCharsOccur(k: string, t: string, c: char)
    requires IsSubstring(k, t) && c in k
    ensures c in t
  {
    var i :| 0 <= i <= |t| && k <= t[i..];
    var j :| 0 <= j < |k| && k[j] == c;
    assert t[i..][j] == c;
  }

  // ---------------------------------------------------------------------------
  // check_for_keywords
  // ---------------------------------------------------------------------------

  /** The fixed topic phrases, all lower case. */
  const Keywords: seq<string> := [
    "open source",
    "open-source",
    "foss",
    "floss",
    "home assistant",
    "home-assistant",
    "homeassistant"
  ]

  /** `check_for_keywords(text)`: does some keyword occur in `text.lower()`? */
  predicate CheckForKeywords(text: string)
  {
    exists k | k in Keywords :: Occurs(k, Lower(text))
  }

  /** The matcher holds exactly when some keyword is a substring of the lowered text. */
  lemma CheckForKeywordsMeaning(text: string)
    ensures CheckForKeywords(text) <==> exists k :: k in Keywords && IsSubstring(k, Lower(text))
  {
  }

  /** Every keyword is already lower case, so each matches itself. */
  lemma KeywordsMatchThemselves()
    ensures forall k :: k in Keywords ==> Lower(k) == k && CheckForKeywords(k)
  {
    forall k | k in Keywords ensures Lower(k) == k && CheckForKeywords(k) {
      assert HasNoUpper(k);
      LowerOfLowercase(k);
      assert k <= k;
    }
  }

  /** No ASCII upper-case letter in `s`. */
  ghost predicate HasNoUpper(s: string)
  {
    forall i :: 0 <= i < |s| ==> !('A' <= s[i] <= 'Z')
  }

  /** Text without upper-case letters is its own lowering. */
  lemma LowerOfLowercase(s: string)
    requires HasNoUpper(s)
    ensures Lower(s) == s
  {
    forall i | 0 <= i < |s| ensures Lower(s)[i] == s[i] {
      LowerAt(s, i);
    }
  }

  /** Matching ignores letter case: lowering the text first changes nothing. */
  lemma CaseInsensitive(text: string)
    ensures CheckForKeywords(Lower(text)) == CheckForKeywords(text)
  {
    LowerIdempotent(text);
  }

  /** The shortest keyword ("foss") has four characters, so shorter text
      never matches; in particular the empty text does not. */
  lemma {:induction false} ShortTextNeverMatches(text: string)
    requires |text| < 4
    ensures !CheckForKeywords(text)
  {
    forall k | k in Keywords ensures !IsSubstring(k, Lower(text)) {
      assert |k| >= 4;
    }
  }

  /** A lower-case letter in the lowered text comes from that letter or
      its capital in the text. */
  lemma LoweredLetterFrom(text: string, c: char)
    requires 'a' <= c <= 'z' && c in Lower(text)
    ensures c in text || (c as int - 'a' as int + 'A' as int) as char in text
  {
    var i :| 0 <= i < |Lower(text)| && Lower(text)[i] == c;
    LowerAt(text, i);
    assert text[i] in text;
  }

  /** Every keyword contains an 'f', an 'h' or a 'p', so text without any of
      these letters, in either case, never matches. */
  lemma NoMatchWithoutKeyLetters(text: string)
    requires 'f' !in text && 'F' !in text
    requires 'h' !in text && 'H' !in text
    requires 'p' !in text && 'P' !in text
    ensures !CheckForKeywords(text)
  {
    forall c | c in "fhp" ensures c !in Lower(text) {
      if c in Lower(text) { LoweredLetterFrom(text, c); }
    }
    forall k | k in Keywords ensures !IsSubstring(k, Lower(text)) {
      var c := if 'p' in k then 'p' else if 'f' in k then 'f' else 'h';
      assert c in k;
      if IsSubstring(k, Lower(text)) {
        SubstringCharsOccur(k, Lower(text), c);
      }
    }
  }

  /** A matching text still matches with anything put before or after it. */
  lemma {:induction false} MatchSurvivesExtension(p: string, t: string, s: string)
    requires CheckForKeywords(t)
    ensures CheckForKeywords(p + t + s)
  {
    var k :| k in Keywords && Occurs(k, Lower(t));
    LowerAppend(p, t);
    LowerAppend(p + t, s);
    SubstringWidens(k, Lower(p), Lower(t), Lower(s));
    assert Occurs(k, Lower(p + t + s));
  }

  /** A keyword written in any letter case, anywhere in the text, matches. */
  lemma {:induction false} AnyCasingOfKeywordMatches(p: string, w: string, s: string)
    requires Lower(w) in Keywords
    ensures CheckForKeywords(p + w + s)
  {
    KeywordsMatchThemselves();
    LowerIdempotent(w);
    assert CheckForKeywords(Lower(w));
    CaseInsensitive(w);
    MatchSurvivesExtension(p, w, s);
  }

  // ---------------------------------------------------------------------------
  // check_if_fit_criteria
  // ---------------------------------------------------------------------------

  /** The fields of a Reddit submission that the rule reads. `created` is the
      submission's `created_utc`; `selftext` is meaningful for self posts and
      `url` for link posts. */
  datatype Submission = Submission(
    title: string,
    created: real,
    isSelf: bool,
    selftext: string,
    url: string
  )

  /** `check_if_fit_criteria(submission, latest_timestamp)`, with its early
      returns in source order: the novelty gate, the title, then the self text
      of a self post. A link post whose title does not match is rejected; its
      URL is not read. */
  predicate CheckIfFitCriteria(s: Submission, latestTimestamp: real)
  {
    if s.created <= latestTimestamp then false
    else if CheckForKeywords(s.title) then true
    else if s.isSelf then CheckForKeywords(s.selftext)
    else false
  }

  /** The whole rule as one formula. */
  lemma CriteriaClosedForm(s: Submission, ts: real)
    ensures CheckIfFitCriteria(s, ts) <==>
      ts < s.created && (CheckForKeywords(s.title) || (s.isSelf && CheckForKeywords(s.selftext)))
  {
  }

  /** Novelty gate: a submission no newer than the watermark is never eligible,
      whatever its title, text or URL. */
  lemma NoveltyGate(s: Submission, ts: real)
    requires s.created <= ts
    ensures !CheckIfFitCriteria(s, ts)
  {
  }

  /** A new submission whose title matches is eligible, self post or not. */
  lemma TitleMatchSuffices(s: Submission, ts: real)
    requires ts < s.created && CheckForKeywords(s.title)
    ensures CheckIfFitCriteria(s, ts)
  {
  }

  /** A link post is eligible exactly when it is new and its title matches:
      its self text and its URL play no part. */
  lemma LinkPostNeedsTitle(s: Submission, ts: real, selftext: string, url: string)
    requires !s.isSelf
    ensures CheckIfFitCriteria(s, ts) <==> ts < s.created && CheckForKeywords(s.title)
    ensures CheckIfFitCriteria(s.(selftext := selftext, url := url), ts) == CheckIfFitCriteria(s, ts)
  {
  }

  /** The URL of a submission never affects the decision. */
  lemma UrlIgnored(s: Submission, ts: real, url: string)
    ensures CheckIfFitCriteria(s.(url := url), ts) == CheckIfFitCriteria(s, ts)
  {
  }

  /** Raising the watermark can only turn an eligible submission ineligible. */
  lemma WatermarkAntitone(s: Submission, ts1: real, ts2: real)
    requires ts1 <= ts2 && CheckIfFitCriteria(s, ts2)
    ensures CheckIfFitCriteria(s, ts1)
  {
  }
}
