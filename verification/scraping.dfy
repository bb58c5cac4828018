/** The scraping step of the cross-posting bot
    (openhomeautomationbot/scraping.py): take the newest submissions of the
    watched subreddit and keep, in order, those that fit the criteria. */
module Scraping {
  import opened Filter

  /** How many of the newest submissions one scrape looks at (`limit=20`). */
  const WindowLimit: nat := 20

  /** The window `subreddit.new(limit=20)` yields: the first (at most 20)
      entries of the subreddit's listing of new submissions. */
  function Window(listing: seq<Submission>): (w: seq<Submission>)
    ensures |w| == if |listing| <= WindowLimit then |listing| else WindowLimit
    ensures w <= listing
  {
    if |listing| <= WindowLimit then listing else listing[..WindowLimit]
  }

  /** `[x for x in window if check_if_fit_criteria(x, latest_timestamp)]`. */
  function Select(window: seq<Submission>, latestTimestamp: real): (r: seq<Submission>)
    ensures |r| <= |window|
    ensures forall x :: x in r ==> x in window && CheckIfFitCriteria(x, latestTimestamp)
    ensures forall x :: x in window && CheckIfFitCriteria(x, latestTimestamp) ==> x in r
  {
    if window == [] then []
    else
      var rest := Select(window[1..], latestTimestamp);
      if CheckIfFitCriteria(window[0], latestTimestamp) then [window[0]] + rest else rest
  }

  /** `scrape_subreddit(reddit, latest_timestamp)`, with the listing of new
      submissions passed in instead of fetched. */
  function ScrapeSubreddit(listing: seq<Submission>, latestTimestamp: real): (r: seq<Submission>)
    ensures |r| <= WindowLimit
    ensures forall x :: x in r ==> CheckIfFitCriteria(x, latestTimestamp)
    ensures forall x :: x in Window(listing) && CheckIfFitCriteria(x, latestTimestamp) ==> x in r
  {
    Select(Window(listing), latestTimestamp)
  }

  // ---------------------------------------------------------------------------
  // Subsequences
  // ---------------------------------------------------------------------------

  /** `a` is obtained from `b` by deleting elements, keeping the rest in order. */
  ghost predicate IsSubsequence<T>(a: seq<T>, b: seq<T>)
    decreases |b|
  {
    a == [] || (b != [] && ((a[0] == b[0] && IsSubsequence(a[1..], b[1..])) || IsSubsequence(a, b[1..])))
  }

  /** A prefix is a subsequence. */
  lemma {:induction false} PrefixIsSubsequence<T>(a: seq<T>, b: seq<T>)
    requires a <= b
    ensures IsSubsequence(a, b)
    decreases |a|
  {
    if a != [] {
      assert a[1..] <= b[1..];
      PrefixIsSubsequence(a[1..], b[1..]);
    }
  }

  lemma {:induction false} SubsequenceTransitive<T>(a: seq<T>, b: seq<T>, c: seq<T>)
    requires IsSubsequence(a, b) && IsSubsequence(b, c)
    ensures IsSubsequence(a, c)
    decreases |c|
  {
    if a != [] {
      assert b != [] && c != [];
      if b[0] == c[0] && IsSubsequence(b[1..], c[1..]) {
        if a[0] == b[0] && IsSubsequence(a[1..], b[1..]) {
          SubsequenceTransitive(a[1..], b[1..], c[1..]);
        } else {
          SubsequenceTransitive(a, b[1..], c[1..]);
        }
      } else {
        SubsequenceTransitive(a, b, c[1..]);
      }
    }
  }

  // ---------------------------------------------------------------------------
  // Properties of the selection
  // ---------------------------------------------------------------------------

  /** The selection keeps the window's order: it is a subsequence of it. */
  lemma {:induction false} SelectIsSubsequence(window: seq<Submission>, ts: real)
    ensures IsSubsequence(Select(window, ts), window)
    decreases |window|
  {
    if window != [] {
      SelectIsSubsequence(window[1..], ts);
      var rest := Select(window[1..], ts);
      if CheckIfFitCriteria(window[0], ts) {
        assert Select(window, ts)[1..] == rest;
      }
    }
  }

  /** Each submission occurs in the result exactly as often as in the window
      if it fits the criteria, and not at all otherwise. */
  lemma {:induction false} SelectCounts(window: seq<Submission>, ts: real, x: Submission)
    ensures multiset(Select(window, ts))[x] ==
      if CheckIfFitCriteria(x, ts) then multiset(window)[x] else 0
    decreases |window|
  {
    if window != [] {
      SelectCounts(window[1..], ts, x);
      assert window == [window[0]] + window[1..];
    }
  }

  /** Selecting over a concatenation selects over each part. */
  lemma {:induction false} SelectAppend(a: seq<Submission>, b: seq<Submission>, ts: real)
    ensures Select(a + b, ts) == Select(a, ts) + Select(b, ts)
    decreases |a|
  {
    if a != [] {
      assert (a + b)[0] == a[0];
      assert (a + b)[1..] == a[1..] + b;
      SelectAppend(a[1..], b, ts);
      var h := if CheckIfFitCriteria(a[0], ts) then [a[0]] else [];
      assert Select(a + b, ts) == h + (Select(a[1..], ts) + Select(b, ts));
      assert Select(a, ts) == h + Select(a[1..], ts);
    } else {
      assert a + b == b;
    }
  }

  /** Selection is complete and exact: the result is empty precisely when no
      submission of the window fits. */
  lemma SelectEmptyIff(window: seq<Submission>, ts: real)
    ensures Select(window, ts) == [] <==> forall x :: x in window ==> !CheckIfFitCriteria(x, ts)
  {
    if Select(window, ts) != [] {
      assert Select(window, ts)[0] in Select(window, ts);
    }
  }

  /** With the watermark at or above every submission's timestamp, nothing
      is selected. */
  lemma AllOldSelectsNothing(window: seq<Submission>, ts: real)
    requires forall x :: x in window ==> x.created <= ts
    ensures Select(window, ts) == []
  {
    SelectEmptyIff(window, ts);
  }

  /** Selecting with a higher watermark after a lower one is the same as
      selecting with the higher one alone. */
  lemma {:induction false} SelectCompose(window: seq<Submission>, ts1: real, ts2: real)
    requires ts1 <= ts2
    ensures Select(Select(window, ts1), ts2) == Select(window, ts2)
    decreases |window|
  {
    if window != [] {
      SelectCompose(window[1..], ts1, ts2);
      var rest := Select(window[1..], ts1);
      if CheckIfFitCriteria(window[0], ts1) {
        assert ([window[0]] + rest)[1..] == rest;
      }
    }
  }

  /** Idempotence: filtering the result again with the same watermark returns it unchanged. */
  lemma SelectIdempotent(window: seq<Submission>, ts: real)
    ensures Select(Select(window, ts), ts) == Select(window, ts)
  {
    SelectCompose(window, ts, ts);
  }

  /** Watermark monotonicity: a higher watermark selects a subsequence of what
      a lower one selects. */
  lemma WatermarkShrinksSelection(window: seq<Submission>, ts1: real, ts2: real)
    requires ts1 <= ts2
    ensures IsSubsequence(Select(window, ts2), Select(window, ts1))
    ensures |Select(window, ts2)| <= |Select(window, ts1)|
  {
    SelectCompose(window, ts1, ts2);
    SelectIsSubsequence(Select(window, ts1), ts2);
  }

  /** The scrape returns an order-preserving subsequence of the window. */
  lemma ScrapeIsSubsequenceOfWindow(listing: seq<Submission>, ts: real)
    ensures IsSubsequence(ScrapeSubreddit(listing, ts), Window(listing))
  {
    SelectIsSubsequence(Window(listing), ts);
  }

  /** The scrape returns an order-preserving subsequence of the whole listing
      of new submissions, and never more than its first twenty. */
  lemma ScrapeIsSubsequenceOfListing(listing: seq<Submission>, ts: real)
    ensures IsSubsequence(ScrapeSubreddit(listing, ts), listing)
    ensures forall x :: x in ScrapeSubreddit(listing, ts) ==> x in Window(listing)
  {
    ScrapeIsSubsequenceOfWindow(listing, ts);
    PrefixIsSubsequence(Window(listing), listing);
    SubsequenceTransitive(ScrapeSubreddit(listing, ts), Window(listing), listing);
  }

  /** A higher watermark can only shrink what a scrape returns. */
  lemma ScrapeWatermarkMonotone(listing: seq<Submission>, ts1: real, ts2: real)
    requires ts1 <= ts2
    ensures IsSubsequence(ScrapeSubreddit(listing, ts2), ScrapeSubreddit(listing, ts1))
  {
    WatermarkShrinksSelection(Window(listing), ts1, ts2);
  }
}
