# OpenHomeAutomationBot: the cross-posting decision, in Dafny

OpenHomeAutomationBot watches the newest submissions of the `homeautomation`
subreddit and cross-posts the ones about open-source home automation to a
second subreddit. This project models the part of the bot that decides what
to cross-post, and proves what that decision promises:

- `Filter` (`openhomeautomationbot/filter.py`):
  the keyword matcher `check_for_keywords` (lower the text, then look for one
  of seven fixed phrases as a plain substring) and the eligibility rule
  `check_if_fit_criteria` (novelty gate against the watermark
  `latest_timestamp`, then the title, then the self text of a self post).
  A submission is the immutable datatype `Submission(title, created, isSelf,
  selftext, url)`; `created` stands for `created_utc`.
- `Scraping` (`openhomeautomationbot/scraping.py`): `scrape_subreddit` as a
  pure, order-preserving selection over the window of at most 20 newest
  submissions. The subreddit's listing of new submissions is an input
  sequence; `Window` takes its first 20 entries, as `new(limit=20)` does.
- `Scenarios`: worked examples of one scrape (an old post, a mixed-case
  title match, a link post without a title match, two eligible posts kept in
  order).

The proofs cover: the matcher's meaning as "some keyword is a substring of
the lowered text"; case-insensitivity; no match on text shorter than the
shortest keyword (so none on the empty string); matches survive any text
added around them; the rule's closed form
`created > ts && (kw(title) || (isSelf && kw(selftext)))`, the novelty gate,
and the URL never being read; the selection's soundness, completeness, exact
element counts, order preservation, idempotence, and its monotonicity in the
watermark: a higher watermark selects a subsequence of what a lower one selects.

## Model

| member | source | states |
|---|---|---|
| `Filter.Lower` | openhomeautomationbot/filter.py:23 | `text.lower()` keeps the length of the text |
| `Filter.LowerAt` | openhomeautomationbot/filter.py:23 | each character of the lowered text is the lowered character at the same position |
| `Filter.LowerIdempotent` | openhomeautomationbot/filter.py:23 | lowering twice is the same as lowering once |
| `Filter.Occurs` | openhomeautomationbot/filter.py:23 | the search for `keyword in text` is true exactly when the keyword starts at some position of the text |
| `Filter.CheckForKeywordsMeaning` | openhomeautomationbot/filter.py:13-23 | `check_for_keywords(t)` holds iff some keyword of the fixed list is a substring of the lowered `t` |
| `Filter.KeywordsMatchThemselves` | openhomeautomationbot/filter.py:13-21 | every keyword is already lower case and is matched by the matcher |
| `Filter.CaseInsensitive` | openhomeautomationbot/filter.py:14-23 | the matcher gives the same answer on `t` and on `t` lowered |
| `Filter.ShortTextNeverMatches` | openhomeautomationbot/filter.py:13-23 | text shorter than the shortest keyword (4 characters), the empty text included, never matches |
| `Filter.NoMatchWithoutKeyLetters` | openhomeautomationbot/filter.py:13-23 | text with no `f`, `h` or `p` in either case never matches, since every keyword contains one of these letters |
| `Filter.MatchSurvivesExtension` | openhomeautomationbot/filter.py:23 | if `t` matches then `p + t + s` matches for all `p` and `s` |
| `Filter.AnyCasingOfKeywordMatches` | openhomeautomationbot/filter.py:13-23 | a keyword written in any letter case anywhere in the text makes the text match |
| `Filter.CriteriaClosedForm` | openhomeautomationbot/filter.py:38-57 | the rule holds iff `latest_timestamp < created` and either the title matches or the post is a self post whose self text matches |
| `Filter.NoveltyGate` | openhomeautomationbot/filter.py:41-42 | a post with `created <= latest_timestamp` is rejected whatever its title, text or URL |
| `Filter.TitleMatchSuffices` | openhomeautomationbot/filter.py:45-46 | a new post whose title matches is accepted, self post or link post |
| `Filter.LinkPostNeedsTitle` | openhomeautomationbot/filter.py:49-57 | a link post is accepted iff it is new and its title matches; changing its self text or URL changes nothing |
| `Filter.UrlIgnored` | openhomeautomationbot/filter.py:54-57 | the URL of a submission never changes the decision |
| `Filter.WatermarkAntitone` | openhomeautomationbot/filter.py:41-42 | a post accepted under a watermark is accepted under every lower watermark |
| `Scraping.Window` | openhomeautomationbot/scraping.py:27-29 | the window is the prefix of the listing of length min(length of the listing, 20): its first 20 entries, or the whole listing when it is shorter |
| `Scraping.Select` | openhomeautomationbot/scraping.py:27-31 | the selection is no longer than the window; every selected post is in the window and fits the criteria; every post of the window that fits is selected |
| `Scraping.ScrapeSubreddit` | openhomeautomationbot/scraping.py:6-33 | the scrape returns at most 20 posts; all fit the criteria; none of the window's fitting posts is missing |
| `Scraping.SelectIsSubsequence` | openhomeautomationbot/scraping.py:27-31 | the selection is an order-preserving subsequence of the window |
| `Scraping.SelectCounts` | openhomeautomationbot/scraping.py:27-31 | each post occurs in the selection as often as in the window if it fits the criteria, and not at all otherwise |
| `Scraping.SelectAppend` | openhomeautomationbot/scraping.py:27-31 | selecting from a concatenation is the concatenation of the selections |
| `Scraping.SelectEmptyIff` | openhomeautomationbot/scraping.py:27-31 | the selection is empty iff no post of the window fits the criteria |
| `Scraping.AllOldSelectsNothing` | openhomeautomationbot/scraping.py:27-31 | when the watermark is at or above every post's `created`, nothing is selected |
| `Scraping.SelectCompose` | openhomeautomationbot/scraping.py:27-31 | selecting with a higher watermark after a lower one equals selecting with the higher one alone |
| `Scraping.SelectIdempotent` | openhomeautomationbot/scraping.py:27-31 | selecting the selection again with the same watermark returns it unchanged |
| `Scraping.WatermarkShrinksSelection` | openhomeautomationbot/scraping.py:27-31 | with `ts1 <= ts2`, the selection for `ts2` is a subsequence of the selection for `ts1`, and no longer |
| `Scraping.ScrapeIsSubsequenceOfWindow` | openhomeautomationbot/scraping.py:27-31 | the scrape is an order-preserving subsequence of the 20-post window |
| `Scraping.ScrapeIsSubsequenceOfListing` | openhomeautomationbot/scraping.py:27-31 | the scrape is an order-preserving subsequence of the whole listing of new posts, and every post in it is among the listing's first 20 |
| `Scraping.ScrapeWatermarkMonotone` | openhomeautomationbot/scraping.py:27-31 | a higher watermark scrapes a subsequence of what a lower one scrapes |
| `Scenarios.OldPostIsDropped` | openhomeautomationbot/filter.py:41-42 | a post at 50 under watermark 100 is not scraped, although its title says "Home Assistant" |
| `Scenarios.TitleMatchIsSelected` | openhomeautomationbot/filter.py:45-46 | a new post titled "My new Home Assistant setup" is scraped |
| `Scenarios.LinkPostWithoutTitleMatchIsDropped` | openhomeautomationbot/filter.py:54-57 | a new link post titled "cool gadget" is not scraped |
| `Scenarios.TwoEligibleKeepOrder` | openhomeautomationbot/scraping.py:27-31 | two new eligible posts, the second matching only by self text, are both scraped in listing order |

## Left out

- `subreddit.new(limit=20)` and `reddit.subreddit(...)` (openhomeautomationbot/scraping.py:23-29) are calls to Reddit's API. The listing they return is a parameter of `ScrapeSubreddit`.
- `logging.warn` (openhomeautomationbot/filter.py:56) is a side effect only. It does not affect the result.
- openhomeautomationbot/posting.py consists of remote writes (`submission.crosspost`) and logging. Its loop publishes only `s[0]` of the scraped list `s`, when `|s| > 0`. It is not modelled.
- openhomeautomationbot/database_management.py reads a JSON file. It is not modelled. Its default state when the file is missing has `latest_timestamp` 0.
- No code in these files writes the state file or advances the watermark, so there is no ledger commit to model.
- The bot never fetches a linked article: for a link post whose title does not match, `check_if_fit_criteria` logs a warning and returns `False` (openhomeautomationbot/filter.py:54-57), and `CheckIfFitCriteria` returns `false` likewise.
- `check_for_keywords` calls `.lower()` on its argument, which raises on `None`. The model's argument is a `string`, so that case does not arise.
- openhomeautomationbot/main.py only sets up logging. It is not modelled.
- `Filter.Lower` lowers ASCII `A`-`Z` only. Python's `str.lower()` follows Unicode: it also lowers letters such as `Ä`, and it can lengthen a string (`İ`). This does not change `CheckForKeywords`. Every keyword is ASCII. The only non-ASCII characters that Python lowers to something containing ASCII are U+0130 `İ` (to `i` followed by U+0307) and U+212A, the Kelvin sign (to `k`). No keyword contains `k`. Every `i` in a keyword is followed by `s`, never by U+0307, and no keyword ends in `i`. So `CheckForKeywords` gives Python's answer on every string; this argument about Unicode tables is not itself proved in Dafny.
- `created_utc` and `latest_timestamp` are Python floats. They are modelled as `real`. `<=` between two given floats is exact on their real values, so NaN is the only case not captured.
