/** Worked examples of one scrape: each lemma fixes a listing and a watermark
    and states what `scrape_subreddit` returns for it. Texts are named
    constants, assembled from pieces, so that the proofs reason about them
    through the lemmas of the Filter module. */
module Scenarios {
  import opened Filter
  import opened Scraping

  const Watermark: real := 100.0

  /** A post older than the watermark, although its title names the topic. */
  const OldPost := Submission("Home Assistant tips", 50.0, true, "", "")

  /** A new self post whose title, "My new Home Assistant setup", names the
      topic in mixed case. */
  const Before: string := "My new "
  const Home: string := "Home "
  const Assistant: string := "Assistant"
  const After: string := " setup"
  const SetupTitle: string := Before + (Home + Assistant) + After
  const SetupPost := Submission(SetupTitle, 200.0, true, "...", "")

  /** A new link post whose title names no topic. */
  const GadgetTitle: string := "cool gadget"
  const GadgetLink := Submission(GadgetTitle, 300.0, false, "", "http://x")

  /** Two new self posts: the first matches by its title "FOSS", the second,
      titled "door sensor", only by its self text "flashed with floss". */
  const FossTitle: string := "FOSS"
  const FossPost := Submission(FossTitle, 400.0, true, "", "")
  const SensorTitle: string := "door sensor"
  const FlashedWith: string := "flashed with "
  const Floss: string := "floss"
  const SensorPost := Submission(SensorTitle, 410.0, true, FlashedWith + Floss, "")

  // The texts, one fact each.

  lemma SetupTitleMatches()
    ensures CheckForKeywords(SetupTitle)
  {
    assert Lower(Home) == "home ";
    assert Lower(Assistant) == "assistant";
    LowerAppend(Home, Assistant);
    assert Lower(Home + Assistant) == Keywords[4];
    AnyCasingOfKeywordMatches(Before, Home + Assistant, After);
  }

  lemma GadgetTitleDoesNotMatch()
    ensures !CheckForKeywords(GadgetTitle)
  {
    NoMatchWithoutKeyLetters(GadgetTitle);
  }

  lemma SensorTitleDoesNotMatch()
    ensures !CheckForKeywords(SensorTitle)
  {
    NoMatchWithoutKeyLetters(SensorTitle);
  }

  lemma FossTitleMatches()
    ensures CheckForKeywords(FossTitle)
  {
    assert Lower(FossTitle) == Keywords[2];
    assert Occurs(Keywords[2], Lower(FossTitle));
  }

  lemma SensorTextMatches()
    ensures CheckForKeywords(FlashedWith + Floss)
  {
    KeywordsMatchThemselves();
    assert Floss == Keywords[3];
    MatchSurvivesExtension(FlashedWith, Floss, []);
    assert FlashedWith + Floss + [] == FlashedWith + Floss;
  }

  lemma FossPostFits()
    ensures CheckIfFitCriteria(FossPost, Watermark)
  {
    FossTitleMatches();
  }

  /** The self text decides, the title does not. */
  lemma SensorPostFits()
    ensures !CheckForKeywords(SensorPost.title)
    ensures CheckIfFitCriteria(SensorPost, Watermark)
  {
    SensorTitleDoesNotMatch();
    SensorTextMatches();
  }

  // The scrapes.

  /** The novelty gate drops an old post whatever its title says. */
  lemma OldPostIsDropped()
    ensures ScrapeSubreddit([OldPost], Watermark) == []
  {
    NoveltyGate(OldPost, Watermark);
  }

  /** A new post whose title names the topic in any letter case is selected. */
  lemma TitleMatchIsSelected()
    ensures ScrapeSubreddit([SetupPost], Watermark) == [SetupPost]
  {
    SetupTitleMatches();
  }

  /** A link post without a topic word in its title is dropped; its URL is not read. */
  lemma LinkPostWithoutTitleMatchIsDropped()
    ensures ScrapeSubreddit([GadgetLink], Watermark) == []
  {
    GadgetTitleDoesNotMatch();
  }

  /** Two eligible posts are both selected, in listing order, although only
      the first would be cross-posted. */
  lemma TwoEligibleKeepOrder()
    ensures ScrapeSubreddit([FossPost, SensorPost], Watermark) == [FossPost, SensorPost]
  {
    FossPostFits();
    SensorPostFits();
  }
}
