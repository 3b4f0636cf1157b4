/** The text the app exchanges with the story service: the user messages
    of the two requests (`get_story_from_azure` and `get_moral_explanation`),
    the fixed annotation sent after Option A, the sentinel strings the two
    calls return on failure, and the check the caller applies to a reply. */
module StoryService {
  import opened PyStr
  import opened StoryParser

  /** What the story request returns when the HTTP call fails. */
  const FetchFailure := "Unable to fetch the story due to an error."

  /** What the story request returns when the reply has no message content. */
  const NoContent := "No content returned"

  /** The annotation sent with the story request after Option A. */
  const ChoseA := "Child chose Option A"

  /** The word whose presence in a story reply the caller takes as failure. */
  const FailureWord := "Error"

  const LessonIntro := "The lesson is about "
  const FeaturesIntro := ". The story features a "

  /** The caller's failure test on a story reply: it mentions "Error",
      with that exact capitalisation, anywhere. */
  predicate SignalsFailure(response: string) {
    Contains(response, FailureWord)
  }

  /** The user message of a story request: the goal, the animal, and the
      annotation about the previous choice (empty on the first request). */
  function StoryRequest(goal: string, animal: string, annotation: string): (m: string)
    ensures |m| == |LessonIntro| + |goal| + |FeaturesIntro| + |animal| + 2 + |annotation|
    ensures m[..|LessonIntro|] == LessonIntro
    ensures m[|LessonIntro|..|LessonIntro| + |goal|] == goal
    ensures m[|m| - |annotation|..] == annotation
  {
    LessonIntro + (goal + (FeaturesIntro + (animal + (". " + annotation))))
  }

  /** When the goal has no full stop, the message of a story request
      determines the goal and the animal. */
  lemma StoryRequestInjective(g1: string, a1: string, g2: string, a2: string, annotation: string)
    requires '.' !in g1 && '.' !in g2
    requires StoryRequest(g1, a1, annotation) == StoryRequest(g2, a2, annotation)
    ensures g1 == g2 && a1 == a2
  {
    var tail1 := a1 + (". " + annotation);
    var tail2 := a2 + (". " + annotation);
    CommonPrefix(LessonIntro, g1 + (FeaturesIntro + tail1), g2 + (FeaturesIntro + tail2));
    SplitAtChar('.', g1, FeaturesIntro + tail1, g2, FeaturesIntro + tail2);
    CommonPrefix(FeaturesIntro, tail1, tail2);
    assert a1 == tail1[..|a1|];
    assert a2 == tail2[..|a2|];
  }

  /** Removing the same prefix from two equal strings leaves equal strings. */
  lemma CommonPrefix(p: string, x: string, y: string)
    requires p + x == p + y
    ensures x == y
  {
    assert x == (p + x)[|p|..];
    assert y == (p + y)[|p|..];
  }

  /** A string without the character `c`, followed by one that starts with
      `c`, is split at that character only. */
  lemma SplitAtChar(c: char, g1: string, r1: string, g2: string, r2: string)
    requires c !in g1 && c !in g2
    requires r1 != [] && r1[0] == c && r2 != [] && r2[0] == c
    requires g1 + r1 == g2 + r2
    ensures g1 == g2 && r1 == r2
  {
    var m := g1 + r1;
    assert g1 == m[..|g1|];
    assert g2 == m[..|g2|];
    assert r1 == m[|g1|..];
    assert r2 == m[|g2|..];
  }

  /** The user message of the moral request. */
  function MoralRequest(goal: string, animal: string): (m: string)
    ensures |m| == |MoralIntro| + |animal| + |MoralMiddle| + |goal| + |MoralQuestion|
    ensures m[..|MoralIntro|] == MoralIntro
    ensures m[|MoralIntro|..|MoralIntro| + |animal|] == animal
    ensures m[|m| - |MoralQuestion|..] == MoralQuestion
  {
    MoralIntro + (animal + (MoralMiddle + goal)) + MoralQuestion
  }

  /** When the animal names have no comma, the moral message determines the
      animal and the goal. */
  lemma MoralRequestInjective(a1: string, g1: string, a2: string, g2: string)
    requires ',' !in a1 && ',' !in a2
    requires MoralRequest(g1, a1) == MoralRequest(g2, a2)
    ensures a1 == a2 && g1 == g2
  {
    var tail1 := MoralMiddle + g1;
    var tail2 := MoralMiddle + g2;
    CommonSuffix(MoralIntro + (a1 + tail1), MoralIntro + (a2 + tail2), MoralQuestion);
    CommonPrefix(MoralIntro, a1 + tail1, a2 + tail2);
    SplitAtChar(',', a1, tail1, a2, tail2);
    CommonPrefix(MoralMiddle, g1, g2);
  }

  /** Removing the same suffix from two equal strings leaves equal strings. */
  lemma CommonSuffix(x: string, y: string, q: string)
    requires x + q == y + q
    ensures x == y
  {
    assert x == (x + q)[..|x|];
    assert y == (y + q)[..|y|];
  }

  const MoralIntro := "The story features a "
  const MoralMiddle := ", and the goal is to teach "
  const MoralQuestion := ". Provide a short, concise moral explanation for why Option B is not the best choice."

  /** The story request's failure sentinel has no upper-case E ... */
  lemma FetchFailureNoCapitalE()
    ensures 'E' !in FetchFailure
  {
  }

  /** ... and no colon. */
  lemma FetchFailureNoColon()
    ensures ':' !in FetchFailure
  {
  }

  /** The reply that stands for missing content has neither. */
  lemma NoContentChars()
    ensures 'E' !in NoContent && ':' !in NoContent
  {
  }

  /** The failure sentinel of the story request does not mention "Error"
      (its "error" is lower case), so the caller's test lets it through;
      neither does the reply that stands for missing content. */
  lemma FallbackNotFlagged()
    ensures !SignalsFailure(FetchFailure)
    ensures !SignalsFailure(NoContent)
  {
    FetchFailureNoCapitalE();
    NoContentChars();
    AbsentChar(FetchFailure, FailureWord, 0);
    AbsentChar(NoContent, FailureWord, 0);
  }

  /** A stripped reply without a colon parses to itself as narrative and
      offers no options. */
  lemma ParsePlain(s: string)
    requires ':' !in s && Stripped(s)
    ensures Parse(s) == Parsed(s, map[])
  {
    AbsentChar(s, MarkerA, 8);
    AbsentChar(s, MarkerB, 8);
    ParseWithoutMarkers(s);
    assert s[0..|s|] == s;
    StripUnique(s, 0, |s|);
  }

  /** Parsed as a story, each sentinel is a narrative with no options. */
  lemma ParseSentinel(s: string)
    requires s == FetchFailure || s == NoContent
    ensures Parse(s) == Parsed(s, map[])
  {
    FetchFailureNoColon();
    NoContentChars();
    ParsePlain(s);
  }
}
