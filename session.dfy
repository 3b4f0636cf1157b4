/** The app's session state and the four events that change it: Start
    (the intake form's button), Option A, Option B and Start Over. Each
    story reply and moral explanation the service would return is a
    parameter; the request each event sends is returned. */
module Session {
  import opened PyStr
  import opened StoryParser
  import opened StoryService

  /** The animals the intake form offers. */
  const Animals: seq<string> := ["Lion", "Elephant", "Penguin", "Dolphin"]

  /** The progress value at which the story is complete. */
  const Complete := 4

  class StorySession {
    /** 0 at intake, 1 to 3 while a segment is shown, 4 when complete. */
    var progress: int
    /** The narratives received so far, oldest first. */
    var story: seq<string>
    /** The options parsed from the latest reply. */
    var choices: map<string, string>
    var goal: string
    var animal: string

    /** What holds in every reachable state: one narrative per step of
        progress, no options at intake, no option keys other than the two
        the parser produces, narratives without surrounding whitespace, and
        an animal from the form (or none yet). */
    predicate Valid()
      reads this
    {
      && 0 <= progress <= Complete
      && |story| == progress
      && (progress == 0 ==> choices == map[])
      && choices.Keys <= {KeyA, KeyB}
      && (forall k :: 0 <= k < |story| ==> Stripped(story[k]))
      && (animal == "" || animal in Animals)
    }

    /** The intake form, and so the Start button, is on screen. */
    predicate CanStart()
      reads this
    {
      progress == 0
    }

    /** The Option A button is on screen: a segment is shown, options
        exist, and the label of Option A can be built. */
    predicate CanChooseA()
      reads this
    {
      0 < progress < Complete && choices != map[] && KeyA in choices
    }

    /** The Option B button is on screen: the Option A button is drawn
        before it, so both labels must be available. */
    predicate CanChooseB()
      reads this
    {
      CanChooseA() && KeyB in choices
    }

    /** The completion banner, and so the Start Over button, is on screen. */
    predicate CanRestart()
      reads this
    {
      progress == Complete
    }

    /** A segment is on screen with no option buttons. */
    predicate DeadEnd()
      reads this
    {
      0 < progress < Complete && choices == map[]
    }

    /** The session as first created, and as re-created after Start Over. */
    predicate Initial()
      reads this
    {
      progress == 0 && story == [] && choices == map[] && goal == "" && animal == ""
    }

    constructor ()
      ensures Valid() && Initial()
    {
      progress := 0;
      story := [];
      choices := map[];
      goal := "";
      animal := "";
    }

    /** The Start button: the goal and animal are recorded whatever happens;
        a reply that mentions "Error" leaves the session at intake, any other
        reply becomes the first segment and its options. */
    method Start(learningGoal: string, chosen: string, response: string) returns (request: string)
      requires Valid() && CanStart() && chosen in Animals
      modifies this
      ensures Valid()
      ensures request == StoryRequest(learningGoal, chosen, "")
      ensures goal == learningGoal && animal == chosen
      ensures SignalsFailure(response) ==> progress == 0 && story == [] && choices == map[]
      ensures !SignalsFailure(response) ==>
                progress == 1 && story == [Parse(response).narrative] && choices == Parse(response).options
    {
      goal := learningGoal;
      animal := chosen;
      request := StoryRequest(goal, animal, "");
      if !SignalsFailure(response) {
        var narrative, options := ParseStoryWithChoices(response);
        story := [narrative];
        choices := options;
        progress := 1;
      }
    }

    /** The Option A button: the reply is appended as the next segment, its
        options replace the current ones, and progress advances by one. The
        reply is not checked for failure. */
    method ChooseA(response: string) returns (request: string)
      requires Valid() && CanChooseA()
      modifies this
      ensures Valid()
      ensures request == StoryRequest(goal, animal, ChoseA)
      ensures progress == old(progress) + 1
      ensures story == old(story) + [Parse(response).narrative]
      ensures choices == Parse(response).options
      ensures goal == old(goal) && animal == old(animal)
    {
      request := StoryRequest(goal, animal, ChoseA);
      var narrative, options := ParseStoryWithChoices(response);
      story := story + [narrative];
      choices := options;
      progress := progress + 1;
    }

    /** The Option B button: only the moral request is sent; the session
        itself is left as it is (this method has no `modifies` clause). */
    method ChooseB() returns (request: string)
      requires Valid() && CanChooseB()
      ensures request == MoralRequest(goal, animal)
    {
      request := MoralRequest(goal, animal);
    }

    /** The Start Over button: the session is cleared and re-created with
        its initial values. */
    method Restart()
      requires Valid() && CanRestart()
      modifies this
      ensures Valid() && Initial()
    {
      progress := 0;
      story := [];
      choices := map[];
      goal := "";
      animal := "";
    }

    /** Start with the failure test the story request's sentinels call for:
        the sentinel returned on a failed request, or on a reply without
        content, keeps the session at intake just like a reply that
        mentions "Error". */
    method StartDetectingFallback(learningGoal: string, chosen: string, response: string)
      returns (request: string)
      requires Valid() && CanStart() && chosen in Animals
      modifies this
      ensures Valid()
      ensures request == StoryRequest(learningGoal, chosen, "")
      ensures goal == learningGoal && animal == chosen
      ensures FetchFailed(response) ==> progress == 0 && story == [] && choices == map[]
      ensures !FetchFailed(response) ==>
                progress == 1 && story == [Parse(response).narrative] && choices == Parse(response).options
    {
      goal := learningGoal;
      animal := chosen;
      request := StoryRequest(goal, animal, "");
      if !FetchFailed(response) {
        var narrative, options := ParseStoryWithChoices(response);
        story := [narrative];
        choices := options;
        progress := 1;
      }
    }
  }

  /** A story reply that stands for a failed request. */
  predicate FetchFailed(response: string) {
    response == FetchFailure || response == NoContent || SignalsFailure(response)
  }

  /** The transport failure at Start, as the code handles it: the sentinel
      passes the "Error" test, becomes the first segment, and offers no
      options, so the session is stuck with neither buttons nor Start Over. */
  method FallbackStartDeadEnd(learningGoal: string, chosen: string) returns (s: StorySession)
    requires chosen in Animals
    ensures s.Valid() && s.DeadEnd()
    ensures s.progress == 1 && s.story == [FetchFailure]
  {
    s := new StorySession();
    FallbackNotFlagged();
    ParseSentinel(FetchFailure);
    var _ := s.Start(learningGoal, chosen, FetchFailure);
  }

  /** In a dead end no event is available: neither Start, nor either
      option, nor Start Over. */
  lemma DeadEndIsFinal(s: StorySession)
    requires s.DeadEnd()
    ensures !s.CanStart() && !s.CanChooseA() && !s.CanChooseB() && !s.CanRestart()
  {
  }

  /** A transport failure after Option A, before the last segment: the
      sentinel is appended as the next segment and the session is stuck. */
  method FallbackAfterOptionA(s: StorySession)
    requires s.Valid() && s.CanChooseA() && s.progress < Complete - 1
    modifies s
    ensures s.Valid() && s.DeadEnd()
    ensures s.progress == old(s.progress) + 1 && s.story == old(s.story) + [FetchFailure]
  {
    ParseSentinel(FetchFailure);
    var request := s.ChooseA(FetchFailure);
  }

  /** The same failure with the corrected test: the session stays at intake. */
  method FallbackStartStays(learningGoal: string, chosen: string) returns (s: StorySession)
    requires chosen in Animals
    ensures s.Valid() && !s.DeadEnd()
    ensures s.progress == 0 && s.story == [] && s.goal == learningGoal && s.animal == chosen
  {
    s := new StorySession();
    var _ := s.StartDetectingFallback(learningGoal, chosen, FetchFailure);
  }

  /** The narratives of the given story replies, in order. */
  function Narratives(replies: seq<string>): (ns: seq<string>)
    ensures |ns| == |replies|
    decreases |replies|
  {
    if replies == [] then []
    else Narratives(replies[..|replies| - 1]) + [Parse(replies[|replies| - 1]).narrative]
  }

  lemma NarrativesStep(replies: seq<string>, i: nat)
    requires i < |replies|
    ensures Narratives(replies[..i + 1]) == Narratives(replies[..i]) + [Parse(replies[i]).narrative]
  {
    assert replies[..i + 1][..i] == replies[..i];
  }

  /** Option A pressed once for each reply, from any segment, until the story
      is complete: each reply but the last must offer Option A again. The
      narratives are appended in order and goal and animal are kept. */
  method PressOptionAToEnd(s: StorySession, replies: seq<string>)
    requires s.Valid() && s.CanChooseA()
    requires |replies| == Complete - s.progress
    requires forall k :: 0 <= k < |replies| - 1 ==> KeyA in Parse(replies[k]).options
    modifies s
    ensures s.Valid() && s.progress == Complete
    ensures s.story == old(s.story) + Narratives(replies)
    ensures s.goal == old(s.goal) && s.animal == old(s.animal)
  {
    var i := 0;
    while i < |replies|
      invariant 0 <= i <= |replies|
      invariant s.Valid() && s.progress == old(s.progress) + i
      invariant s.story == old(s.story) + Narratives(replies[..i])
      invariant s.goal == old(s.goal) && s.animal == old(s.animal)
      invariant i < |replies| ==> s.CanChooseA()
    {
      var request := s.ChooseA(replies[i]);
      NarrativesStep(replies, i);
      i := i + 1;
    }
    assert replies[..i] == replies;
  }

  /** A whole adventure: a successful Start, then Option A three times with
      replies that offer Option A (except the last), reaches completion with
      the four narratives in order. */
  method PlayToCompletion(learningGoal: string, chosen: string, first: string, replies: seq<string>)
    returns (s: StorySession)
    requires chosen in Animals && !SignalsFailure(first) && KeyA in Parse(first).options
    requires |replies| == 3
    requires forall k :: 0 <= k < 2 ==> KeyA in Parse(replies[k]).options
    ensures fresh(s) && s.Valid() && s.progress == Complete
    ensures s.story == [Parse(first).narrative] + Narratives(replies)
    ensures s.goal == learningGoal && s.animal == chosen
  {
    s := new StorySession();
    var request := s.Start(learningGoal, chosen, first);
    PressOptionAToEnd(s, replies);
  }

  /** Start Over after a whole adventure gives back a session equal to a
      newly created one. */
  method PlayAndRestart(learningGoal: string, chosen: string, first: string, replies: seq<string>)
    returns (s: StorySession)
    requires chosen in Animals && !SignalsFailure(first) && KeyA in Parse(first).options
    requires |replies| == 3
    requires forall k :: 0 <= k < 2 ==> KeyA in Parse(replies[k]).options
    ensures s.Valid() && s.Initial()
  {
    s := PlayToCompletion(learningGoal, chosen, first, replies);
    s.Restart();
  }
}
