/** `parse_story_with_choices`: splits the model's reply into lines, takes
    every line that mentions "Option A:" or "Option B:" as the text of that
    option, and keeps every other line as narrative. */
module StoryParser {
  import opened PyStr

  const MarkerA := "Option A:"
  const MarkerB := "Option B:"
  const KeyA := "Option A"
  const KeyB := "Option B"

  /** The loop's state: the narrative accumulated so far (each kept line
      followed by a newline, not yet stripped) and the options dictionary. */
  datatype Scan = Scan(text: string, options: map<string, string>)

  /** What the parser returns: the stripped narrative and the options. */
  datatype Parsed = Parsed(narrative: string, options: map<string, string>)

  /** The line is taken as the text of `key`: "Option A:" wins over
      "Option B:" when a line mentions both. */
  predicate SetsKey(line: string, key: string) {
    || (key == KeyA && Contains(line, MarkerA))
    || (key == KeyB && !Contains(line, MarkerA) && Contains(line, MarkerB))
  }

  /** The line mentions neither marker and belongs to the narrative. */
  predicate IsNarrative(line: string) {
    !Contains(line, MarkerA) && !Contains(line, MarkerB)
  }

  /** `line.split(marker)[1].strip()`. */
  function OptionText(line: string, marker: string): (r: string)
    requires marker != [] && Contains(line, marker)
    ensures Stripped(r) && !Contains(r, marker)
  {
    var field := SecondField(line, marker);
    StripKeepsAbsence(field, marker);
    Strip(field)
  }

  /** One iteration of the loop body. */
  function ScanLine(acc: Scan, line: string): Scan {
    if Contains(line, MarkerA) then
      Scan(acc.text, acc.options[KeyA := OptionText(line, MarkerA)])
    else if Contains(line, MarkerB) then
      Scan(acc.text, acc.options[KeyB := OptionText(line, MarkerB)])
    else
      Scan(acc.text + line + "\n", acc.options)
  }

  /** The loop's state after the given lines, processed in order. */
  function ScanLines(lines: seq<string>): (r: Scan)
    ensures r.options.Keys <= {KeyA, KeyB}
    decreases |lines|
  {
    if lines == [] then Scan("", map[])
    else ScanLine(ScanLines(lines[..|lines| - 1]), lines[|lines| - 1])
  }

  /** The lines of the narrative, in order. */
  function NarrativeLines(lines: seq<string>): (r: seq<string>)
    ensures |r| <= |lines|
    ensures forall k :: 0 <= k < |r| ==> IsNarrative(r[k])
    decreases |lines|
  {
    if lines == [] then []
    else
      var last := lines[|lines| - 1];
      NarrativeLines(lines[..|lines| - 1]) + (if IsNarrative(last) then [last] else [])
  }

  /** The lines of the reply, as `content.split("\n")` gives them. */
  function Lines(content: string): seq<string> {
    Split(content, "\n")
  }

  /** The functional reading of `parse_story_with_choices`. */
  function Parse(content: string): (p: Parsed)
    ensures Stripped(p.narrative)
    ensures p.options.Keys <= {KeyA, KeyB}
  {
    var scan := ScanLines(Lines(content));
    Parsed(Strip(scan.text), scan.options)
  }

  /** One line adds the key it sets, if any, and no other. */
  lemma ScanLineKeys(acc: Scan, line: string)
    ensures forall key :: key in ScanLine(acc, line).options <==> key in acc.options || SetsKey(line, key)
  {
  }

  /** The option keys after scanning some lines: a key is present exactly
      when some line sets it, and no other key is ever present. */
  lemma {:induction false} ScanOptionKeys(lines: seq<string>)
    ensures ScanLines(lines).options.Keys <= {KeyA, KeyB}
    ensures forall key :: key in ScanLines(lines).options <==>
              exists k :: 0 <= k < |lines| && SetsKey(lines[k], key)
    decreases |lines|
  {
    if lines != [] {
      var init := lines[..|lines| - 1];
      var last := lines[|lines| - 1];
      var prev := ScanLines(init);
      assert ScanLines(lines) == ScanLine(prev, last);
      ScanOptionKeys(init);
      ScanLineKeys(prev, last);
      forall key
        ensures key in ScanLines(lines).options <==>
                exists k :: 0 <= k < |lines| && SetsKey(lines[k], key)
      {
        if key in prev.options {
          var k :| 0 <= k < |init| && SetsKey(init[k], key);
          assert lines[k] == init[k];
        } else if SetsKey(last, key) {
          assert SetsKey(lines[|lines| - 1], key);
        } else {
          forall k | 0 <= k < |lines| ensures !SetsKey(lines[k], key) {
            if k < |init| {
              assert lines[k] == init[k];
            }
          }
        }
      }
    }
  }

  /** The value of an option is the text of the last line that sets it. */
  lemma {:induction false} ScanOptionValue(lines: seq<string>, key: string, k: nat)
    requires k < |lines| && SetsKey(lines[k], key)
    requires forall j :: k < j < |lines| ==> !SetsKey(lines[j], key)
    ensures key in ScanLines(lines).options
    ensures ScanLines(lines).options[key] ==
              OptionText(lines[k], if key == KeyA then MarkerA else MarkerB)
    decreases |lines|
  {
    var init := lines[..|lines| - 1];
    var last := lines[|lines| - 1];
    assert ScanLines(lines) == ScanLine(ScanLines(init), last);
    if k < |lines| - 1 {
      assert init[k] == lines[k];
      assert !SetsKey(last, key);
      ScanOptionValue(init, key, k);
    }
  }

  /** The accumulated narrative text: the narrative lines joined with
      newlines, plus one trailing newline when there is any. */
  lemma {:induction false} ScanText(lines: seq<string>)
    ensures ScanLines(lines).text == NarrativeText(NarrativeLines(lines))
    decreases |lines|
  {
    if lines != [] {
      var init := lines[..|lines| - 1];
      var last := lines[|lines| - 1];
      var prev := ScanLines(init);
      assert ScanLines(lines).text == ScanLine(prev, last).text;
      ScanText(init);
      ScanLineText(prev, last);
      if IsNarrative(last) {
        assert NarrativeLines(lines) == NarrativeLines(init) + [last];
        NarrativeTextAppend(NarrativeLines(init), last);
      } else {
        assert NarrativeLines(lines) == NarrativeLines(init);
      }
    }
  }

  /** The narrative lines, each followed by a newline, as the loop
      accumulates them. */
  function NarrativeText(nl: seq<string>): string {
    if nl == [] then "" else Join(nl, "\n") + "\n"
  }

  /** One line adds itself and a newline to the text if it is narrative,
      and nothing otherwise. */
  lemma ScanLineText(acc: Scan, line: string)
    ensures ScanLine(acc, line).text == if IsNarrative(line) then acc.text + line + "\n" else acc.text
  {
  }

  lemma NarrativeTextAppend(nl: seq<string>, line: string)
    ensures NarrativeText(nl + [line]) == NarrativeText(nl) + line + "\n"
  {
    if nl == [] {
      assert nl + [line] == [line];
    } else {
      JoinAppend(nl, line, "\n");
    }
  }

  /** The narrative is the stripped join of the non-marker lines. */
  lemma ParseNarrative(content: string)
    ensures Parse(content).narrative == Strip(Join(NarrativeLines(Lines(content)), "\n"))
  {
    var nl := NarrativeLines(Lines(content));
    ScanText(Lines(content));
    if nl != [] {
      StripTrailingSpace(Join(nl, "\n"), '\n');
    }
  }

  /** Option keys of a parse: "Option A" is present exactly when some line
      mentions "Option A:", "Option B" exactly when some line mentions
      "Option B:" without "Option A:". */
  lemma ParseOptionKeys(content: string)
    ensures Parse(content).options.Keys <= {KeyA, KeyB}
    ensures KeyA in Parse(content).options <==>
              exists k :: 0 <= k < |Lines(content)| && Contains(Lines(content)[k], MarkerA)
    ensures KeyB in Parse(content).options <==>
              exists k :: 0 <= k < |Lines(content)| && !Contains(Lines(content)[k], MarkerA)
                                                  && Contains(Lines(content)[k], MarkerB)
  {
    var lines := Lines(content);
    ScanOptionKeys(lines);
    assert KeyA in Parse(content).options <==> exists k :: 0 <= k < |lines| && SetsKey(lines[k], KeyA);
    assert KeyB in Parse(content).options <==> exists k :: 0 <= k < |lines| && SetsKey(lines[k], KeyB);
  }

  /** Option values of a parse: when several lines set an option, the last
      one wins. Its value is the text that follows the first occurrence of
      the marker in that line, up to the next occurrence or the end of the
      line, with the surrounding whitespace removed. */
  lemma ParseOptionValue(content: string, key: string, k: nat)
    requires k < |Lines(content)| && SetsKey(Lines(content)[k], key)
    requires forall j :: k < j < |Lines(content)| ==> !SetsKey(Lines(content)[j], key)
    ensures key in Parse(content).options
    ensures var marker := if key == KeyA then MarkerA else MarkerB;
            var line := Lines(content)[k];
            exists i, a, b, e :: && MatchAt(line, marker, i)
                                 && NoMatchBetween(line, marker, 0, i)
                                 && i + |marker| <= a <= b <= e <= |line|
                                 && Parse(content).options[key] == line[a..b]
                                 && Stripped(line[a..b])
                                 && SpaceBetween(line, i + |marker|, a) && SpaceBetween(line, b, e)
                                 && !Contains(line[i + |marker|..e], marker)
                                 && NoMatchBetween(line, marker, i + |marker|, e)
                                 && (e == |line| || MatchAt(line, marker, e))
  {
    var lines := Lines(content);
    var marker := if key == KeyA then MarkerA else MarkerB;
    ScanOptionValue(lines, key, k);
    var line := lines[k];
    var i, a, b, e := StrippedSecondField(line, marker);
    assert Parse(content).options[key] == line[a..b];
  }

  /** A line that mentions both markers sets "Option A" only and adds
      nothing to the narrative. */
  lemma BothMarkersLine(lines: seq<string>, line: string)
    requires Contains(line, MarkerA) && Contains(line, MarkerB)
    ensures ScanLines(lines + [line]).text == ScanLines(lines).text
    ensures ScanLines(lines + [line]).options ==
              ScanLines(lines).options[KeyA := OptionText(line, MarkerA)]
    ensures SetsKey(line, KeyA) && !SetsKey(line, KeyB) && !IsNarrative(line)
  {
    assert (lines + [line])[..|lines|] == lines;
  }

  /** A reply that mentions neither marker has no options, and its
      narrative is the whole reply stripped. */
  lemma ParseWithoutMarkers(content: string)
    requires !Contains(content, MarkerA) && !Contains(content, MarkerB)
    ensures Parse(content).options == map[]
    ensures Parse(content).narrative == Strip(content)
  {
    var lines := Lines(content);
    LinesWithoutMarkers(content);
    AllNarrative(lines);
    JoinSplit(content, "\n");
    ParseNarrative(content);
    ParseOptionKeys(content);
  }

  /** A reply that mentions neither marker has no line that does. */
  lemma LinesWithoutMarkers(content: string)
    requires !Contains(content, MarkerA) && !Contains(content, MarkerB)
    ensures forall k :: 0 <= k < |Lines(content)| ==> IsNarrative(Lines(content)[k])
  {
    var lines := Lines(content);
    JoinSplit(content, "\n");
    forall k | 0 <= k < |lines| ensures IsNarrative(lines[k]) {
      if Contains(lines[k], MarkerA) { JoinContains(lines, "\n", k, MarkerA); }
      if Contains(lines[k], MarkerB) { JoinContains(lines, "\n", k, MarkerB); }
    }
  }

  /** When every line is narrative, the narrative lines are all the lines. */
  lemma {:induction false} AllNarrative(lines: seq<string>)
    requires forall k :: 0 <= k < |lines| ==> IsNarrative(lines[k])
    ensures NarrativeLines(lines) == lines
    decreases |lines|
  {
    if lines != [] {
      AllNarrative(lines[..|lines| - 1]);
      assert lines[..|lines| - 1] + [lines[|lines| - 1]] == lines;
    }
  }

  /** `parse_story_with_choices(content)`: the loop over the lines of the
      reply, accumulating the narrative and filling the options dictionary. */
  method ParseStoryWithChoices(content: string) returns (story: string, options: map<string, string>)
    ensures Parsed(story, options) == Parse(content)
    ensures Stripped(story) && options.Keys <= {KeyA, KeyB}
  {
    var storyText := "";
    options := map[];
    var lines := Split(content, "\n");
    var i := 0;
    while i < |lines|
      invariant 0 <= i <= |lines|
      invariant Scan(storyText, options) == ScanLines(lines[..i])
    {
      var line := lines[i];
      assert lines[..i + 1][..i] == lines[..i] && lines[..i + 1][i] == line;
      assert ScanLines(lines[..i + 1]) == ScanLine(ScanLines(lines[..i]), line);
      if Contains(line, MarkerA) {
        options := options[KeyA := OptionText(line, MarkerA)];
      } else if Contains(line, MarkerB) {
        options := options[KeyB := OptionText(line, MarkerB)];
      } else {
        storyText := storyText + line + "\n";
      }
      i := i + 1;
    }
    assert lines[..i] == lines;
    assert Scan(storyText, options) == ScanLines(Lines(content));
    story := Strip(storyText);
  }
}
