/** A worked example of `parse_story_with_choices`: a four-line reply with
    one narrative line before the options and one after them. */
module ParserExample {
  import opened PyStr
  import opened StoryParser

  const Opening := "Once upon a time."
  const TextA := "Share the berries."
  const TextB := "Keep them all."
  const Closing := "The end of part 1."

  /** "Option A: Share the berries." */
  const LineA := MarkerA + " " + TextA
  /** "Option B: Keep them all." */
  const LineB := MarkerB + " " + TextB

  /** The four lines joined with newlines. */
  const Reply := Opening + "\n" + (LineA + "\n" + (LineB + "\n" + Closing))

  /** Splitting the reply on newlines gives back its four lines. */
  lemma ReplyLines()
    ensures Lines(Reply) == [Opening, LineA, LineB, Closing]
  {
    var parts := [Opening, LineA, LineB, Closing];
    assert parts[1..] == [LineA, LineB, Closing];
    assert parts[1..][1..] == [LineB, Closing];
    assert parts[1..][1..][1..] == [Closing];
    assert Join([LineB, Closing], "\n") == LineB + "\n" + Closing;
    assert Join([LineA, LineB, Closing], "\n") == LineA + "\n" + (LineB + "\n" + Closing);
    assert Join(parts, "\n") == Reply;
    NoNewlines();
    SplitJoin(parts, "\n");
  }

  lemma NoNewlines()
    ensures '\n' !in Opening && '\n' !in LineA && '\n' !in LineB && '\n' !in Closing
  {
  }

  /** The narrative lines mention neither marker. */
  lemma NarrativeLinesHaveNoMarkers()
    ensures IsNarrative(Opening) && IsNarrative(Closing)
  {
    assert ':' !in Opening && ':' !in Closing;
    AbsentChar(Opening, MarkerA, 8);
    AbsentChar(Opening, MarkerB, 8);
    AbsentChar(Closing, MarkerA, 8);
    AbsentChar(Closing, MarkerB, 8);
  }

  /** A line made of a marker, one space and a stripped text in which some
      non-space character of the marker does not occur: the marker is
      found at the start, and the option text is the text. */
  lemma OptionTextAfterMarker(marker: string, text: string, k: nat)
    requires marker != [] && k < |marker| && marker[k] != ' ' && marker[k] !in text
    requires Stripped(text)
    ensures Contains(marker + " " + text, marker)
    ensures OptionText(marker + " " + text, marker) == text
  {
    var line := marker + " " + text;
    assert MatchAt(line, marker, 0) by {
      assert line[0..|marker|] == marker;
    }
    ContainsMatch(line, marker);
    var rest := line[|marker|..];
    assert rest == " " + text;
    assert marker[k] !in rest;
    AbsentChar(rest, marker, k);
    var field := SecondField(line, marker);
    assert field == rest;
    assert rest[1..|rest|] == text;
    StripUnique(rest, 1, |rest|);
  }

  lemma OptionTextsStripped()
    ensures Stripped(TextA) && Stripped(TextB)
    ensures 'A' !in TextA && 'B' !in TextB && 'A' !in LineB
  {
  }

  /** Each option line sets its own option to its text; the Option B line
      does not mention "Option A:". */
  lemma OptionLines()
    ensures Contains(LineA, MarkerA) && OptionText(LineA, MarkerA) == TextA
    ensures !Contains(LineB, MarkerA) && Contains(LineB, MarkerB)
    ensures OptionText(LineB, MarkerB) == TextB
  {
    OptionTextsStripped();
    OptionTextAfterMarker(MarkerA, TextA, 7);
    OptionTextAfterMarker(MarkerB, TextB, 7);
    AbsentChar(LineB, MarkerA, 7);
  }

  /** Scanning one more line applies the loop body once more. */
  lemma ScanLinesSnoc(lines: seq<string>, line: string)
    ensures ScanLines(lines + [line]) == ScanLine(ScanLines(lines), line)
  {
    assert (lines + [line])[..|lines|] == lines;
  }

  /** The loop body on a narrative line, on a line with "Option A:", and on
      a line with "Option B:" but not "Option A:". */
  lemma ScanLineCases(acc: Scan, line: string)
    ensures IsNarrative(line) ==> ScanLine(acc, line) == Scan(acc.text + line + "\n", acc.options)
    ensures Contains(line, MarkerA) ==>
              ScanLine(acc, line) == Scan(acc.text, acc.options[KeyA := OptionText(line, MarkerA)])
    ensures !Contains(line, MarkerA) && Contains(line, MarkerB) ==>
              ScanLine(acc, line) == Scan(acc.text, acc.options[KeyB := OptionText(line, MarkerB)])
  {
  }

  /** The loop's state after a narrative line, an Option A line, an
      Option B line and another narrative line. */
  lemma ScanFour(l0: string, l1: string, l2: string, l3: string)
    requires IsNarrative(l0) && IsNarrative(l3)
    requires Contains(l1, MarkerA) && !Contains(l2, MarkerA) && Contains(l2, MarkerB)
    ensures ScanLines([l0, l1, l2, l3]) ==
              Scan(l0 + "\n" + l3 + "\n",
                   map[KeyA := OptionText(l1, MarkerA), KeyB := OptionText(l2, MarkerB)])
  {
    var s0 := Scan("", map[]);
    var s1 := ScanLine(s0, l0);
    var s2 := ScanLine(s1, l1);
    var s3 := ScanLine(s2, l2);
    ScanLineCases(s0, l0);
    ScanLineCases(s1, l1);
    ScanLineCases(s2, l2);
    ScanLineCases(s3, l3);
    assert [] + [l0] == [l0] && [l0] + [l1] == [l0, l1];
    assert [l0, l1] + [l2] == [l0, l1, l2] && [l0, l1, l2] + [l3] == [l0, l1, l2, l3];
    ScanLinesSnoc([], l0);
    ScanLinesSnoc([l0], l1);
    ScanLinesSnoc([l0, l1], l2);
    ScanLinesSnoc([l0, l1, l2], l3);
    assert "" + l0 + "\n" == l0 + "\n";
  }

  /** The loop's state after the four lines of the reply. */
  lemma ScanReply()
    ensures ScanLines([Opening, LineA, LineB, Closing]) ==
              Scan(Opening + "\n" + Closing + "\n", map[KeyA := TextA, KeyB := TextB])
  {
    NarrativeLinesHaveNoMarkers();
    OptionLines();
    ScanFour(Opening, LineA, LineB, Closing);
  }

  /** The narrative is the two outer lines; the options are the texts of
      the two marked lines. */
  lemma ParseExample()
    ensures Parse(Reply).narrative == Opening + "\n" + Closing
    ensures Parse(Reply).options == map[KeyA := TextA, KeyB := TextB]
  {
    ReplyLines();
    ScanReply();
    var narrative := Opening + "\n" + Closing;
    StripTrailingSpace(narrative, '\n');
    NarrativeStripped();
    assert narrative[0..|narrative|] == narrative;
    StripUnique(narrative, 0, |narrative|);
  }

  lemma NarrativeStripped()
    ensures Stripped(Opening + "\n" + Closing)
  {
  }
}
