# Interactive kids' story app — a Dafny model

The app is a single Streamlit page (`kids_app.py`). A child enters a learning
goal and picks an animal. A chat-completion service then writes a story in
segments. Every segment ends with two options. "Option A" continues the story;
"Option B" asks the service for a short moral explanation of why that choice
is not the best one. After four segments the page congratulates the child and
offers "Start Over".

This project models the logic of that page:

- **`py_str.dfy` (module `PyStr`).** The Python `str` operations the parser
  relies on, with their exact semantics:
  - `strip()` uses Python's whitespace set;
  - `pat in s` is modelled by `Find` (the leftmost match) and `Contains`;
  - `split(sep)`, `sep.join(parts)` and `split(sep)[1]` are modelled too.
- **`story_parser.dfy` (module `StoryParser`).** `parse_story_with_choices`:
  - the loop over the reply's lines, written as a method with an invariant;
  - the function `Parse` that specifies it;
  - lemmas on which option keys appear, which text each key gets, and what
    the narrative is.
- **`story_service.dfy` (module `StoryService`).** The text the page
  exchanges with the service:
  - the two user messages;
  - the annotation sent after Option A;
  - the failure sentinels the two fetch functions return;
  - the page's "Error" test on a story reply.
- **`session.dfy` (module `Session`).** The session state (`progress`,
  `story`, `choices`, `goal`, `animal`) as the class `StorySession`:
  - the invariant `Valid` that every event preserves;
  - the four events, as methods: Start, Option A, Option B and Start Over;
  - predicates saying which buttons are on screen;
  - whole-adventure clients;
  - the dead end that a failed fetch causes (see Findings).
- **`parser_example.dfy` (module `ParserExample`).** A worked parse of a
  four-line reply.

The service replies are parameters of the events. The model is proved over
every possible reply, including the failure sentinels.

## Model

| member | source | states |
|---|---|---|
| PyStr.Strip | kids_app.py:108 | the result is the slice of the input between a leading and a trailing run of whitespace, and has no whitespace at either end |
| PyStr.StripUnique | kids_app.py:108 | any slice bordered by whitespace runs and without whitespace at its own ends is the result of `strip()`: this fully characterises `strip()` |
| PyStr.StripIdempotent | kids_app.py:108 | stripping a stripped string changes nothing |
| PyStr.StripTrailingSpace | kids_app.py:107-108 | the newline appended after each narrative line does not change the stripped narrative |
| PyStr.Find | kids_app.py:102-105 | returns an index where the pattern occurs with no occurrence before it, or none when the pattern occurs nowhere |
| PyStr.ContainsMatch | kids_app.py:102 | `pat in s` holds exactly when the pattern occurs at some index |
| PyStr.Split | kids_app.py:100 | there is at least one piece; there are two or more exactly when the separator occurs; no piece contains the separator |
| PyStr.JoinSplit | kids_app.py:100 | joining the pieces of `split(sep)` with `sep` gives back the original text |
| PyStr.SplitJoin | kids_app.py:100 | splitting a newline-join of lines without newlines gives back those lines |
| PyStr.SecondField | kids_app.py:103 | `split(sep)[1]` is a prefix of the text after the first occurrence; no occurrence of the separator starts inside it; it ends where the next occurrence starts or at the end of the text |
| PyStr.SecondFieldAt | kids_app.py:103 | locates `split(sep)[1]` in the line: it starts after the leftmost occurrence and ends at the next occurrence, with none starting in between, or at the end of the line |
| PyStr.StrippedSecondField | kids_app.py:103 | `split(sep)[1].strip()` is a slice of the line bordered by whitespace, which in turn lies between the first occurrence of the separator and the next one (none starts in between) or the end |
| StoryParser.OptionText | kids_app.py:103 | an option's text has no surrounding whitespace and never contains its own marker |
| StoryParser.ScanLines | kids_app.py:101-107 | the loop only ever stores the keys "Option A" and "Option B" |
| StoryParser.ScanOptionKeys | kids_app.py:101-105 | after the loop, a key is present exactly when some line sets it ("Option A:" wins on a line that mentions both markers) |
| StoryParser.ScanOptionValue | kids_app.py:101-105 | a key's stored text comes from the last line that sets it |
| StoryParser.ScanText | kids_app.py:106-107 | the accumulated text is the marker-free lines in order, each followed by a newline |
| StoryParser.Parse | kids_app.py:97-108 | the narrative has no surrounding whitespace, and the option keys are among "Option A" and "Option B" |
| StoryParser.ParseNarrative | kids_app.py:100-108 | the narrative is the strip of the marker-free lines joined with newlines |
| StoryParser.ParseOptionKeys | kids_app.py:100-105 | "Option A" is present exactly when some line contains "Option A:"; "Option B" is present exactly when some line contains "Option B:" but not "Option A:" |
| StoryParser.ParseOptionValue | kids_app.py:100-105 | the text of a key comes from the last line that sets it: it is a slice of that line with no whitespace at its ends, with only whitespace between it and the marker's first occurrence before it, and only whitespace between it and the marker's next occurrence (or the end of the line) after it |
| StoryParser.BothMarkersLine | kids_app.py:102-105 | a line with both markers sets only "Option A" and adds nothing to the narrative |
| StoryParser.ParseWithoutMarkers | kids_app.py:97-108 | a reply without markers gives no options, and its narrative is the whole reply stripped |
| StoryParser.ParseStoryWithChoices | kids_app.py:97-108 | the loop returns exactly `Parse(content)` |
| ParserExample.ParseExample | kids_app.py:97-108 | for a reply with a narrative line, an Option A line, an Option B line and a narrative line, the narrative is the two outer lines and the options are the two texts |
| ParserExample.OptionTextAfterMarker | kids_app.py:103 | on a line "marker text", the option text is exactly the text |
| ParserExample.ScanFour | kids_app.py:101-107 | the loop's state after a narrative line, an Option A line, an Option B line and a narrative line |
| StoryService.StoryRequest | kids_app.py:80 | the user message starts with the lesson phrase, holds the goal right after it, and ends with the annotation; its length is the sum of the parts |
| StoryService.StoryRequestInjective | kids_app.py:80 | when goals have no full stop, equal messages mean equal goals and animals |
| StoryService.MoralRequest | kids_app.py:119 | the moral message holds the animal after its opening phrase and ends with the fixed question |
| StoryService.MoralRequestInjective | kids_app.py:119 | when animal names have no comma, equal moral messages mean equal animals and goals |
| StoryService.FallbackNotFlagged | kids_app.py:94 | neither story sentinel contains "Error", so the page's failure test at line 157 misses both |
| StoryService.ParsePlain | kids_app.py:97-108 | a stripped reply without a colon parses to itself with no options |
| StoryService.ParseSentinel | kids_app.py:89-94 | each story sentinel parses to a narrative equal to itself, with no options |
| Session.StorySession.constructor | kids_app.py:137-142 | the fresh session is at intake, with an empty story, no choices, and an empty goal and animal |
| Session.StorySession.Start | kids_app.py:153-164 | records the goal and animal, and sends the story request with no annotation; a reply that mentions "Error" leaves the session at intake, while any other reply becomes segment 1 with its options; `Valid` is kept |
| Session.StorySession.ChooseA | kids_app.py:196-206 | sends the request annotated "Child chose Option A"; appends the parsed narrative, replaces the choices and adds one to progress; keeps goal, animal and `Valid` |
| Session.StorySession.ChooseB | kids_app.py:208-209 | sends the moral request for the session's goal and animal, and changes no state |
| Session.StorySession.Restart | kids_app.py:224-226 | the session is equal to a freshly created one |
| Session.StorySession.StartDetectingFallback | kids_app.py:153-164 | corrected Start: either sentinel, or any reply mentioning "Error", keeps the session at intake |
| Session.FallbackStartDeadEnd | kids_app.py:153-164 | as written, a failed fetch at Start shows the sentinel as segment 1 with no options: a dead end |
| Session.DeadEndIsFinal | kids_app.py:145-226 | in a dead end, no button is on screen: not Start, not either option, not Start Over |
| Session.FallbackAfterOptionA | kids_app.py:196-206 | a failed fetch after Option A, before the last segment, appends the sentinel and leads to a dead end |
| Session.FallbackStartStays | kids_app.py:153-164 | with the corrected test, a failed fetch leaves the session at intake and not in a dead end |
| Session.PressOptionAToEnd | kids_app.py:194-206 | pressing Option A once per reply reaches completion, appends the narratives in order and keeps goal and animal, provided each reply but the last offers Option A |
| Session.PlayToCompletion | kids_app.py:153-206 | a successful Start plus three Option A presses gives a complete, valid session whose story is the four narratives in order |
| Session.PlayAndRestart | kids_app.py:153-226 | Start Over after a complete adventure gives the initial session |

## Left out

- The HTTP calls (lines 86-88, 126-128), the reading of the service's JSON
  reply, and the `st.error` messages are not modelled. Each reply the
  service could return is a parameter of the event. The sentinel strings of
  lines 89 and 94 are modelled as constants.
- Temperature, `top_p`, `max_tokens` and the system prompts are fixed
  payload data that no logic of the page reads.
- Page rendering is not modelled: the background image, the stars, the
  HTML and CSS, the warning text of line 158, the display of the moral
  explanation (lines 210-217) and `st.rerun`. Environment and API-key
  loading are left out too. The moral request's reply, including its
  sentinel on line 131, is only displayed, so no event takes it.
- Session.StorySession.ChooseA: its requires names "Option A" among the
  choices. On line 196, a non-empty dictionary without that key raises
  `KeyError` while the page renders. The model has no crash, so that state
  simply offers no Option A event. Session.StorySession.ChooseB needs both
  keys for the same reason, because the Option A button is drawn before the
  Option B button.
- Python dictionaries keep insertion order; `map` does not. No logic of the
  page depends on that order.
- The model follows the code where the design description of the app
  differs from it:
  - Options may remain in `choices` at progress 4; the description says
    they are cleared.
  - An empty learning goal is accepted, because the code does not check it.
  - A failed fetch at Start advances the session (see Findings).
- Streamlit's rerun model is simplified: each button press is one atomic
  event on the session, and Start Over's `clear` plus re-initialisation is
  one method.
- Python `str` is modelled as a sequence of Unicode scalar values (`char`).
  Lone surrogates cannot be represented.

## Findings

| source | as written | input that shows it | evidently intended | confidence | as-written member | corrected member |
|---|---|---|---|---|---|---|
| kids_app.py:157 | the Start handler treats a reply as failed only if it contains "Error" with a capital E; the story request's sentinel (line 94) says "error" and the no-content default (line 89) has no such word, so both are parsed as segment 1 with no options, and the page shows neither option buttons nor Start Over | a failing HTTP request at Start, which returns "Unable to fetch the story due to an error." | a failed fetch keeps the session at intake with the warning, so that the child can try again | not executed | Session.FallbackStartDeadEnd | Session.StorySession.StartDetectingFallback |

Session.StorySession.Start stays the model of the code as written. On a reply
that is not a failure, the as-written Start and the corrected one behave the
same. Session.PlayToCompletion and Session.PlayAndRestart therefore use the
as-written Start: the code as written completes and restarts an adventure.
