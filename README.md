# Barge-in classifier of the basic voice agent

The basic voice agent decides what happens to a user's transcript that
arrives while the agent may be talking. Its hook `MyAgent.on_message` does
three things with the transcript:

- it lower-cases it, strips it and splits it into words;
- it tests whether any entry of `INTERRUPT_WORDS` occurs in the text as a
  substring;
- it tests whether the word list is non-empty with every word in
  `IGNORE_WORDS`.

Then it returns the transcript as received, or `None` to drop it. A single
module-global flag, `agent_is_speaking`, starts `False`. `on_enter` sets it
and `on_response_complete` clears it. `on_message` only reads it.

The project has three modules:

- `PyStr` (`pystr.dfy`) states the Python string operations the hook uses,
  as functions with proved properties:
  - `lower()`, on ASCII only;
  - `strip()` and `split()`, over the whitespace set of `str.isspace`.
    Both are written as the index scans CPython performs: `strip()` skips
    whitespace forward from the start, then backward from the end but not
    past where the forward scan stopped; `split()` alternates a whitespace
    scan and a word scan;
  - `w in t` on strings.
- `BargeIn` (`barge_in.dfy`) holds the two word lists, the normalisation,
  the two tests and `Classify`, a function of the flag and the transcript
  that returns the hook's value. Lemmas about it cover:
  - indifference to case and surrounding whitespace;
  - blank transcripts;
  - the substring behaviour of the interrupt test;
  - the fact that, with the shipped lists, a transcript is dropped exactly
    when the agent speaks and every word is an acknowledgement;
  - worked transcripts.
- `Agent` (`agent.dfy`) holds the flag as a class (`SpeakingFlag`) and the
  agent as a class (`MyAgent`) whose hooks update or read that shared
  object. One agent's `OnEnter` is observed by another agent over the same
  flag. A value-level model of a session as a sequence of hook calls
  (`Event`, `FlagAfter`, `FlagsSeen`, `Replies`) states what a run of hooks does.

Three consequences of the code are worth stating:

- A transcript that normalises to no words is never dropped. `len(words) > 0`
  (:94) makes `only_soft_words` false, so while the agent speaks it reaches
  the semantic-interruption branch (`BargeIn.BlankForwarded`).
- The hook returns the message or `None`. Its three forwarding branches
  return the same value.
- The word lists are fixed constants. Nothing checks that they are disjoint.

## Model

| member | source | states |
|---|---|---|
| BargeIn.IgnoreWords | examples/voice_agents/basic_agent.py:34-36 | the six passive acknowledgements, in the order of the source; `SoftWordLetters` and `SoftWordEnd` state what the model relies on about them |
| BargeIn.InterruptWords | examples/voice_agents/basic_agent.py:39-41 | the four interrupt entries, the last one two words long; `NoInterruptLetters` states what the model relies on about them |
| BargeIn.Text | examples/voice_agents/basic_agent.py:90 | `message.lower().strip()`; characterised by `CaseInsensitive`, `PaddingInsensitive` and `TextUnpadded` |
| BargeIn.Words | examples/voice_agents/basic_agent.py:91 | `text.split()` of the normalised text; characterised by `NoWordsIffBlank` and `WordsOfJoined` |
| BargeIn.ContainsInterrupt | examples/voice_agents/basic_agent.py:93 | some interrupt entry occurs in the text as a substring; characterised by `InterruptAt`, `NoAt` and `NoInterruptLetters` |
| BargeIn.OnlySoftWords | examples/voice_agents/basic_agent.py:94 | there is at least one word and every word is an acknowledgement; characterised by `BlankForwarded` and `ShippedListsNeverTie` |
| Agent.Step | examples/voice_agents/basic_agent.py:65-115 | `on_enter` sets the flag, `on_response_complete` clears it, `on_message` leaves it; characterised by `LifecycleIdempotent` and `MessagesKeepFlag` |
| Agent.FlagAfter | examples/voice_agents/basic_agent.py:65-115 | the flag after a sequence of hook calls; characterised by `FlagAfterAppend` and `LastLifecycleDecides` |
| Agent.Messages | examples/voice_agents/basic_agent.py:83-115 | the transcripts of a sequence of hook calls, in order; characterised by `MessagesAppend` |
| PyStr.IsSpace | examples/voice_agents/basic_agent.py:90-91 | the code points `strip()` and `split()` treat as whitespace, those `str.isspace` accepts |
| PyStr.Strip | examples/voice_agents/basic_agent.py:90 | `strip()`: forward scan, then backward scan not past it; characterised by `StripShape`, `StripEmptyIff`, `StripPadding` and `StripUnpadded` |
| PyStr.SplitFrom | examples/voice_agents/basic_agent.py:91 | the words from an index on; characterised by `SplitFromShift` and the lemmas on `Split` |
| PyStr.Split | examples/voice_agents/basic_agent.py:91 | `split()` with no separator; characterised by `SplitWords`, `SplitEmptyIff`, `SplitContents`, `SplitCovers` and `SplitJoin` |
| PyStr.Occurs | examples/voice_agents/basic_agent.py:93 | `w in t`; characterised by `OccursIff` and `OccursChars` |
| Agent.SpeakingFlag.constructor | examples/voice_agents/basic_agent.py:31 | the flag starts cleared (`InitialSpeaking` is false) |
| Agent.MyAgent.constructor | examples/voice_agents/basic_agent.py:53-63 | an agent is built over the one shared flag |
| Agent.MyAgent.OnEnter | examples/voice_agents/basic_agent.py:65-73 | the flag is set whatever it was before; only the flag may change |
| Agent.MyAgent.OnResponseComplete | examples/voice_agents/basic_agent.py:75-81 | the flag is cleared whatever it was before; only the flag may change |
| Agent.MyAgent.OnMessage | examples/voice_agents/basic_agent.py:83-115 | returns `Classify` of the current flag and the message; it modifies nothing, so the flag is only read; the result is `None` or the message itself, and the message itself whenever the flag is clear |
| Agent.SharedFlag | examples/voice_agents/basic_agent.py:65-115 | the flag is one global: before another agent enters, a transcript is forwarded unchanged; after that, the same transcript is judged as if the agent were speaking |
| Agent.FlagsSeen | examples/voice_agents/basic_agent.py:83-88 | over a sequence of hook calls, each `on_message` call reads one flag value, so there is one value per transcript |
| Agent.Replies | examples/voice_agents/basic_agent.py:83-115 | over a sequence of hook calls there is one reply per transcript, and each is `None` or that transcript |
| Agent.FlagAfterAppend | examples/voice_agents/basic_agent.py:65-81 | the flag after a sequence plus one more call is that call's effect on the flag the sequence left |
| Agent.LifecycleIdempotent | examples/voice_agents/basic_agent.py:65-81 | after any history the flag is set by `on_enter` and cleared by `on_response_complete`; repeating either changes nothing |
| Agent.MessagesKeepFlag | examples/voice_agents/basic_agent.py:83-115 | a run of `on_message` calls leaves the flag as it was |
| Agent.LastLifecycleDecides | examples/voice_agents/basic_agent.py:65-81 | the flag at any point is set exactly when the most recent lifecycle call was `on_enter` |
| Agent.MessagesAppend | examples/voice_agents/basic_agent.py:83-115 | the transcripts of two consecutive parts of a session are those of the first part followed by those of the second |
| Agent.FlagsSeenAppend | examples/voice_agents/basic_agent.py:65-115 | in a session run in two parts, the second part's `on_message` calls read the flag the first part left behind |
| Agent.SilentFlagsSeen | examples/voice_agents/basic_agent.py:31 | from the cleared flag, without `on_enter`, every `on_message` call reads a clear flag |
| Agent.NothingDroppedBeforeEnter | examples/voice_agents/basic_agent.py:101-115 | from the cleared flag, a session without `on_enter` forwards every transcript as received |
| Agent.MessageAfterEnter | examples/voice_agents/basic_agent.py:65-111 | a transcript arriving after `on_enter`, with only transcripts in between, reads a set flag and is classified as arriving while the agent speaks |
| BargeIn.Classify | examples/voice_agents/basic_agent.py:83-115 | the result is `None` or the original, un-normalised message; it is the message when the agent is silent, and when the agent speaks and an interrupt entry occurs in the text (even if every word is also an acknowledgement); it is `None` exactly when the agent speaks, no interrupt entry occurs and every one of at least one word is an acknowledgement |
| BargeIn.SameTextSameDecision | examples/voice_agents/basic_agent.py:90-94 | two messages with the same lower-cased, stripped text get the same decision, and each forwarded message is forwarded as itself |
| BargeIn.CaseInsensitive | examples/voice_agents/basic_agent.py:90 | lower-casing a message first changes neither its text nor whether it is dropped |
| BargeIn.PaddingInsensitive | examples/voice_agents/basic_agent.py:90 | whitespace added before and after a message changes neither its text nor whether it is dropped |
| BargeIn.NoWordsIffBlank | examples/voice_agents/basic_agent.py:90-91 | a message yields no words exactly when it is empty or all whitespace |
| BargeIn.BlankForwarded | examples/voice_agents/basic_agent.py:90-111 | an empty or whitespace-only message is never all acknowledgements, so it is forwarded even while the agent speaks |
| BargeIn.NoInterruptLetters | examples/voice_agents/basic_agent.py:39-41 | a text with none of `s`, `w`, `n`, `l` contains no interrupt entry |
| BargeIn.SoftWordLetters | examples/voice_agents/basic_agent.py:34-36 | no acknowledgement word holds `s`, `w`, `n` or `l` |
| BargeIn.SoftWordEnd | examples/voice_agents/basic_agent.py:34-36 | every acknowledgement word is non-empty and ends in a small letter |
| BargeIn.ShippedListsNeverTie | examples/voice_agents/basic_agent.py:34-94 | with the shipped lists, a message made only of acknowledgements contains no interrupt entry, so the interrupt-first tie-break never decides a result |
| BargeIn.DroppedIffOnlySoftWords | examples/voice_agents/basic_agent.py:93-111 | with the shipped lists, a message is dropped exactly when the agent speaks and every one of at least one word is an acknowledgement |
| BargeIn.TextUnpadded | examples/voice_agents/basic_agent.py:90 | a message whose lower-cased form neither starts nor ends with whitespace normalises to that lower-cased form |
| BargeIn.WordsOfJoined | examples/voice_agents/basic_agent.py:91 | a text made of non-empty, whitespace-free words separated by single spaces yields exactly those words |
| BargeIn.InterruptAt | examples/voice_agents/basic_agent.py:93 | an interrupt entry standing at some position makes the text an interruption |
| BargeIn.NoAt | examples/voice_agents/basic_agent.py:93 | the letters `n`, `o` side by side anywhere make the text an interruption |
| BargeIn.YeahOkText | examples/voice_agents/basic_agent.py:90 | `"Yeah OK"` normalises to `"yeah ok"` |
| BargeIn.YeahOkWords | examples/voice_agents/basic_agent.py:91 | `"Yeah OK"` splits into `yeah`, `ok` |
| BargeIn.YeahOkDropped | examples/voice_agents/basic_agent.py:94-108 | `"Yeah OK"` while the agent speaks is all acknowledgements and is dropped |
| BargeIn.KnowText | examples/voice_agents/basic_agent.py:90 | `"I know"` normalises to `"i know"` |
| BargeIn.KnowWords | examples/voice_agents/basic_agent.py:91 | `"I know"` splits into `i`, `know` |
| BargeIn.KnowNoEntry | examples/voice_agents/basic_agent.py:91-93 | neither word of `"I know"` is an interrupt entry |
| BargeIn.KnowContainsNo | examples/voice_agents/basic_agent.py:93-105 | `"I know"` contains the entry `no` inside `know`, so it is forwarded as a real interruption |
| BargeIn.HoldOnText | examples/voice_agents/basic_agent.py:90 | `"Hold on"` normalises to `"hold on"` |
| BargeIn.HoldOnWords | examples/voice_agents/basic_agent.py:91 | `"Hold on"` splits into `hold`, `on` |
| BargeIn.HoldOnNoEntry | examples/voice_agents/basic_agent.py:91-93 | neither word of `"Hold on"` is an interrupt entry |
| BargeIn.HoldOnAcrossWords | examples/voice_agents/basic_agent.py:93-105 | the two-word entry `hold on` matches across the word boundary, so `"Hold on"` is forwarded |
| BargeIn.PunctuatedText | examples/voice_agents/basic_agent.py:90 | `"Yeah."` normalises to `"yeah."` |
| BargeIn.PunctuatedWords | examples/voice_agents/basic_agent.py:91 | `"Yeah."` is the one word `yeah.` |
| BargeIn.PunctuatedNotSoft | examples/voice_agents/basic_agent.py:94 | the full stop stays in the word, so `"Yeah."` is not all acknowledgements |
| BargeIn.PunctuatedNoInterrupt | examples/voice_agents/basic_agent.py:93 | `"Yeah."` contains no interrupt entry |
| BargeIn.PunctuatedAckForwarded | examples/voice_agents/basic_agent.py:93-111 | `"Yeah."` holds no interrupt entry yet is forwarded while the agent speaks, as a semantic interruption |
| BargeIn.StopCommandText | examples/voice_agents/basic_agent.py:90 | `"No, wait, stop"` normalises to `"no, wait, stop"` |
| BargeIn.StopCommandJoined | examples/voice_agents/basic_agent.py:90-91 | that text is the words `no,`, `wait,`, `stop` joined by single spaces |
| BargeIn.StopCommandWords | examples/voice_agents/basic_agent.py:91 | `"No, wait, stop"` splits into `no,`, `wait,`, `stop`, commas kept |
| BargeIn.StopCommandForwarded | examples/voice_agents/basic_agent.py:90-105 | `"No, wait, stop"` contains an interrupt entry and is forwarded as received, capitals and commas included, not as its lower-cased text |
| BargeIn.NonstopText | examples/voice_agents/basic_agent.py:90 | `"Nonstop"` normalises to `"nonstop"` |
| BargeIn.NonstopWords | examples/voice_agents/basic_agent.py:91-93 | `"Nonstop"` is the one word `nonstop`, which is no interrupt entry |
| BargeIn.NonstopContainsStop | examples/voice_agents/basic_agent.py:93-105 | yet `stop` occurs in it at offset 3, so `"Nonstop"` is forwarded as a real interruption |
| PyStr.LowerChar | examples/voice_agents/basic_agent.py:90 | an ASCII capital maps to its small letter; every other code point is kept; no capital remains |
| PyStr.Lower | examples/voice_agents/basic_agent.py:90 | `lower()` keeps the length and maps each code point in place |
| PyStr.LowerIdempotent | examples/voice_agents/basic_agent.py:90 | lower-casing twice is lower-casing once |
| PyStr.LowerConcat | examples/voice_agents/basic_agent.py:90 | lower-casing distributes over concatenation |
| PyStr.LowerKeepsSpace | examples/voice_agents/basic_agent.py:90 | a code point is whitespace after lower-casing exactly when it was before |
| PyStr.LowerAllSpace | examples/voice_agents/basic_agent.py:90 | lower-casing leaves whitespace-only text unchanged |
| PyStr.SkipSpace | examples/voice_agents/basic_agent.py:90 | the forward scan of `strip()` stops within the string, and where it stops before the end there is non-whitespace |
| PyStr.SkipSpaceRun | examples/voice_agents/basic_agent.py:90 | every code point the forward scan passes over is whitespace |
| PyStr.BackSpace | examples/voice_agents/basic_agent.py:90 | the backward scan of `strip()` never goes below where the forward scan stopped, and where it stops above that there is non-whitespace just before |
| PyStr.BackSpaceRun | examples/voice_agents/basic_agent.py:90 | every code point the backward scan passes over is whitespace |
| PyStr.AllSpaceSkip | examples/voice_agents/basic_agent.py:90 | over all-whitespace text the forward scan runs to the end |
| PyStr.StripShape | examples/voice_agents/basic_agent.py:90 | `strip()` returns a contiguous slice with only whitespace cut from both sides, and a non-empty result starts and ends with non-whitespace |
| PyStr.StripPadding | examples/voice_agents/basic_agent.py:90 | whitespace placed around a string is gone after `strip()` |
| PyStr.StripUnpadded | examples/voice_agents/basic_agent.py:90 | a non-empty string that starts and ends with non-whitespace strips to itself |
| PyStr.StripEmptyIff | examples/voice_agents/basic_agent.py:90 | `strip()` returns the empty string exactly when the input is all whitespace |
| PyStr.SkipWord | examples/voice_agents/basic_agent.py:91 | the word scan of `split()` stops within the string, and where it stops before the end there is whitespace |
| PyStr.SkipWordRun | examples/voice_agents/basic_agent.py:91 | every code point the word scan passes over is non-whitespace |
| PyStr.SplitWords | examples/voice_agents/basic_agent.py:91 | every word of `split()` is non-empty and free of whitespace |
| PyStr.SplitEmptyIff | examples/voice_agents/basic_agent.py:91 | `split()` finds no words exactly when the input is all whitespace |
| PyStr.SplitFromShift | examples/voice_agents/basic_agent.py:91 | the words found after a prefix are the words of the rest alone |
| PyStr.SplitWordFirst | examples/voice_agents/basic_agent.py:91 | a whitespace-free word followed by whitespace or the end is the first word, and the rest splits on its own |
| PyStr.SplitPrefixSpace | examples/voice_agents/basic_agent.py:91 | one leading space changes nothing in `split()` |
| PyStr.SplitContents | examples/voice_agents/basic_agent.py:91 | the words, read one after another, are exactly the input's non-whitespace code points in order |
| PyStr.SplitCovers | examples/voice_agents/basic_agent.py:91 | every non-whitespace code point of the input lies in some word |
| PyStr.SplitJoin | examples/voice_agents/basic_agent.py:91 | non-empty words free of whitespace, joined by single spaces, split back into the same words |
| PyStr.OccursIff | examples/voice_agents/basic_agent.py:93 | `w in t` holds exactly when `w` stands in `t` at some position |
| PyStr.OccursChars | examples/voice_agents/basic_agent.py:93 | every code point of an occurring string is a code point of the text |

## Left out

- Logging, the `print` calls and `.env` loading (:1-7, :43-46, :72, :81, :96-99, :104-114). They are output only and do not affect any returned value.
- `self.session.generate_reply()` (:73) and the instructions string given to `Agent.__init__` (:54-63). They are calls into the voice-agent runtime and a language-model prompt.
- `lookup_weather` (:118-123). It is a stub tool returning a constant string.
- Server and session setup, the voice-activity prewarm, metrics and the shutdown callback (:130-182). They are runtime, network and library plumbing. So is the `false_interruption_timeout=1.0` setting (:155).
- The coroutine scheduling of the hooks. Hook calls are modelled as happening one after another; interleavings inside the runtime are not modelled.
- PyStr.Lower: maps only ASCII capitals. Python's `str.lower()` also maps non-ASCII letters and can change a string's length (`'İ'` becomes two code points). This can change a decision: Python maps U+212A KELVIN SIGN to ASCII `k`, so while the agent speaks `"O\u212A"` normalises to `"ok"` and is dropped by the source, while the model keeps the sign and forwards the message.
- PyStr.IsSpace: fixes the code points that `str.isspace` accepts in current Python (the list in its doc comment). Code points that a later Unicode version may add as whitespace are not tracked.
