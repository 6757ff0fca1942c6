/** The barge-in classifier of the basic voice agent: while the agent is
    speaking, a user transcript is dropped when it is only a passive
    acknowledgement and forwarded otherwise; while the agent is silent every
    transcript is forwarded. */
module BargeIn {
  import opened PyStr

  datatype Option<T> = None | Some(value: T)

  /** Passive acknowledgements, dropped while the agent speaks. */
  const IgnoreWords: seq<string> := ["yeah", "ok", "okay", "hmm", "uh-huh", "right"]

  /** Explicit interruption commands; note the two-word entry. */
  const InterruptWords: seq<string> := ["stop", "wait", "no", "hold on"]

  /** `message.lower().strip()` */
  function Text(message: string): string {
    Strip(Lower(message))
  }

  /** `text.split()` of that normalised text. */
  function Words(message: string): seq<string> {
    Split(Text(message))
  }

  /** `any(word in text for word in INTERRUPT_WORDS)`: a raw substring test,
      not a comparison of words. */
  predicate ContainsInterrupt(text: string) {
    exists k :: 0 <= k < |InterruptWords| && Occurs(InterruptWords[k], text)
  }

  /** `len(words) > 0 and all(word in IGNORE_WORDS for word in words)`:
      exact membership of each word. */
  predicate OnlySoftWords(words: seq<string>) {
    |words| > 0 && forall k :: 0 <= k < |words| ==> words[k] in IgnoreWords
  }

  /** `MyAgent.on_message`: what the hook hands back to the session, either
      the transcript exactly as received or `None` to drop it. Interruption
      is tested before acknowledgement. */
  function Classify(speaking: bool, message: string): (r: Option<string>)
    ensures r == None || r == Some(message)
    ensures !speaking ==> r == Some(message)
    ensures speaking && ContainsInterrupt(Text(message)) ==> r == Some(message)
    ensures r == None <==>
              speaking && !ContainsInterrupt(Text(message)) && OnlySoftWords(Words(message))
  {
    var text := Text(message);
    var words := Split(text);
    var containsInterrupt := ContainsInterrupt(text);
    var onlySoftWords := OnlySoftWords(words);
    if speaking then
      if containsInterrupt then Some(message)       // real interruption
      else if onlySoftWords then None               // passive acknowledgement
      else Some(message)                            // semantic interruption
    else
      Some(message)                                 // agent silent
  }

  // ---------------------------------------------------------------------
  // Normalisation: case and surrounding whitespace play no part
  // ---------------------------------------------------------------------

  /** Two transcripts with the same normalised text are treated alike, and
      each forwarded one is forwarded as itself. */
  lemma SameTextSameDecision(speaking: bool, m1: string, m2: string)
    requires Text(m1) == Text(m2)
    ensures Classify(speaking, m1) == None <==> Classify(speaking, m2) == None
    ensures Classify(speaking, m1) != None ==> Classify(speaking, m1) == Some(m1)
    ensures Classify(speaking, m2) != None ==> Classify(speaking, m2) == Some(m2)
  {
  }

  /** Lower-casing a transcript first changes nothing in the decision. */
  lemma CaseInsensitive(speaking: bool, m: string)
    ensures Text(Lower(m)) == Text(m)
    ensures Classify(speaking, Lower(m)) == None <==> Classify(speaking, m) == None
  {
    LowerIdempotent(m);
  }

  /** Whitespace around a transcript changes nothing in the decision. */
  lemma PaddingInsensitive(speaking: bool, ws1: string, m: string, ws2: string)
    requires AllSpace(ws1) && AllSpace(ws2)
    ensures Text(ws1 + m + ws2) == Text(m)
    ensures Classify(speaking, ws1 + m + ws2) == None <==> Classify(speaking, m) == None
  {
    LowerConcat(ws1 + m, ws2);
    LowerConcat(ws1, m);
    LowerAllSpace(ws1);
    LowerAllSpace(ws2);
    StripPadding(ws1, Lower(m), ws2);
  }

  // ---------------------------------------------------------------------
  // Empty and whitespace-only transcripts
  // ---------------------------------------------------------------------

  /** A transcript has no words exactly when it is all whitespace. */
  lemma NoWordsIffBlank(m: string)
    ensures Words(m) == [] <==> AllSpace(m)
  {
    var low := Lower(m);
    LowerKeepsSpace(m);
    StripEmptyIff(low);
    StripShape(low);
    SplitEmptyIff(Text(m));
    assert AllSpace(low) <==> AllSpace(m);
  }

  /** An empty or whitespace-only transcript is never a passive
      acknowledgement, so it is forwarded even while the agent speaks. */
  lemma BlankForwarded(speaking: bool, m: string)
    requires AllSpace(m)
    ensures !OnlySoftWords(Words(m))
    ensures Classify(speaking, m) == Some(m)
  {
    NoWordsIffBlank(m);
  }

  // ---------------------------------------------------------------------
  // What the shipped word lists imply
  // ---------------------------------------------------------------------

  /** Every interrupt entry holds one of `s`, `w`, `n`, `l`, so a text
      without those letters contains no interrupt entry. */
  lemma NoInterruptLetters(text: string)
    requires 's' !in text && 'w' !in text && 'n' !in text && 'l' !in text
    ensures !ContainsInterrupt(text)
  {
    forall k | 0 <= k < |InterruptWords|
      ensures !Occurs(InterruptWords[k], text)
    {
      var w := InterruptWords[k];
      var c := if k == 0 then 's' else if k == 1 then 'w' else if k == 2 then 'n' else 'l';
      assert c in w;
      if Occurs(w, text) {
        OccursChars(w, text, c);
      }
    }
  }

  /** No acknowledgement word holds any of `s`, `w`, `n`, `l`. */
  lemma SoftWordLetters(w: string)
    requires w in IgnoreWords
    ensures 's' !in w && 'w' !in w && 'n' !in w && 'l' !in w
  {
  }

  /** Every acknowledgement word ends in a small letter. */
  lemma SoftWordEnd(w: string)
    ensures w in IgnoreWords ==> w != [] && 'a' <= w[|w| - 1] <= 'z'
  {
  }

  /** With the shipped lists the tie-break is never exercised: a transcript
      made only of acknowledgements never contains an interrupt entry. */
  lemma ShippedListsNeverTie(m: string)
    requires OnlySoftWords(Words(m))
    ensures !ContainsInterrupt(Text(m))
  {
    var text := Text(m);
    var words := Words(m);
    forall j | 0 <= j < |text|
      ensures text[j] != 's' && text[j] != 'w' && text[j] != 'n' && text[j] != 'l'
    {
      if !IsSpace(text[j]) {
        SplitCovers(text, j);
        var k :| 0 <= k < |words| && text[j] in words[k];
        SoftWordLetters(words[k]);
      }
    }
    NoInterruptLetters(text);
  }

  /** Hence, with the shipped lists, a transcript is dropped exactly when
      the agent is speaking and every word is an acknowledgement; the
      substring quirk of the interrupt test never changes the return value. */
  lemma DroppedIffOnlySoftWords(speaking: bool, m: string)
    ensures Classify(speaking, m) == None <==> speaking && OnlySoftWords(Words(m))
  {
    if OnlySoftWords(Words(m)) {
      ShippedListsNeverTie(m);
    }
  }

  // ---------------------------------------------------------------------
  // Worked transcripts
  // ---------------------------------------------------------------------

  /** A transcript whose lower-cased form neither starts nor ends with
      whitespace normalises to that lower-cased form. */
  lemma TextUnpadded(m: string)
    requires Lower(m) != [] && !IsSpace(Lower(m)[0]) && !IsSpace(Lower(m)[|m| - 1])
    ensures Text(m) == Lower(m)
  {
    StripUnpadded(Lower(m));
  }

  /** Words separated by single spaces come back as those words. */
  lemma WordsOfJoined(m: string, ws: seq<string>)
    requires forall k :: 0 <= k < |ws| ==> ws[k] != [] && NoSpace(ws[k])
    requires Text(m) == Join(ws)
    ensures Words(m) == ws
  {
    SplitJoin(ws);
  }

  /** An interrupt entry found at a position makes the text an interruption. */
  lemma InterruptAt(text: string, k: nat, i: nat)
    requires k < |InterruptWords| && OccursAt(InterruptWords[k], text, i)
    ensures ContainsInterrupt(text)
  {
    OccursIff(InterruptWords[k], text);
  }

  /** "no" found at a position makes the text an interruption. */
  lemma NoAt(t: string, i: nat)
    requires i + 1 < |t| && t[i] == 'n' && t[i + 1] == 'o'
    ensures ContainsInterrupt(t)
  {
    OccursAtByChars(InterruptWords[2], t, i);
    InterruptAt(t, 2, i);
  }

  lemma YeahOkText(m: string)
    requires m == "Yeah OK"
    ensures Text(m) == "yeah ok"
  {
    assert Lower(m) == "yeah ok";
    TextUnpadded(m);
  }

  lemma YeahOkWords(m: string)
    requires m == "Yeah OK"
    ensures Words(m) == ["yeah", "ok"]
  {
    YeahOkText(m);
    WordsOfJoined(m, ["yeah", "ok"]);
  }

  /** "Yeah OK" while the agent speaks is dropped. */
  lemma YeahOkDropped(m: string)
    requires m == "Yeah OK"
    ensures OnlySoftWords(Words(m))
    ensures Classify(true, m) == None
  {
    YeahOkWords(m);
    DroppedIffOnlySoftWords(true, m);
  }

  lemma KnowText(m: string)
    requires m == "I know"
    ensures Text(m) == "i know"
  {
    assert Lower(m) == "i know";
    TextUnpadded(m);
  }

  lemma KnowWords(m: string)
    requires m == "I know"
    ensures Words(m) == ["i", "know"]
  {
    KnowText(m);
    WordsOfJoined(m, ["i", "know"]);
  }

  /** Neither word of "I know" is an interrupt entry. */
  lemma KnowNoEntry(m: string)
    requires m == "I know"
    ensures forall k :: 0 <= k < |Words(m)| ==> Words(m)[k] !in InterruptWords
  {
    KnowWords(m);
  }

  /** "I know" contains the entry "no" inside the word "know", so it is
      forwarded as a real interruption. */
  lemma KnowContainsNo(m: string)
    requires m == "I know"
    ensures ContainsInterrupt(Text(m))
    ensures Classify(true, m) == Some(m)
  {
    assert |Text(m)| == 6 && Text(m)[3] == 'n' && Text(m)[4] == 'o' by {
      KnowText(m);
    }
    NoAt(Text(m), 3);
  }

  lemma HoldOnText(m: string)
    requires m == "Hold on"
    ensures Text(m) == "hold on"
  {
    assert Lower(m) == "hold on";
    TextUnpadded(m);
  }

  lemma HoldOnWords(m: string)
    requires m == "Hold on"
    ensures Words(m) == ["hold", "on"]
  {
    HoldOnText(m);
    WordsOfJoined(m, ["hold", "on"]);
  }

  /** Neither word of "Hold on" is an interrupt entry. */
  lemma HoldOnNoEntry(m: string)
    requires m == "Hold on"
    ensures forall k :: 0 <= k < |Words(m)| ==> Words(m)[k] !in InterruptWords
  {
    HoldOnWords(m);
  }

  /** "Hold on" matches the two-word entry across the word boundary. */
  lemma HoldOnAcrossWords(m: string)
    requires m == "Hold on"
    ensures ContainsInterrupt(Text(m))
    ensures Classify(true, m) == Some(m)
  {
    assert OccursAt(InterruptWords[3], Text(m), 0) by {
      HoldOnText(m);
      assert Text(m)[0..7] == InterruptWords[3];
    }
    InterruptAt(Text(m), 3, 0);
  }

  lemma PunctuatedText(m: string)
    requires m == "Yeah."
    ensures Text(m) == "yeah."
  {
    assert Lower(m) == "yeah.";
    TextUnpadded(m);
  }

  lemma PunctuatedWords(m: string)
    requires m == "Yeah."
    ensures Words(m) == ["yeah."]
  {
    PunctuatedText(m);
    WordsOfJoined(m, ["yeah."]);
  }

  /** The full stop stays in the word, so "Yeah." is not an
      acknowledgement. */
  lemma PunctuatedNotSoft(m: string)
    requires m == "Yeah."
    ensures !OnlySoftWords(Words(m))
  {
    PunctuatedWords(m);
    var w := Words(m)[0];
    assert w == "yeah." && w[4] == '.';
    SoftWordEnd(w);
  }

  lemma PunctuatedNoInterrupt(m: string)
    requires m == "Yeah."
    ensures !ContainsInterrupt(Text(m))
  {
    assert 's' !in Text(m) && 'w' !in Text(m) && 'n' !in Text(m) && 'l' !in Text(m) by {
      PunctuatedText(m);
    }
    NoInterruptLetters(Text(m));
  }

  /** "Yeah." holds no interrupt entry and is still forwarded while the
      agent speaks, as a semantic interruption. */
  lemma PunctuatedAckForwarded(m: string)
    requires m == "Yeah."
    ensures !ContainsInterrupt(Text(m))
    ensures Classify(true, m) == Some(m)
  {
    PunctuatedNoInterrupt(m);
    PunctuatedNotSoft(m);
  }

  lemma StopCommandText(m: string)
    requires m == "No, wait, stop"
    ensures Text(m) == "no, wait, stop"
  {
    assert Lower(m) == "no, wait, stop";
    TextUnpadded(m);
  }

  lemma StopCommandJoined(m: string)
    requires m == "No, wait, stop"
    ensures Text(m) == Join(["no,", "wait,", "stop"])
  {
    StopCommandText(m);
    assert Join(["no,", "wait,", "stop"]) == "no," + " " + ("wait," + " " + "stop");
  }

  lemma StopCommandWords(m: string)
    requires m == "No, wait, stop"
    ensures Words(m) == ["no,", "wait,", "stop"]
  {
    StopCommandJoined(m);
    WordsOfJoined(m, ["no,", "wait,", "stop"]);
  }

  /** "No, wait, stop" is a real interruption, and what is forwarded is the
      transcript as received, capitals and commas included. */
  lemma StopCommandForwarded(m: string)
    requires m == "No, wait, stop"
    ensures ContainsInterrupt(Text(m))
    ensures Classify(true, m) == Some("No, wait, stop")
    ensures Classify(true, m) != Some(Text(m))
  {
    assert |Text(m)| == 14 && Text(m)[0] == 'n' && Text(m)[1] == 'o' by {
      StopCommandText(m);
    }
    assert Text(m) != m by {
      StopCommandText(m);
      assert Text(m)[0] != m[0];
    }
    NoAt(Text(m), 0);
  }

  lemma NonstopText(m: string)
    requires m == "Nonstop"
    ensures Text(m) == "nonstop"
  {
    assert Lower(m) == "nonstop";
    TextUnpadded(m);
  }

  /** "Nonstop" is one word, and that word is no interrupt entry. */
  lemma NonstopWords(m: string)
    requires m == "Nonstop"
    ensures Words(m) == ["nonstop"]
    ensures Words(m)[0] !in InterruptWords
  {
    NonstopText(m);
    WordsOfJoined(m, ["nonstop"]);
  }

  /** Yet "Nonstop" contains the entry "stop" at offset 3, so it is
      forwarded as a real interruption. */
  lemma NonstopContainsStop(m: string)
    requires m == "Nonstop"
    ensures OccursAt(InterruptWords[0], Text(m), 3)
    ensures ContainsInterrupt(Text(m))
    ensures Classify(true, m) == Some(m)
  {
    assert OccursAt(InterruptWords[0], Text(m), 3) by {
      NonstopText(m);
      assert Text(m)[3..7] == InterruptWords[0];
    }
    InterruptAt(Text(m), 0, 3);
  }
}
