/** The agent's lifecycle hooks and the module-global "agent is speaking"
    flag they maintain, together with a value-level model of a session as
    a sequence of events, used to state what a whole run of hooks does. */
module Agent {
  import opened BargeIn

  /** The flag's value when the program starts. */
  const InitialSpeaking: bool := false

  /** The module-global `agent_is_speaking`. There is one per process, so
      every agent object reads and writes the same one. */
  class SpeakingFlag {
    var speaking: bool

    constructor()
      ensures speaking == InitialSpeaking
    {
      speaking := InitialSpeaking;
    }
  }

  /** The hooks a session calls on its agent. */
  datatype Event = Enter | ResponseComplete | Message(text: string)

  /** What one event does to the flag; a message leaves it alone. */
  function Step(speaking: bool, e: Event): bool {
    match e
    case Enter => true
    case ResponseComplete => false
    case Message(_) => speaking
  }

  /** `MyAgent`: its hooks update or read the shared flag. */
  class MyAgent {
    const flag: SpeakingFlag

    constructor(flag: SpeakingFlag)
      ensures this.flag == flag
    {
      this.flag := flag;
    }

    /** `on_enter`: the agent starts speaking. */
    method OnEnter()
      modifies flag
      ensures flag.speaking
      ensures flag.speaking == Step(old(flag.speaking), Enter)
    {
      flag.speaking := true;
    }

    /** `on_response_complete`: the agent has finished speaking. */
    method OnResponseComplete()
      modifies flag
      ensures !flag.speaking
      ensures flag.speaking == Step(old(flag.speaking), ResponseComplete)
    {
      flag.speaking := false;
    }

    /** `on_message`: reads the flag and changes nothing. */
    method OnMessage(message: string) returns (r: Option<string>)
      ensures r == Classify(flag.speaking, message)
      ensures r == None || r == Some(message)
      ensures !flag.speaking ==> r == Some(message)
    {
      r := Classify(flag.speaking, message);
    }
  }

  /** Two agents built over the same flag: one entering the session makes
      the other treat its transcripts as arriving while the agent speaks. */
  method SharedFlag(message: string) returns (before: Option<string>, after: Option<string>)
    ensures before == Some(message)
    ensures after == Classify(true, message)
  {
    var flag := new SpeakingFlag();
    var first := new MyAgent(flag);
    var second := new MyAgent(flag);
    before := second.OnMessage(message);
    first.OnEnter();
    after := second.OnMessage(message);
  }

  // ---------------------------------------------------------------------
  // A session as a sequence of events
  // ---------------------------------------------------------------------

  /** The flag after a sequence of events, starting from `speaking`. */
  function FlagAfter(speaking: bool, events: seq<Event>): bool
    decreases |events|
  {
    if events == [] then speaking else FlagAfter(Step(speaking, events[0]), events[1..])
  }

  /** The transcripts of a sequence of events, in order. */
  function Messages(events: seq<Event>): seq<string>
    decreases |events|
  {
    if events == [] then []
    else if events[0].Message? then [events[0].text] + Messages(events[1..])
    else Messages(events[1..])
  }

  /** The value of the flag that each `on_message` call of the sequence
      reads, in order, when the flag starts as `speaking`. */
  function FlagsSeen(speaking: bool, events: seq<Event>): (flags: seq<bool>)
    ensures |flags| == |Messages(events)|
    decreases |events|
  {
    if events == [] then []
    else if events[0].Message? then [speaking] + FlagsSeen(speaking, events[1..])
    else FlagsSeen(Step(speaking, events[0]), events[1..])
  }

  /** What `on_message` hands back for each transcript of the sequence, in
      order: the decision on that transcript under the flag it reads. */
  function Replies(speaking: bool, events: seq<Event>): (out: seq<Option<string>>)
    ensures |out| == |Messages(events)|
    ensures forall i :: 0 <= i < |out| ==> out[i] == None || out[i] == Some(Messages(events)[i])
  {
    var flags, messages := FlagsSeen(speaking, events), Messages(events);
    seq(|messages|, i requires 0 <= i < |messages| => Classify(flags[i], messages[i]))
  }

  /** Events are applied one after another. */
  lemma {:induction false} FlagAfterAppend(speaking: bool, events: seq<Event>, e: Event)
    ensures FlagAfter(speaking, events + [e]) == Step(FlagAfter(speaking, events), e)
    decreases |events|
  {
    if events == [] {
      assert events + [e] == [e];
    } else {
      assert (events + [e])[1..] == events[1..] + [e];
      FlagAfterAppend(Step(speaking, events[0]), events[1..], e);
    }
  }

  /** Whatever came before, the flag is set after `on_enter` and clear after
      `on_response_complete`, so repeating either hook changes nothing. */
  lemma LifecycleIdempotent(speaking: bool, events: seq<Event>)
    ensures FlagAfter(speaking, events + [Enter])
    ensures !FlagAfter(speaking, events + [ResponseComplete])
    ensures FlagAfter(speaking, events + [Enter] + [Enter]) == FlagAfter(speaking, events + [Enter])
    ensures FlagAfter(speaking, events + [ResponseComplete] + [ResponseComplete])
         == FlagAfter(speaking, events + [ResponseComplete])
  {
    FlagAfterAppend(speaking, events, Enter);
    FlagAfterAppend(speaking, events, ResponseComplete);
    FlagAfterAppend(speaking, events + [Enter], Enter);
    FlagAfterAppend(speaking, events + [ResponseComplete], ResponseComplete);
  }

  /** Messages alone never move the flag. */
  lemma {:induction false} MessagesKeepFlag(speaking: bool, events: seq<Event>)
    requires forall i :: 0 <= i < |events| ==> events[i].Message?
    ensures FlagAfter(speaking, events) == speaking
    decreases |events|
  {
    if events != [] {
      MessagesKeepFlag(speaking, events[1..]);
    }
  }

  /** The flag at the end of a sequence is decided by its last lifecycle
      event alone: set if that was `on_enter`, clear if it was
      `on_response_complete`. */
  lemma {:induction false} LastLifecycleDecides(speaking: bool, events: seq<Event>, j: nat)
    requires j < |events| && !events[j].Message?
    requires forall i :: j < i < |events| ==> events[i].Message?
    ensures FlagAfter(speaking, events) == (events[j] == Enter)
    decreases |events|
  {
    if j == 0 {
      MessagesKeepFlag(Step(speaking, events[0]), events[1..]);
    } else {
      LastLifecycleDecides(Step(speaking, events[0]), events[1..], j - 1);
    }
  }

  lemma {:induction false} MessagesAppend(e1: seq<Event>, e2: seq<Event>)
    ensures Messages(e1 + e2) == Messages(e1) + Messages(e2)
    decreases |e1|
  {
    if e1 == [] {
      assert e1 + e2 == e2;
    } else {
      assert (e1 + e2)[0] == e1[0] && (e1 + e2)[1..] == e1[1..] + e2;
      MessagesAppend(e1[1..], e2);
    }
  }

  /** In a session run in two parts, the second part reads the flag the
      first part left behind. */
  lemma {:induction false} FlagsSeenAppend(speaking: bool, e1: seq<Event>, e2: seq<Event>)
    ensures FlagsSeen(speaking, e1 + e2)
         == FlagsSeen(speaking, e1) + FlagsSeen(FlagAfter(speaking, e1), e2)
    decreases |e1|
  {
    if e1 == [] {
      assert e1 + e2 == e2;
    } else {
      assert (e1 + e2)[0] == e1[0] && (e1 + e2)[1..] == e1[1..] + e2;
      FlagsSeenAppend(Step(speaking, e1[0]), e1[1..], e2);
    }
  }

  /** Starting from a clear flag, a sequence without `on_enter` has every
      `on_message` call read a clear flag. */
  lemma {:induction false} SilentFlagsSeen(speaking: bool, events: seq<Event>, i: nat)
    requires !speaking
    requires forall k :: 0 <= k < |events| ==> events[k] != Enter
    requires i < |FlagsSeen(speaking, events)|
    ensures !FlagsSeen(speaking, events)[i]
    decreases |events|
  {
    var rest := events[1..];
    if events[0].Message? {
      if i > 0 {
        SilentFlagsSeen(speaking, rest, i - 1);
      }
    } else {
      SilentFlagsSeen(Step(speaking, events[0]), rest, i);
    }
  }

  /** Until the agent first enters, nothing is dropped: starting from a
      clear flag, a sequence without `on_enter` forwards every transcript
      as it was received. */
  lemma NothingDroppedBeforeEnter(speaking: bool, events: seq<Event>)
    requires !speaking
    requires forall i :: 0 <= i < |events| ==> events[i] != Enter
    ensures forall i :: 0 <= i < |Messages(events)| ==> Replies(speaking, events)[i] == Some(Messages(events)[i])
  {
    forall i | 0 <= i < |Messages(events)|
      ensures Replies(speaking, events)[i] == Some(Messages(events)[i])
    {
      SilentReply(speaking, events, i);
    }
  }

  lemma SilentReply(speaking: bool, events: seq<Event>, i: nat)
    requires !speaking
    requires forall k :: 0 <= k < |events| ==> events[k] != Enter
    requires i < |Messages(events)|
    ensures Replies(speaking, events)[i] == Some(Messages(events)[i])
  {
    SilentFlagsSeen(speaking, events, i);
  }

  /** A transcript that arrives after `on_enter`, with only other
      transcripts in between, is judged as arriving while the agent
      speaks. */
  lemma MessageAfterEnter(speaking: bool, before: seq<Event>, between: seq<Event>, m: string)
    requires forall i :: 0 <= i < |between| ==> between[i].Message?
    ensures FlagsSeen(speaking, before + [Enter] + between + [Message(m)])
         == FlagsSeen(speaking, before + [Enter] + between) + [true]
    ensures Replies(speaking, before + [Enter] + between + [Message(m)])[|Messages(before + [Enter] + between)|]
         == Classify(true, m)
  {
    var pre := before + [Enter] + between;
    var n := |Messages(pre)|;
    assert FlagAfter(speaking, pre) by {
      LastLifecycleDecides(speaking, pre, |before|);
    }
    assert FlagsSeen(true, [Message(m)]) == [true] && Messages([Message(m)]) == [m] by {
      assert [Message(m)][1..] == [];
    }
    FlagsSeenAppend(speaking, pre, [Message(m)]);
    MessagesAppend(pre, [Message(m)]);
    assert FlagsSeen(speaking, pre + [Message(m)])[n] && Messages(pre + [Message(m)])[n] == m;
  }
}
