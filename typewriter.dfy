/** The typewriter hook: a phrase-cycling state machine that types a phrase
    one character at a time, pauses, deletes it one character at a time and
    moves on to the next phrase, forever.

    Each run of the hook's effect makes exactly one decision on the current
    state. Here one run, together with the timer callback it schedules, is
    one call of Step (the pure transition) or of Hook.Tick (the same
    transition on the hook's three mutable state cells). */
module Typewriter {

  /** The hook's three state cells: the text shown, the index of the phrase
      being typed, and whether it is typing (true) or deleting (false). */
  datatype State = State(text: string, phraseIndex: nat, isTyping: bool)

  /** The four branches of the effect body. */
  datatype Decision = Type | Pause | Delete | Advance

  /** Which of the hook's delay parameters the scheduled timer uses;
      Immediate means the update happens inside the effect, with no timer. */
  datatype Delay = TypingSpeed | PauseDuration | DeletingSpeed | Immediate

  datatype Option<T> = None | Some(value: T)

  /** The hook's delay parameters, in milliseconds. */
  datatype Speeds = Speeds(typingSpeed: int, deletingSpeed: int, pauseDuration: int)

  /** The parameter defaults of the hook. */
  const DefaultSpeeds := Speeds(100, 50, 2000)

  /** The state on mount. */
  const Initial := State("", 0, true)

  function DelayOf(d: Decision): Delay {
    match d
    case Type => TypingSpeed
    case Pause => PauseDuration
    case Delete => DeletingSpeed
    case Advance => Immediate
  }

  /** The timeout handed to the timer for a delay label, or None when no
      timer is scheduled. */
  function Timeout(delay: Delay, speeds: Speeds): Option<int> {
    match delay
    case TypingSpeed => Some(speeds.typingSpeed)
    case PauseDuration => Some(speeds.pauseDuration)
    case DeletingSpeed => Some(speeds.deletingSpeed)
    case Immediate => None
  }

  /** The state invariant: the index is in range and the text shown is a
      prefix of the phrase at that index. */
  predicate Inv(phrases: seq<string>, s: State) {
    s.phraseIndex < |phrases| && s.text <= phrases[s.phraseIndex]
  }

  /** The branch the effect body takes on state s. */
  function Decide(phrases: seq<string>, s: State): Decision
    requires s.phraseIndex < |phrases|
  {
    if s.isTyping then
      if |s.text| < |phrases[s.phraseIndex]| then Type else Pause
    else
      if |s.text| > 0 then Delete else Advance
  }

  /** One effect run and the update it schedules. Every run changes the
      state (no state is stuck), keeps the index in range and preserves the
      prefix invariant. */
  function Step(phrases: seq<string>, s: State): (r: State)
    requires s.phraseIndex < |phrases|
    ensures r.phraseIndex < |phrases|
    ensures r != s
    ensures Inv(phrases, s) ==> Inv(phrases, r)
  {
    var phrase := phrases[s.phraseIndex];
    match Decide(phrases, s)
    case Type => s.(text := phrase[..|s.text| + 1])
    case Pause => s.(isTyping := false)
    case Delete => s.(text := s.text[..|s.text| - 1])
    case Advance => s.(phraseIndex := (s.phraseIndex + 1) % |phrases|, isTyping := true)
  }

  lemma InitialInv(phrases: seq<string>)
    requires |phrases| > 0
    ensures Inv(phrases, Initial)
    ensures Initial.text == "" && Initial.phraseIndex == 0 && Initial.isTyping
  {
  }

  /** Type: while typing and the text is shorter than the phrase, the next
      character of the phrase is appended. */
  lemma TypeStep(phrases: seq<string>, s: State)
    requires Inv(phrases, s) && s.isTyping && |s.text| < |phrases[s.phraseIndex]|
    ensures Decide(phrases, s) == Type && DelayOf(Type) == TypingSpeed
    ensures var r := Step(phrases, s);
      && r.text == phrases[s.phraseIndex][..|s.text| + 1]
      && |r.text| == |s.text| + 1
      && s.text < r.text
      && r.text <= phrases[r.phraseIndex]
      && r.phraseIndex == s.phraseIndex && r.isTyping
  {
  }

  /** Pause: once the phrase is fully typed, the only change is the switch
      to deleting, after the pause delay. */
  lemma PauseStep(phrases: seq<string>, s: State)
    requires s.phraseIndex < |phrases| && s.isTyping && |s.text| >= |phrases[s.phraseIndex]|
    ensures Decide(phrases, s) == Pause && DelayOf(Pause) == PauseDuration
    ensures Step(phrases, s) == State(s.text, s.phraseIndex, false)
    ensures Inv(phrases, s) ==> s.text == phrases[s.phraseIndex]
  {
  }

  /** Delete: while deleting a non-empty text, its last character is
      dropped; the text stays a prefix of the same phrase. */
  lemma DeleteStep(phrases: seq<string>, s: State)
    requires s.phraseIndex < |phrases| && !s.isTyping && |s.text| > 0
    ensures Decide(phrases, s) == Delete && DelayOf(Delete) == DeletingSpeed
    ensures var r := Step(phrases, s);
      && r.text + [s.text[|s.text| - 1]] == s.text
      && |r.text| < |s.text|
      && r.phraseIndex == s.phraseIndex && !r.isTyping
      && (Inv(phrases, s) ==> Inv(phrases, r))
  {
  }

  /** Advance: once the text is deleted, the next phrase (wrapping around)
      starts being typed at once, without a timer. */
  lemma AdvanceStep(phrases: seq<string>, s: State)
    requires s.phraseIndex < |phrases| && !s.isTyping && s.text == ""
    ensures Decide(phrases, s) == Advance && DelayOf(Advance) == Immediate
    ensures var r := Step(phrases, s);
      && r.text == ""
      && r.isTyping
      && r.phraseIndex == if s.phraseIndex + 1 == |phrases| then 0 else s.phraseIndex + 1
  {
  }

  /** Every decision except Advance schedules a timer, with the delay the
      hook was configured with for that branch. */
  lemma TimeoutOf(d: Decision, speeds: Speeds)
    ensures Timeout(DelayOf(d), speeds) == None <==> d == Advance
    ensures d == Type ==> Timeout(DelayOf(d), speeds) == Some(speeds.typingSpeed)
    ensures d == Pause ==> Timeout(DelayOf(d), speeds) == Some(speeds.pauseDuration)
    ensures d == Delete ==> Timeout(DelayOf(d), speeds) == Some(speeds.deletingSpeed)
  {
  }

  /** The delays the hook uses when none are given. */
  lemma DefaultTimeouts()
    ensures Timeout(DelayOf(Type), DefaultSpeeds) == Some(100)
    ensures Timeout(DelayOf(Delete), DefaultSpeeds) == Some(50)
    ensures Timeout(DelayOf(Pause), DefaultSpeeds) == Some(2000)
  {
  }

  /** The hook's mounted instance: the phrase list and delays it was given
      and its three state cells. */
  class Hook {
    const phrases: seq<string>
    const speeds: Speeds
    var text: string
    var phraseIndex: nat
    var isTyping: bool

    function Current(): State
      reads this
    {
      State(text, phraseIndex, isTyping)
    }

    ghost predicate Valid()
      reads this
    {
      Inv(phrases, Current())
    }

    /** Mounting: the text is empty, the first phrase is selected and the
        hook is typing. */
    constructor (phrases: seq<string>, speeds: Speeds)
      requires |phrases| > 0
      ensures Valid()
      ensures this.phrases == phrases && this.speeds == speeds
      ensures Current() == Initial
    {
      this.phrases := phrases;
      this.speeds := speeds;
      text := "";
      phraseIndex := 0;
      isTyping := true;
    }

    /** One effect run: choose a branch on the current cells, and apply the
        update it schedules; return the delay label of that update. */
    method Tick() returns (delay: Delay)
      requires Valid()
      modifies this
      ensures Valid()
      ensures Current() == Step(phrases, old(Current()))
      ensures delay == DelayOf(Decide(phrases, old(Current())))
      ensures Timeout(delay, speeds) == None <==> !old(isTyping) && old(text) == ""
    {
      var currentPhrase := phrases[phraseIndex];
      if isTyping {
        if |text| < |currentPhrase| {
          text := currentPhrase[..|text| + 1];
          delay := TypingSpeed;
        } else {
          isTyping := false;
          delay := PauseDuration;
        }
      } else {
        if |text| > 0 {
          text := text[..|text| - 1];
          delay := DeletingSpeed;
        } else {
          isTyping := true;
          phraseIndex := (phraseIndex + 1) % |phrases|;
          delay := Immediate;
        }
      }
    }

    /** The hook's return value: the text shown, always a prefix of the
        current phrase. */
    method Text() returns (t: string)
      requires Valid()
      ensures t == text && t <= phrases[phraseIndex]
    {
      t := text;
    }
  }
}
