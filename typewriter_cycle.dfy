/** What repeated effect runs of the typewriter do: the fixed cycle each
    phrase goes through, which states can be reached from mounting, and the
    period after which the whole display sequence repeats. */
module TypewriterCycle {
  import opened Typewriter

  /** The state after k effect runs from s. */
  function Run(phrases: seq<string>, s: State, k: nat): (r: State)
    requires s.phraseIndex < |phrases|
    ensures r.phraseIndex < |phrases|
    ensures Inv(phrases, s) ==> Inv(phrases, r)
    decreases k
  {
    if k == 0 then s else Run(phrases, Step(phrases, s), k - 1)
  }

  /** The decisions taken by k effect runs from s, in order. */
  function Trace(phrases: seq<string>, s: State, k: nat): (t: seq<Decision>)
    requires s.phraseIndex < |phrases|
    ensures |t| == k
    decreases k
  {
    if k == 0 then [] else [Decide(phrases, s)] + Trace(phrases, Step(phrases, s), k - 1)
  }

  /** The i-th decision of a trace is the one taken on the state after i
      runs. */
  lemma {:induction false} TracePointwise(phrases: seq<string>, s: State, k: nat, i: nat)
    requires s.phraseIndex < |phrases| && i < k
    ensures Trace(phrases, s, k)[i] == Decide(phrases, Run(phrases, s, i))
    decreases i
  {
    if i > 0 {
      TracePointwise(phrases, Step(phrases, s), k - 1, i - 1);
    }
  }

  function Repeat(d: Decision, n: nat): (r: seq<Decision>)
    ensures |r| == n && forall i :: 0 <= i < n ==> r[i] == d
  {
    if n == 0 then [] else [d] + Repeat(d, n - 1)
  }

  /** The number of effect runs one phrase takes: one per character typed,
      the pause, one per character deleted, and the advance. */
  function CycleLength(phrase: string): nat {
    2 * |phrase| + 2
  }

  /** The number of effect runs from mounting until phrase i starts being
      typed. */
  function Offset(phrases: seq<string>, i: nat): nat
    requires i <= |phrases|
  {
    if i == 0 then 0 else Offset(phrases, i - 1) + CycleLength(phrases[i - 1])
  }

  /** The number of effect runs after which the whole behaviour repeats. */
  function Period(phrases: seq<string>): nat {
    Offset(phrases, |phrases|)
  }

  ghost predicate Reachable(phrases: seq<string>, s: State)
    requires |phrases| > 0
  {
    exists k: nat :: Run(phrases, Initial, k) == s
  }

  /** Running a + b steps is running a steps and then b more. */
  lemma {:induction false} RunAdd(phrases: seq<string>, s: State, a: nat, b: nat)
    requires s.phraseIndex < |phrases|
    ensures Run(phrases, s, a + b) == Run(phrases, Run(phrases, s, a), b)
    ensures Trace(phrases, s, a + b) == Trace(phrases, s, a) + Trace(phrases, Run(phrases, s, a), b)
    decreases a
  {
    if a > 0 {
      RunAdd(phrases, Step(phrases, s), a - 1, b);
    }
  }

  lemma RunOne(phrases: seq<string>, s: State)
    requires s.phraseIndex < |phrases|
    ensures Run(phrases, s, 1) == Step(phrases, s)
    ensures Trace(phrases, s, 1) == [Decide(phrases, s)]
  {
    assert Run(phrases, Step(phrases, s), 0) == Step(phrases, s);
  }

  /** Typing m more characters from the first j of phrase i takes m type
      steps and shows the first j + m characters. */
  lemma {:induction false} TypeFrom(phrases: seq<string>, i: nat, j: nat, m: nat)
    requires i < |phrases| && j + m <= |phrases[i]|
    ensures Run(phrases, State(phrases[i][..j], i, true), m) == State(phrases[i][..j + m], i, true)
    ensures Trace(phrases, State(phrases[i][..j], i, true), m) == Repeat(Type, m)
    decreases m
  {
    if m > 0 {
      var s := State(phrases[i][..j], i, true);
      assert Step(phrases, s) == State(phrases[i][..j + 1], i, true);
      TypeFrom(phrases, i, j + 1, m - 1);
    }
  }

  /** Deleting m characters from the first j of phrase i takes m delete
      steps and shows the first j - m characters. */
  lemma {:induction false} DeleteFrom(phrases: seq<string>, i: nat, j: nat, m: nat)
    requires i < |phrases| && m <= j <= |phrases[i]|
    ensures Run(phrases, State(phrases[i][..j], i, false), m) == State(phrases[i][..j - m], i, false)
    ensures Trace(phrases, State(phrases[i][..j], i, false), m) == Repeat(Delete, m)
    decreases m
  {
    if m > 0 {
      var s := State(phrases[i][..j], i, false);
      assert phrases[i][..j][..j - 1] == phrases[i][..j - 1];
      assert Step(phrases, s) == State(phrases[i][..j - 1], i, false);
      DeleteFrom(phrases, i, j - 1, m - 1);
    }
  }

  /** The full cycle of phrase i: from the empty text while typing, exactly
      |p| type steps, one pause, |p| delete steps and one advance lead to the
      empty text of the next phrase (wrapping around), typing again. */
  lemma FullCycle(phrases: seq<string>, i: nat)
    requires i < |phrases|
    ensures var p := phrases[i];
      && Run(phrases, State("", i, true), CycleLength(p)) == State("", (i + 1) % |phrases|, true)
      && Trace(phrases, State("", i, true), CycleLength(p))
         == Repeat(Type, |p|) + [Pause] + Repeat(Delete, |p|) + [Advance]
  {
    var p := phrases[i];
    var n := |p|;
    var s0 := State("", i, true);
    assert p[..0] == "" && p[..n] == p;
    TypeFrom(phrases, i, 0, n);
    var s1 := State(p, i, true);
    var s2 := State(p, i, false);
    RunOne(phrases, s1);
    assert Step(phrases, s1) == s2;
    DeleteFrom(phrases, i, n, n);
    var s3 := State("", i, false);
    RunOne(phrases, s3);
    var s4 := State("", (i + 1) % |phrases|, true);
    assert Step(phrases, s3) == s4;
    RunAdd(phrases, s0, n, 1);
    assert Run(phrases, s0, n + 1) == s2;
    assert Trace(phrases, s0, n + 1) == Repeat(Type, n) + [Pause];
    RunAdd(phrases, s0, n + 1, n);
    assert Run(phrases, s0, 2 * n + 1) == s3;
    assert Trace(phrases, s0, 2 * n + 1) == Repeat(Type, n) + [Pause] + Repeat(Delete, n);
    RunAdd(phrases, s0, 2 * n + 1, 1);
  }

  /** An empty phrase takes no type step and no delete step: it is paused
      on at once and then advanced past. */
  lemma EmptyPhraseCycle(phrases: seq<string>, i: nat)
    requires i < |phrases| && phrases[i] == ""
    ensures Run(phrases, State("", i, true), 2) == State("", (i + 1) % |phrases|, true)
    ensures Trace(phrases, State("", i, true), 2) == [Pause, Advance]
  {
    FullCycle(phrases, i);
  }

  /** The number of effect runs from s until the next phrase starts. */
  function Remaining(phrases: seq<string>, s: State): nat
    requires Inv(phrases, s)
  {
    var p := phrases[s.phraseIndex];
    if s.isTyping then (|p| - |s.text|) + 1 + |p| + 1 else |s.text| + 1
  }

  /** From the first j characters of phrase i while deleting, j delete
      steps and the advance lead to the start of the next phrase. */
  lemma FinishDeleting(phrases: seq<string>, i: nat, j: nat)
    requires i < |phrases| && j <= |phrases[i]|
    ensures Run(phrases, State(phrases[i][..j], i, false), j + 1)
            == State("", (i + 1) % |phrases|, true)
  {
    var s := State(phrases[i][..j], i, false);
    var empty := State("", i, false);
    DeleteFrom(phrases, i, j, j);
    assert phrases[i][..0] == "";
    assert Run(phrases, s, j) == empty;
    RunAdd(phrases, s, j, 1);
    RunOne(phrases, empty);
  }

  /** From the first j characters of phrase i while typing, the rest of the
      phrase is typed, paused on, deleted, and the next phrase starts. */
  lemma FinishTyping(phrases: seq<string>, i: nat, j: nat)
    requires i < |phrases| && j <= |phrases[i]|
    ensures var n := |phrases[i]|;
      Run(phrases, State(phrases[i][..j], i, true), (n - j) + 1 + (n + 1))
      == State("", (i + 1) % |phrases|, true)
  {
    var n := |phrases[i]|;
    var s := State(phrases[i][..j], i, true);
    var typed := State(phrases[i][..n], i, true);
    var paused := State(phrases[i][..n], i, false);
    TypeFrom(phrases, i, j, n - j);
    assert Run(phrases, s, n - j) == typed;
    RunOne(phrases, typed);
    assert Step(phrases, typed) == paused;
    RunAdd(phrases, s, n - j, 1);
    assert Run(phrases, s, (n - j) + 1) == paused;
    FinishDeleting(phrases, i, n);
    RunAdd(phrases, s, (n - j) + 1, n + 1);
  }

  /** Progress: from every state satisfying the invariant, the machine
      reaches the start of the next phrase after Remaining(s) >= 1 runs. */
  lemma ReachesNextPhrase(phrases: seq<string>, s: State)
    requires Inv(phrases, s)
    ensures Remaining(phrases, s) >= 1
    ensures Run(phrases, s, Remaining(phrases, s))
            == State("", (s.phraseIndex + 1) % |phrases|, true)
  {
    var i := s.phraseIndex;
    var j := |s.text|;
    assert s == State(phrases[i][..j], i, s.isTyping);
    if s.isTyping {
      FinishTyping(phrases, i, j);
    } else {
      FinishDeleting(phrases, i, j);
    }
  }

  lemma SmallMod(a: nat, n: nat)
    requires a < n
    ensures a % n == a
  {
  }

  /** After Offset(phrases, i) runs from mounting, phrase i starts being
      typed (phrase 0 again once all have been cycled through). */
  lemma {:induction false} PhraseStart(phrases: seq<string>, i: nat)
    requires |phrases| > 0 && i <= |phrases|
    ensures Run(phrases, Initial, Offset(phrases, i)) == State("", i % |phrases|, true)
    decreases i
  {
    if i > 0 {
      var n := |phrases|;
      PhraseStart(phrases, i - 1);
      SmallMod(i - 1, n);
      var mid := State("", i - 1, true);
      assert Run(phrases, Initial, Offset(phrases, i - 1)) == mid;
      RunAdd(phrases, Initial, Offset(phrases, i - 1), CycleLength(phrases[i - 1]));
      FullCycle(phrases, i - 1);
      assert Run(phrases, mid, CycleLength(phrases[i - 1])) == State("", i % n, true);
    }
  }

  /** Every reachable state has its index in range and shows a prefix of
      the current phrase. */
  lemma ReachableInv(phrases: seq<string>, s: State)
    requires |phrases| > 0 && Reachable(phrases, s)
    ensures Inv(phrases, s)
  {
    var k: nat :| Run(phrases, Initial, k) == s;
    InitialInv(phrases);
  }

  /** From the start of phrase i, the phrase is typed, paused on, and
      deleted down to its first j characters. */
  lemma ReachDeleting(phrases: seq<string>, i: nat, j: nat)
    requires i < |phrases| && j <= |phrases[i]|
    ensures var n := |phrases[i]|;
      Run(phrases, State("", i, true), (n + 1) + (n - j)) == State(phrases[i][..j], i, false)
  {
    var n := |phrases[i]|;
    var s := State("", i, true);
    var typed := State(phrases[i][..n], i, true);
    var paused := State(phrases[i][..n], i, false);
    assert phrases[i][..0] == "";
    TypeFrom(phrases, i, 0, n);
    assert Run(phrases, s, n) == typed;
    RunOne(phrases, typed);
    assert Step(phrases, typed) == paused;
    RunAdd(phrases, s, n, 1);
    assert Run(phrases, s, n + 1) == paused;
    DeleteFrom(phrases, i, n, n - j);
    RunAdd(phrases, s, n + 1, n - j);
  }

  /** Conversely, every state satisfying the invariant is reached: each
      prefix of each phrase is shown, both while typing and while deleting. */
  lemma InvReachable(phrases: seq<string>, s: State)
    requires |phrases| > 0 && Inv(phrases, s)
    ensures Reachable(phrases, s)
  {
    var i := s.phraseIndex;
    var n := |phrases[i]|;
    var j := |s.text|;
    var start := State("", i, true);
    assert s == State(phrases[i][..j], i, s.isTyping);
    PhraseStart(phrases, i);
    SmallMod(i, |phrases|);
    var o := Offset(phrases, i);
    assert Run(phrases, Initial, o) == start;
    var k: nat;
    if s.isTyping {
      assert phrases[i][..0] == "";
      TypeFrom(phrases, i, 0, j);
      k := j;
    } else {
      ReachDeleting(phrases, i, j);
      k := (n + 1) + (n - j);
    }
    assert Run(phrases, start, k) == s;
    RunAdd(phrases, Initial, o, k);
    assert Run(phrases, Initial, o + k) == s;
  }

  /** The reachable states are exactly the states satisfying the
      invariant. */
  lemma ReachableIffInv(phrases: seq<string>, s: State)
    requires |phrases| > 0
    ensures Reachable(phrases, s) <==> Inv(phrases, s)
  {
    if Reachable(phrases, s) {
      ReachableInv(phrases, s);
    }
    if Inv(phrases, s) {
      InvReachable(phrases, s);
    }
  }

  lemma {:induction false} OffsetBound(phrases: seq<string>, i: nat)
    requires i <= |phrases|
    ensures Offset(phrases, i) >= 2 * i
    decreases i
  {
    if i > 0 {
      OffsetBound(phrases, i - 1);
    }
  }

  /** The display cycles forever through the phrases in order: the states,
      and hence the decisions, repeat with period Period(phrases). */
  lemma Periodic(phrases: seq<string>, k: nat)
    requires |phrases| > 0
    ensures Period(phrases) >= 2 * |phrases|
    ensures Run(phrases, Initial, Period(phrases) + k) == Run(phrases, Initial, k)
    ensures Trace(phrases, Initial, Period(phrases) + k)
            == Trace(phrases, Initial, Period(phrases)) + Trace(phrases, Initial, k)
  {
    OffsetBound(phrases, |phrases|);
    PhraseStart(phrases, |phrases|);
    RunAdd(phrases, Initial, Period(phrases), k);
  }

  /** The cycle for the phrases "A" and "BB": ten effect runs, after which
      the initial state is back. */
  lemma TwoPhraseExample()
    ensures Period(["A", "BB"]) == 10
    ensures Run(["A", "BB"], Initial, 10) == Initial
    ensures Trace(["A", "BB"], Initial, 10)
            == [Type, Pause, Delete, Advance, Type, Type, Pause, Delete, Delete, Advance]
  {
    var phrases := ["A", "BB"];
    var second := State("", 1, true);
    assert Offset(phrases, 1) == 4 && Offset(phrases, 2) == 10;
    FullCycle(phrases, 0);
    assert Run(phrases, Initial, 4) == second;
    assert Trace(phrases, Initial, 4) == [Type, Pause, Delete, Advance] by {
      assert Repeat(Type, 1) == [Type] && Repeat(Delete, 1) == [Delete];
    }
    FullCycle(phrases, 1);
    assert Run(phrases, second, 6) == Initial;
    assert Trace(phrases, second, 6) == [Type, Type, Pause, Delete, Delete, Advance] by {
      assert Repeat(Type, 2) == [Type, Type] && Repeat(Delete, 2) == [Delete, Delete];
    }
    RunAdd(phrases, Initial, 4, 6);
  }
}
