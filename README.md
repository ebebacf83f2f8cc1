# Typewriter phrase cycling

This project models the typewriter hook of a personal portfolio site
(`useTypewriter`) and proves properties about it. The hook shows a list of
phrases one after another. It types the current phrase one character at a
time, pauses once it is complete, deletes it one character at a time, and
then moves on to the next phrase, wrapping around to the first after the
last.

The hook has three state cells: `text` (what is shown), `phraseIndex` (which
phrase is current) and `isTyping` (typing or deleting). Every run of its
effect makes exactly one of four decisions:

- **Type** appends the next character, after `typingSpeed`.
- **Pause** switches to deleting, after `pauseDuration`.
- **Delete** drops the last character, after `deletingSpeed`.
- **Advance** selects the next phrase and switches to typing at once, with
  no timer.

Here one effect run, together with the timer callback it schedules, is one
transition, driven by an external tick.

- `typewriter.dfy` (module `Typewriter`) has the following parts:
  - the state as a datatype;
  - the decision (`Decide`) and the pure transition (`Step`);
  - the delay label for each decision, and the hook's default delays
    (100, 50 and 2000 ms);
  - the mounted hook as a class `Hook`. It has the three cells as fields, a
    constructor that models mounting, and a `Tick` method that updates the
    fields in place. `Tick` is proved to do exactly what `Step` does.
- `typewriter_cycle.dfy` (module `TypewriterCycle`) iterates the transition.
  `Run` gives the state after k ticks and `Trace` gives the decisions taken.
  It proves these facts:
  - the fixed cycle each phrase goes through;
  - the handling of empty phrases;
  - progress from every state;
  - that the reachable states are exactly the states satisfying the
    invariant;
  - that the whole behaviour is periodic.

The invariant `Inv` has two parts: the index is in range, and the text shown
is a prefix of the current phrase.

The hook indexes `phrases[phraseIndex]` and reads its `length`. With an empty
phrase list this reads `length` of `undefined` and fails. So the caller must
pass at least one phrase, and the model requires `|phrases| > 0` (the
constructor, and `Initial` in the lemmas). The site's only caller passes
three phrases (`src/App.tsx:61-66`).

## Model

| member | source | states |
|---|---|---|
| Typewriter.Step | src/hooks/useTypewriter.ts:10-32 | One effect run always changes the state, so no state is stuck. It keeps the phrase index in range, and it preserves the invariant that the text is a prefix of the current phrase. |
| Typewriter.InitialInv | src/hooks/useTypewriter.ts:5-7 | The state on mount is empty text, index 0 and typing, and it satisfies the invariant. |
| Typewriter.TypeStep | src/hooks/useTypewriter.ts:14-17 | While typing a text shorter than the phrase, the decision is Type with the typing delay. The new text is the phrase's first \|text\|+1 characters, one longer, extends the old text and is still a prefix of the phrase. The index and mode are unchanged. |
| Typewriter.PauseStep | src/hooks/useTypewriter.ts:18-21 | While typing a text at least as long as the phrase, the decision is Pause with the pause delay. The only change is the switch to deleting. Under the invariant, the text is then the whole phrase. |
| Typewriter.DeleteStep | src/hooks/useTypewriter.ts:24-27 | While deleting a non-empty text, the decision is Delete with the deleting delay. The new text is the old one minus its last character, which makes it strictly shorter. The index and mode are unchanged and the invariant is preserved. |
| Typewriter.AdvanceStep | src/hooks/useTypewriter.ts:28-31 | While deleting with an empty text, the decision is Advance, with no timer. The text stays empty, the hook is typing again, and the index moves to the next phrase, wrapping from the last to 0. |
| Typewriter.Hook.constructor | src/hooks/useTypewriter.ts:4-7 | Mounting keeps the phrases and delays given, starts from empty text, index 0 and typing, and establishes the invariant. |
| Typewriter.Hook.Tick | src/hooks/useTypewriter.ts:9-32 | One effect run updates the three cells in place to exactly the pure transition of the old state. It returns the delay label of the branch taken and keeps the invariant. No timer is scheduled (the hook's delays give no timeout) exactly when it was deleting with an empty text. |
| Typewriter.Hook.Text | src/hooks/useTypewriter.ts:37 | The hook's result is the current text, which is a prefix of the current phrase. |
| TypewriterCycle.Run | src/hooks/useTypewriter.ts:10-30 | With a non-empty phrase list, the phrase index stays in range after any number of effect runs, and so does the prefix invariant. |
| TypewriterCycle.Trace | src/hooks/useTypewriter.ts:13-32 | k effect runs take exactly k decisions, one per run. |
| TypewriterCycle.TracePointwise | src/hooks/useTypewriter.ts:13-32 | The i-th decision of a trace is the branch taken on the state after i runs. |
| Typewriter.TimeoutOf | src/hooks/useTypewriter.ts:15-30 | A timer is scheduled for every decision except Advance. Its delay is the configured typing speed for Type, the pause duration for Pause and the deleting speed for Delete. |
| Typewriter.DefaultTimeouts | src/hooks/useTypewriter.ts:4 | With the default parameters, Type waits 100 ms, Delete 50 ms and Pause 2000 ms. |
| TypewriterCycle.TypeFrom | src/hooks/useTypewriter.ts:14-17 | From the first j characters while typing, m runs (with j+m at most the phrase length) are m Type decisions. They show the first j+m characters. |
| TypewriterCycle.DeleteFrom | src/hooks/useTypewriter.ts:24-27 | From the first j characters while deleting, m runs (m at most j) are m Delete decisions. They show the first j-m characters. |
| TypewriterCycle.FullCycle | src/hooks/useTypewriter.ts:13-31 | From empty text at phrase i while typing, 2\|p\|+2 runs reach empty text at (i+1) mod n, typing. They are exactly \|p\| Type, one Pause, \|p\| Delete and one Advance, in that order. |
| TypewriterCycle.EmptyPhraseCycle | src/hooks/useTypewriter.ts:14-31 | An empty phrase is handled: it takes no Type and no Delete step, just a Pause and then an Advance, and the next phrase starts. |
| TypewriterCycle.FinishDeleting | src/hooks/useTypewriter.ts:24-31 | From the first j characters while deleting, j+1 runs reach the start of the next phrase. |
| TypewriterCycle.FinishTyping | src/hooks/useTypewriter.ts:13-31 | From the first j characters while typing, the rest of the phrase is typed and paused on. The phrase is then deleted, and the next phrase starts after (\|p\|-j)+1+\|p\|+1 runs. |
| TypewriterCycle.ReachesNextPhrase | src/hooks/useTypewriter.ts:13-32 | Progress: from every state satisfying the invariant, the start of the next phrase (empty text, index+1 mod n, typing) is reached after Remaining(s) runs, which is at least 1. |
| TypewriterCycle.PhraseStart | src/hooks/useTypewriter.ts:5-7 | After the cycles of phrases 0 to i-1, counting from mount, phrase i starts being typed. After all n cycles, phrase 0 starts again. |
| TypewriterCycle.ReachDeleting | src/hooks/useTypewriter.ts:14-27 | From the start of a phrase, the phrase is typed, paused on, and deleted down to any chosen prefix. |
| TypewriterCycle.ReachableInv | src/hooks/useTypewriter.ts:10-31 | Every state reachable from mount has its index in range and shows a prefix of the current phrase. |
| TypewriterCycle.InvReachable | src/hooks/useTypewriter.ts:13-31 | Every state satisfying the invariant is reachable from mount. That means every prefix of every phrase, both while typing and while deleting. |
| TypewriterCycle.ReachableIffInv | src/hooks/useTypewriter.ts:5-31 | A state is reachable from mount if and only if it satisfies the invariant. |
| TypewriterCycle.Periodic | src/hooks/useTypewriter.ts:13-31 | The states repeat forever with period Period(phrases), the sum of 2\|p\|+2 over the phrases, which is at least 2n. The decisions after one period repeat those from mount. |
| TypewriterCycle.TwoPhraseExample | src/hooks/useTypewriter.ts:13-31 | For the phrases "A" and "BB", the period is 10 runs. The decisions are Type, Pause, Delete, Advance, Type, Type, Pause, Delete, Delete, Advance, and after them the initial state is back. |

## Left out

- Real time: the `setTimeout` and `clearTimeout` calls (`src/hooks/useTypewriter.ts:15`, `:19`, `:25`, `:34`) are not modelled. Each transition carries a delay label instead, and the label can be mapped to the configured milliseconds by `Timeout`. One tick is one effect run together with the callback it schedules.
- React's effect scheduling, re-rendering and dependency list (`src/hooks/useTypewriter.ts:9`, `:35`) are not modelled. The functional update `prevIndex => …` is treated as a plain assignment under the assumption that nothing else is batched with it. The pending timer is cancelled when the hook unmounts, and that is not modelled either.
- Changing `phrases` or the delays after mounting is not modelled. The hook's effect would then re-run with the new list. In the model the phrase list and speeds are fixed when the hook is constructed.
- JavaScript strings are sequences of UTF-16 code units. The model uses `seq<char>`, so surrogate pairs are not distinguished.
- An empty phrase list: the hook fails on it. The model requires at least one phrase instead of modelling the failure.
- All of `src/App.tsx` is left out. That includes the page layout and animations, the static project and experience lists, the `viewMode` toggle, and the project card's `isHovered` flag, which only switches between image and video on mouse enter and leave. None of these has algorithmic content. The site has no touch tap-toggle, no viewport auto-pause and no video-readiness logic, so none of that is modelled.
