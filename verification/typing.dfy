/**
  The typing animation of the landing page (landing_page/script_alt.js): one
  idea at a time is typed out a character per tick, held, erased a character
  per tick, and the next idea follows, round-robin. A tick is a function from
  the animation's state to the next state, the text shown and the delay
  before the following tick; timers and the page element are left to the
  caller.
 */
module Typing {

  const Ideas: seq<string> := [
    "a script to find all files larger than 1GB and export to a CSV",
    "a script to organize my downloads folder by file type",
    "a script to check a list of servers and email me if any are down",
    "a script to rename a batch of photos with the date they were taken",
    "a script to create a new Azure VM for a web server",
    "a script to get all AD users who haven't logged in for 90 days"
  ]

  const TypeDelay := 100
  const EraseDelay := 50
  const HoldDelay := 2000
  const NextIdeaDelay := 500

  /** `ideaIndex`, `charIndex` and `isDeleting`. */
  datatype TypingState = TypingState(ideaIndex: nat, charIndex: int, isDeleting: bool)

  /** What one tick produces. */
  datatype Tick = Tick(next: TypingState, text: string, delay: nat)

  const Initial := TypingState(0, 0, false)

  /** `s.substring(0, end)`: the end is clamped into `0..|s|`. */
  function Substring(s: string, end: int): (r: string)
    ensures r <= s
    ensures |r| == if end < 0 then 0 else if end > |s| then |s| else end
  {
    if end < 0 then "" else if end > |s| then s else s[..end]
  }

  /** There is at least one idea and none is empty. */
  predicate WellFormed(ideas: seq<string>)
  {
    |ideas| > 0 && forall k :: 0 <= k < |ideas| ==> |ideas[k]| > 0
  }

  /** The states the animation passes through: while typing, a character is
      still to come; while erasing, one is still shown. */
  predicate Inv(ideas: seq<string>, st: TypingState)
  {
    && st.ideaIndex < |ideas|
    && (if st.isDeleting then 1 <= st.charIndex <= |ideas[st.ideaIndex]|
        else 0 <= st.charIndex < |ideas[st.ideaIndex]|)
  }

  /** This tick ends the current phase: it types the idea's last character
      or erases its first. */
  predicate PhaseEnds(ideas: seq<string>, st: TypingState)
    requires st.ideaIndex < |ideas|
  {
    if st.isDeleting then st.charIndex == 1 else st.charIndex + 1 == |ideas[st.ideaIndex]|
  }

  /** One call of `type`. Typing shows one character more and erasing one
      fewer; the last character typed starts the hold and the erase, and the
      last character erased moves on to the next idea. */
  function Step(ideas: seq<string>, st: TypingState): (tick: Tick)
    requires st.ideaIndex < |ideas|
    ensures tick.next.charIndex == st.charIndex + (if st.isDeleting then -1 else 1)
    ensures tick.next.isDeleting != st.isDeleting <==> PhaseEnds(ideas, st)
    ensures tick.next.ideaIndex == (if st.isDeleting && PhaseEnds(ideas, st) then (st.ideaIndex + 1) % |ideas| else st.ideaIndex)
    ensures !st.isDeleting ==> tick.delay == (if PhaseEnds(ideas, st) then HoldDelay else TypeDelay)
    ensures st.isDeleting ==> tick.delay == (if PhaseEnds(ideas, st) then NextIdeaDelay else EraseDelay)
    ensures Inv(ideas, st) ==> tick.text <= ideas[st.ideaIndex] && |tick.text| == tick.next.charIndex
    ensures WellFormed(ideas) && Inv(ideas, st) ==> Inv(ideas, tick.next)
  {
    var idea := ideas[st.ideaIndex];
    var text := if st.isDeleting then Substring(idea, st.charIndex - 1) else Substring(idea, st.charIndex + 1);
    var charIndex := if st.isDeleting then st.charIndex - 1 else st.charIndex + 1;
    if !st.isDeleting && charIndex == |idea| then
      Tick(TypingState(st.ideaIndex, charIndex, true), text, HoldDelay)
    else if st.isDeleting && charIndex == 0 then
      Tick(TypingState((st.ideaIndex + 1) % |ideas|, charIndex, false), text, NextIdeaDelay)
    else
      Tick(TypingState(st.ideaIndex, charIndex, st.isDeleting), text, if st.isDeleting then EraseDelay else TypeDelay)
  }

  /** Where the animation is after some ticks, and how long they took. */
  datatype Timeline = Timeline(state: TypingState, elapsed: nat)

  /** `n` ticks from `st`. */
  function Run(ideas: seq<string>, st: TypingState, n: nat): (r: Timeline)
    requires st.ideaIndex < |ideas|
    ensures r.state.ideaIndex < |ideas|
    ensures WellFormed(ideas) && Inv(ideas, st) ==> Inv(ideas, r.state)
    decreases n
  {
    if n == 0 then Timeline(st, 0)
    else
      var t := Step(ideas, st);
      var rest := Run(ideas, t.next, n - 1);
      Timeline(rest.state, t.delay + rest.elapsed)
  }

  /** Ticks compose: `a + b` ticks are `a` ticks followed by `b`. */
  lemma {:induction false} RunAppend(ideas: seq<string>, st: TypingState, a: nat, b: nat)
    requires st.ideaIndex < |ideas|
    ensures var first := Run(ideas, st, a);
            var second := Run(ideas, first.state, b);
            Run(ideas, st, a + b) == Timeline(second.state, first.elapsed + second.elapsed)
    decreases a
  {
    if a > 0 {
      var t := Step(ideas, st);
      RunAppend(ideas, t.next, a - 1, b);
      RunFirst(ideas, st, a);
      RunFirst(ideas, st, a + b);
    }
  }

  /** A non-empty run is one tick followed by the rest. */
  lemma {:induction false} RunFirst(ideas: seq<string>, st: TypingState, n: nat)
    requires st.ideaIndex < |ideas| && n > 0
    ensures var t := Step(ideas, st);
            var rest := Run(ideas, t.next, n - 1);
            Run(ideas, st, n) == Timeline(rest.state, t.delay + rest.elapsed)
  {
  }

  /** Typing an idea out from position `c` takes `|idea| - c` ticks and ends
      holding the whole idea, erase mode on. */
  lemma {:induction false} TypeOut(ideas: seq<string>, k: nat, c: nat)
    requires k < |ideas| && c < |ideas[k]|
    ensures Run(ideas, TypingState(k, c, false), |ideas[k]| - c)
            == Timeline(TypingState(k, |ideas[k]|, true), TypeDelay * (|ideas[k]| - c - 1) + HoldDelay)
    decreases |ideas[k]| - c
  {
    if c + 1 < |ideas[k]| {
      TypeOut(ideas, k, c + 1);
    }
  }

  /** Erasing from `c` characters takes `c` ticks and ends at the start of
      the next idea, typing again. */
  lemma {:induction false} EraseOut(ideas: seq<string>, k: nat, c: nat)
    requires k < |ideas| && 1 <= c <= |ideas[k]|
    ensures Run(ideas, TypingState(k, c, true), c)
            == Timeline(TypingState((k + 1) % |ideas|, 0, false), EraseDelay * (c - 1) + NextIdeaDelay)
    decreases c
  {
    if c > 1 {
      EraseOut(ideas, k, c - 1);
    }
  }

  /** A whole idea, typed and erased, takes `2 * |idea|` ticks and
      `150 * |idea| + 2350` milliseconds, and leaves the animation at the
      start of the next idea. */
  lemma {:induction false} Cycle(ideas: seq<string>, k: nat)
    requires k < |ideas| && |ideas[k]| > 0
    ensures Run(ideas, TypingState(k, 0, false), 2 * |ideas[k]|)
            == Timeline(TypingState((k + 1) % |ideas|, 0, false), 150 * |ideas[k]| + 2350)
  {
    var n := |ideas[k]|;
    TypeOut(ideas, k, 0);
    EraseOut(ideas, k, n);
    RunAppend(ideas, TypingState(k, 0, false), n, n);
  }

  /** The page's ideas are well formed and the animation starts in a state of
      the invariant, so every tick shows a prefix of the current idea. */
  lemma {:induction false} InitialIsValid()
    ensures WellFormed(Ideas) && Inv(Ideas, Initial)
  {
  }
}
