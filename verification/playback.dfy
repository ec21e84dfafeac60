/** The display screen's timer loop (the second effect of `src/components/display-board.tsx`):
    while the playlist is loaded and non-empty the current entry is shown for its duration, the
    blank-screen signal reports whether it is a blank, and then the index advances cyclically. */
module Playback {
  import opened Wrappers
  import Data
  import Queue

  /** The board's state: the playlist, the index of the current entry and whether the load
      effect is still running. */
  datatype Player = Player(queue: seq<Queue.DisplayItem>, index: nat, loading: bool)

  /** The state at mount: empty playlist, index 0, loading. */
  const Initial: Player := Player([], 0, true)

  /** The index points into the playlist whenever there is one. */
  predicate Valid(p: Player)
  {
    p.queue == [] || p.index < |p.queue|
  }

  /** The timer loop runs only after loading, on a non-empty playlist. */
  predicate Running(p: Player)
  {
    !p.loading && |p.queue| > 0
  }

  /** The load effect's `finally`: loading ends; the built playlist is installed when building
      succeeded, and the previous (initially empty) one stays when it threw.  The index is not
      touched. */
  function LoadFinished(p: Player, built: Option<seq<Queue.DisplayItem>>): (r: Player)
    ensures !r.loading && r.index == p.index
    ensures r.queue == (if built.Some? then built.value else p.queue)
  {
    Player(built.GetOr(p.queue), p.index, false)
  }

  /** Loading from the initial state always gives a valid player, whatever the builder returned. */
  lemma LoadFromInitialValid(built: Option<seq<Queue.DisplayItem>>)
    ensures Valid(LoadFinished(Initial, built))
    ensures Running(LoadFinished(Initial, built)) <==> built.Some? && built.value != []
  {
  }

  /** The entry on screen: none while loading or with an empty playlist. */
  function Current(p: Player): (r: Option<Queue.DisplayItem>)
    requires Valid(p)
    ensures r.Some? <==> Running(p)
    ensures r.Some? ==> r.value in p.queue
  {
    if Running(p) then Some(p.queue[p.index]) else None
  }

  /** The value passed to `onBlankScreenChange` when the effect runs: whether the current entry is
      a blank; no call when nothing is shown. */
  function BlankSignal(p: Player): (r: Option<bool>)
    requires Valid(p)
    ensures r.Some? <==> Running(p)
    ensures r == Some(true) <==> Current(p).Some? && Queue.IsBlank(Current(p).value)
  {
    match Current(p)
    case None => None
    case Some(item) => Some(item.BlankItem?)
  }

  /** What the effect's `onBlankScreenChange(...)` call comes to, given whether the parent passed
      the callback: no call, a call with the blank flag, or a `TypeError` from calling `undefined`
      that aborts the effect. */
  datatype SignalCall = NoCall | Called(isBlank: bool) | Threw

  /** The call as written: made unconditionally whenever an entry is shown, so a parent that
      leaves the callback out makes the effect throw. */
  function SignalCallAsWritten(p: Player, hasCallback: bool): (r: SignalCall)
    requires Valid(p)
    ensures r.Threw? <==> Running(p) && !hasCallback
    ensures r.Called? <==> Running(p) && hasCallback
    ensures r.Called? ==> BlankSignal(p) == Some(r.isBlank)
  {
    match BlankSignal(p)
    case None => NoCall
    case Some(b) => if hasCallback then Called(b) else Threw
  }

  /** The home page mounts the board without a blank-screen callback, so the first entry it shows
      throws, whatever the playlist. */
  lemma HomePageThrows(q: seq<Queue.DisplayItem>)
    requires q != []
    ensures SignalCallAsWritten(LoadFinished(Initial, Some(q)), false) == Threw
  {
  }

  /** The concrete case: a one-photo playlist on the home page. */
  lemma HomePageThrowsOnePhoto()
    ensures SignalCallAsWritten(LoadFinished(Initial, Some([Queue.PhotoItem("a.png", "", "", 10000)])), false) == Threw
  {
    HomePageThrows([Queue.PhotoItem("a.png", "", "", 10000)]);
  }

  /** The call as evidently intended for an optional callback, `onBlankScreenChange?.(...)`: it
      never throws, and when the callback is there it receives `BlankSignal`. */
  function SignalCallGuarded(p: Player, hasCallback: bool): (r: SignalCall)
    requires Valid(p)
    ensures !r.Threw?
    ensures r.Called? <==> Running(p) && hasCallback
    ensures r.Called? ==> BlankSignal(p) == Some(r.isBlank)
  {
    if hasCallback then SignalCallAsWritten(p, true) else NoCall
  }

  /** The guarded call differs from the written one only where the written one throws. */
  lemma GuardedAgreesUnlessThrown(p: Player, hasCallback: bool)
    requires Valid(p)
    ensures SignalCallAsWritten(p, hasCallback).Threw? || SignalCallGuarded(p, hasCallback) == SignalCallAsWritten(p, hasCallback)
    ensures SignalCallAsWritten(p, hasCallback).Threw? ==> SignalCallGuarded(p, hasCallback) == NoCall
  {
  }

  /** The timer delay: the entry's duration when positive, otherwise five seconds. */
  function TimerMs(item: Queue.DisplayItem): (ms: int)
    ensures ms > 0
    ensures item.duration > 0 ==> ms == item.duration
    ensures item.duration <= 0 ==> ms == 5000
  {
    if item.duration > 0 then item.duration else 5000
  }

  /** The timer firing: `(prevIndex + 1) % length`.  When the loop is not running no timer was
      set and nothing changes. */
  function Step(p: Player): (r: Player)
    ensures r.queue == p.queue && r.loading == p.loading
    ensures Valid(p) ==> Valid(r)
    ensures !Running(p) ==> r == p
    ensures Running(p) && p.index + 1 < |p.queue| ==> r.index == p.index + 1
    ensures Running(p) && p.index + 1 == |p.queue| ==> r.index == 0
  {
    if Running(p) then p.(index := (p.index + 1) % |p.queue|) else p
  }

  /** `n` timer firings in a row. */
  function Steps(p: Player, n: nat): (r: Player)
    ensures r.queue == p.queue && r.loading == p.loading
    ensures Valid(p) ==> Valid(r)
  {
    if n == 0 then p else Step(Steps(p, n - 1))
  }

  /** Firings compose: `a + b` firings are `a` firings followed by `b`. */
  lemma {:induction false} StepsAdd(p: Player, a: nat, b: nat)
    ensures Steps(p, a + b) == Steps(Steps(p, a), b)
  {
    if b > 0 {
      StepsAdd(p, a, b - 1);
      assert Steps(p, a + b) == Step(Steps(p, a + b - 1));
    }
  }

  /** Before the end of the playlist each firing moves to the next entry. */
  lemma {:induction false} StepsForward(p: Player, n: nat)
    requires Valid(p) && Running(p) && p.index + n < |p.queue|
    ensures Steps(p, n).index == p.index + n
  {
    if n > 0 {
      StepsForward(p, n - 1);
    }
  }

  /** Within one cycle the index is `(index + n) % length`, written out: it runs to the end of the
      playlist and then continues from the first entry. */
  lemma StepsWithinCycle(p: Player, n: nat)
    requires Valid(p) && Running(p) && n <= |p.queue|
    ensures Steps(p, n).index == if p.index + n < |p.queue| then p.index + n else p.index + n - |p.queue|
  {
    var len := |p.queue|;
    if p.index + n >= len {
      var a := len - 1 - p.index;
      StepsForward(p, a);
      StepsAdd(p, a, 1);
      var wrapped := Steps(p, a + 1);
      assert wrapped.index == 0;
      StepsForward(wrapped, n - a - 1);
      StepsAdd(p, a + 1, n - a - 1);
    } else {
      StepsForward(p, n);
    }
  }

  /** The playlist loops: after as many firings as it has entries the board is back where it
      started. */
  lemma FullCycle(p: Player)
    requires Valid(p) && Running(p)
    ensures Steps(p, |p.queue|) == p
  {
    StepsWithinCycle(p, |p.queue|);
  }

  /** The board is periodic with the playlist length as its period. */
  lemma Periodic(p: Player, n: nat)
    requires Valid(p) && Running(p)
    ensures Steps(p, n + |p.queue|) == Steps(p, n)
  {
    StepsAdd(p, |p.queue|, n);
    FullCycle(p);
  }

  /** Every entry of a running playlist comes on screen within one cycle. */
  lemma EveryEntryShown(p: Player, j: nat)
    requires Valid(p) && Running(p) && j < |p.queue|
    ensures var n := if j >= p.index then j - p.index else j + |p.queue| - p.index;
      n < |p.queue| && Current(Steps(p, n)) == Some(p.queue[j])
  {
    var n := if j >= p.index then j - p.index else j + |p.queue| - p.index;
    StepsWithinCycle(p, n);
    var r := Steps(p, n);
    assert r.index == j && r.queue == p.queue && Running(r);
  }

  /** On a playlist whose blanks sit exactly at the odd positions, the signal after `n` firings
      from the start is whether `n` is odd. */
  lemma AlternatingSignal(q: seq<Queue.DisplayItem>, n: nat)
    requires forall i :: 0 <= i < |q| ==> (Queue.IsBlank(q[i]) <==> i % 2 == 1)
    requires n < |q|
    ensures var p := LoadFinished(Initial, Some(q));
      Valid(Steps(p, n)) && BlankSignal(Steps(p, n)) == Some(n % 2 == 1)
  {
    StepsForward(LoadFinished(Initial, Some(q)), n);
  }

  /** Started on a freshly built playlist with blank screens on, the blank-screen signal is raised
      exactly on the odd-numbered firings of the first cycle (and, by `Periodic`, of every later
      cycle). */
  lemma BlankSignalAlternates(messages: seq<Data.Message>, groups: Data.PhotoGroups, s: Data.Settings,
                              draws: nat -> nat, n: nat)
    requires Queue.BlanksOn(s)
    ensures var p := LoadFinished(Initial, Some(Queue.BuildQueue(messages, groups, s, draws)));
      n < |p.queue| ==> Valid(Steps(p, n)) && BlankSignal(Steps(p, n)) == Some(n % 2 == 1)
  {
    var q := Queue.BuildQueue(messages, groups, s, draws);
    Queue.QueueShape(messages, groups, s, draws);
    if n < |q| {
      AlternatingSignal(q, n);
    }
  }
}
