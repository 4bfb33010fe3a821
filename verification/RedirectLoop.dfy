/** The loop of `Application::run` (src/application.cpp): two flags driven by an
    arbitrary history of the lock. */
module RedirectLoop {
  /** The iptables commands of a tick, as events. */
  datatype Event = Redirect | Destroy

  /** Which of the two flags is 1. */
  datatype State = State(isRedirected: bool, isDestroied: bool)

  const INITIAL := State(false, true)

  // ----- One tick -----

  /** The first test of a tick: a flag is cleared once the other one is set. */
  function Settled(s: State, locked: bool): State {
    if locked then
      if s.isRedirected then s.(isDestroied := false) else s
    else
      if s.isDestroied then s.(isRedirected := false) else s
  }

  /** The event the settled flags call for. */
  function Fired(s: State, locked: bool): seq<Event> {
    if locked then
      if !s.isRedirected then [Redirect] else []
    else
      if !s.isDestroied then [Destroy] else []
  }

  function Tick(s: State, locked: bool): State {
    var t := Settled(s, locked);
    if Fired(t, locked) == [] then t else if locked then t.(isRedirected := true) else t.(isDestroied := true)
  }

  // ----- Runs -----

  /** The flags after the first `n` ticks. */
  function After(history: seq<bool>, n: nat): State
    requires n <= |history|
  {
    if n == 0 then INITIAL else Tick(After(history, n - 1), history[n - 1])
  }

  /** The events of tick `n`. */
  function EventsAt(history: seq<bool>, n: nat): seq<Event>
    requires n < |history|
  {
    Fired(Settled(After(history, n), history[n]), history[n])
  }

  function Events(history: seq<bool>, n: nat): seq<Event>
    requires n <= |history|
  {
    if n == 0 then [] else Events(history, n - 1) + EventsAt(history, n - 1)
  }

  /** Whether the rules are in place after some events. */
  predicate Installed(events: seq<Event>) {
    events != [] && events[|events| - 1] == Redirect
  }

  /** `Application::run`, over any finite part of the lock's history. */
  class Application {
    var isRedirected: int
    var isDestroied: int
    var iptable: seq<Event>

    constructor ()
      ensures isDestroied == 1 && isRedirected == 0 && iptable == []
    {
      isDestroied := 1;
      isRedirected := 0;
      iptable := [];
    }

    /** Each flag is 0 or 1. */
    predicate Valid()
      reads this
    {
      (isRedirected == 0 || isRedirected == 1) && (isDestroied == 0 || isDestroied == 1)
    }

    function Flags(): State
      reads this
    {
      State(isRedirected == 1, isDestroied == 1)
    }

    /** The body of the loop. */
    method Step(locked: bool)
      requires Valid()
      modifies this
      ensures Valid()
      ensures Flags() == Tick(old(Flags()), locked)
      ensures iptable == old(iptable) + Fired(Settled(old(Flags()), locked), locked)
    {
      if locked {
        if isRedirected == 1 {
          isDestroied := 0;
        }
      } else {
        if isDestroied == 1 {
          isRedirected := 0;
        }
      }
      if !locked && isDestroied != 1 {
        isDestroied := 1;
        iptable := iptable + [Destroy];
      }
      if locked && isRedirected != 1 {
        isRedirected := 1;
        iptable := iptable + [Redirect];
      }
    }

    method Run(history: seq<bool>)
      modifies this
      ensures Valid()
      ensures Flags() == After(history, |history|)
      ensures iptable == Events(history, |history|)
    {
      isDestroied := 1;
      isRedirected := 0;
      iptable := [];
      for n := 0 to |history|
        invariant Valid() && Flags() == After(history, n)
        invariant iptable == Events(history, n)
      {
        Step(history[n]);
      }
    }
  }

  // ----- What holds on every history -----

  /** The flags are never both clear. */
  lemma {:induction false} NeverBothClear(history: seq<bool>, n: nat)
    requires n <= |history|
    ensures After(history, n) in {State(false, true), State(true, false), State(true, true)}
    ensures n > 0 ==> if history[n - 1] then After(history, n).isRedirected else After(history, n).isDestroied
  {
    if n > 0 { NeverBothClear(history, n - 1); }
  }

  /** Locked ticks only redirect, unlocked ones only destroy, and none does both. */
  lemma {:induction false} EventKind(history: seq<bool>, n: nat)
    requires n < |history|
    ensures EventsAt(history, n) == [] || EventsAt(history, n) == [if history[n] then Redirect else Destroy]
  {
  }

  lemma {:induction false} QuietInPhase(history: seq<bool>, i: nat, j: nat)
    requires i < j < |history| && forall k | i <= k <= j :: history[k] == history[i]
    ensures EventsAt(history, j) == []
    decreases j
  {
    NeverBothClear(history, j);
  }

  /** A phase has at most one event, and only in its first tick. */
  lemma {:induction false} OneEventPerPhase(history: seq<bool>, i: nat, j: nat)
    requires i < j < |history| && forall k | i <= k <= j :: history[k] == history[i]
    ensures |EventsAt(history, i) + EventsAt(history, j)| <= 1
  {
    QuietInPhase(history, i, j);
  }

  // ----- When the rules follow the lock -----

  /** The lock changes at tick `i`. */
  predicate Switches(history: seq<bool>, i: nat)
    requires i < |history|
  {
    i > 0 && history[i] != history[i - 1]
  }

  /** The phase that ends before tick `i` has two ticks at least, or is the unlocked
      phase of one tick that the history starts with. */
  predicate Rested(history: seq<bool>, i: nat)
    requires 0 < i < |history|
  {
    if i == 1 then !history[0] else history[i - 2] == history[i - 1]
  }

  /** Every phase completed within the first `n` ticks has two ticks at least, but for a
      leading unlocked one. */
  predicate Stable(history: seq<bool>, n: nat)
    requires n <= |history|
  {
    forall i | 0 < i < n && Switches(history, i) :: Rested(history, i)
  }

  /** The flags after `n > 0` ticks of a stable history. */
  function StableState(history: seq<bool>, n: nat): State
    requires 0 < n <= |history|
  {
    if n == 1 then (if history[0] then State(true, true) else INITIAL)
    else if history[n - 1] != history[n - 2] then State(true, true)
    else if history[n - 1] then State(true, false)
    else State(false, true)
  }

  /** One more tick of a stable history. */
  lemma {:induction false} StableTick(history: seq<bool>, n: nat)
    requires 0 < n < |history| && After(history, n) == StableState(history, n)
    requires Switches(history, n) ==> Rested(history, n)
    ensures After(history, n + 1) == StableState(history, n + 1)
    ensures EventsAt(history, n) == if !Switches(history, n) then [] else if history[n] then [Redirect] else [Destroy]
  {
  }

  lemma {:induction false} StableFlags(history: seq<bool>, n: nat)
    requires 0 < n <= |history| && Stable(history, n)
    ensures After(history, n) == StableState(history, n)
  {
    if n > 1 {
      StableFlags(history, n - 1);
      assert Switches(history, n - 1) ==> Rested(history, n - 1);
      StableTick(history, n - 1);
    }
  }

  lemma {:induction false} InstalledAfter(events: seq<Event>, more: seq<Event>)
    ensures Installed(events + more) == if more == [] then Installed(events) else Installed(more)
  {
    assert more == [] ==> events + more == events;
  }

  /** A tick of a stable history fires exactly when the lock changes, or first locks. */
  lemma {:induction false} StableEvents(history: seq<bool>, m: nat)
    requires m < |history| && Stable(history, m + 1)
    ensures EventsAt(history, m) ==
      if m == 0 then (if history[0] then [Redirect] else [])
      else if !Switches(history, m) then [] else if history[m] then [Redirect] else [Destroy]
  {
    if m > 0 {
      StableFlags(history, m);
      assert Switches(history, m) ==> Rested(history, m);
      StableTick(history, m);
    }
  }

  lemma {:induction false} StableInstalled(history: seq<bool>, n: nat)
    requires n <= |history| && Stable(history, n)
    ensures Installed(Events(history, n)) == (n > 0 && history[n - 1])
  {
    if n > 0 {
      StableInstalled(history, n - 1);
      InstalledNext(history, n - 1);
    }
  }

  lemma {:induction false} InstalledNext(history: seq<bool>, m: nat)
    requires m < |history| && Stable(history, m + 1) && Installed(Events(history, m)) == (m > 0 && history[m - 1])
    ensures Installed(Events(history, m + 1)) == history[m]
  {
    StableEvents(history, m);
    InstalledAfter(Events(history, m), EventsAt(history, m));
  }

  lemma {:induction false} StableRun(history: seq<bool>, n: nat)
    requires n <= |history| && Stable(history, n)
    ensures n > 0 ==> After(history, n) == StableState(history, n)
    ensures Installed(Events(history, n)) == (n > 0 && history[n - 1])
  {
    if n > 0 { StableFlags(history, n); }
    StableInstalled(history, n);
  }

  /** A phase of one tick is left without an event, and the rules are out of step. */
  lemma {:induction false} UnrestedTick(history: seq<bool>, n: nat)
    requires 0 < n < |history| && Stable(history, n) && Switches(history, n) && !Rested(history, n)
    ensures EventsAt(history, n) == []
    ensures Installed(Events(history, n + 1)) != history[n]
    ensures After(history, n + 1) == if history[n] then State(true, false) else State(false, true)
  {
    StableRun(history, n);
    assert Events(history, n + 1) == Events(history, n) + [];
  }

  lemma {:induction false} FirstUnrested(history: seq<bool>, n: nat) returns (i: nat)
    requires n <= |history| && !Stable(history, n)
    ensures 0 < i < n && Stable(history, i) && Switches(history, i) && !Rested(history, i)
  {
    if Stable(history, n - 1) {
      i := n - 1;
    } else {
      i := FirstUnrested(history, n - 1);
    }
  }

  /** The rules are in place after each tick exactly when it was locked. */
  ghost predicate Follows(history: seq<bool>) {
    forall n | 0 < n <= |history| :: Installed(Events(history, n)) == history[n - 1]
  }

  /** The rules follow the lock exactly on the stable histories. */
  lemma {:induction false} FollowsIff(history: seq<bool>)
    ensures Follows(history) <==> Stable(history, |history|)
  {
    if Stable(history, |history|) {
      forall n | 0 < n <= |history|
        ensures Installed(Events(history, n)) == history[n - 1]
      {
        assert Stable(history, n);
        StableRun(history, n);
      }
    } else {
      var i := FirstUnrested(history, |history|);
      UnrestedTick(history, i);
      assert Installed(Events(history, i + 1)) != history[i + 1 - 1];
    }
  }

  // ----- When the events alternate -----

  /** Redirect first, then destroy and redirect in turn. */
  predicate Alternates(events: seq<Event>) {
    forall k | 0 <= k < |events| :: events[k] == if k % 2 == 0 then Redirect else Destroy
  }

  /** The last tick below `n` at which the lock changes. */
  function LastSwitch(history: seq<bool>, n: nat): (s: nat)
    requires n <= |history|
    ensures s <= n && (s == 0 || (s < n && Switches(history, s)))
    ensures forall i | s < i < n :: !Switches(history, i)
  {
    if n <= 1 then 0 else if Switches(history, n - 1) then n - 1 else LastSwitch(history, n - 1)
  }

  lemma {:induction false} AlternatesMore(events: seq<Event>, more: seq<Event>)
    requires |more| <= 1
    ensures Alternates(events + more) <==>
      Alternates(events) && (more == [] || more[0] == if |events| % 2 == 0 then Redirect else Destroy)
    ensures Alternates(events) ==> (Installed(events) <==> |events| % 2 == 1)
  {
    var all := events + more;
    assert more != [] ==> all[|events|] == more[0];
    if Alternates(all) {
      forall k | 0 <= k < |events|
        ensures events[k] == if k % 2 == 0 then Redirect else Destroy
      {
        assert all[k] == events[k];
      }
    }
  }

  /** The flags after a history whose last change broke a phase of one tick. */
  ghost predicate OutOfStep(history: seq<bool>, n: nat)
    requires 0 < n <= |history|
  {
    After(history, n) == (if history[n - 1] then State(true, false) else State(false, true)) &&
    Installed(Events(history, n)) != history[n - 1]
  }

  /** A stable history goes on without breaking the alternation. */
  lemma {:induction false} AlternationStable(history: seq<bool>, m: nat)
    requires 0 < m < |history| && Stable(history, m) && Alternates(Events(history, m))
    ensures Alternates(Events(history, m + 1))
    ensures !Stable(history, m + 1) ==> OutOfStep(history, m + 1)
  {
    StableRun(history, m);
    EventKind(history, m);
    AlternatesMore(Events(history, m), EventsAt(history, m));
    if !Stable(history, m + 1) { UnrestedTick(history, m); }
  }

  /** Once out of step, the next change repeats the event before it. */
  lemma {:induction false} AlternationBroken(history: seq<bool>, m: nat)
    requires 0 < m < |history| && Alternates(Events(history, m)) && OutOfStep(history, m)
    ensures Alternates(Events(history, m + 1)) <==> !Switches(history, m)
    ensures !Switches(history, m) ==> OutOfStep(history, m + 1)
  {
    EventKind(history, m);
    AlternatesMore(Events(history, m), EventsAt(history, m));
    if !Switches(history, m) { assert Events(history, m + 1) == Events(history, m) + []; }
  }

  lemma {:induction false} AlternationStep(history: seq<bool>, n: nat)
    requires n <= |history|
    ensures Alternates(Events(history, n)) <==> Stable(history, LastSwitch(history, n))
    ensures n > 0 && Stable(history, LastSwitch(history, n)) && !Stable(history, n) ==> OutOfStep(history, n)
  {
    if n > 1 {
      var m := n - 1;
      AlternationStep(history, m);
      EventKind(history, m);
      AlternatesMore(Events(history, m), EventsAt(history, m));
      if Stable(history, m) {
        AlternationStable(history, m);
      } else if Stable(history, LastSwitch(history, m)) {
        AlternationBroken(history, m);
      }
    }
  }

  /** Redirect and destroy strictly alternate exactly when every phase completed before
      the last change is stable; so they do on every stable history. */
  lemma {:induction false} AlternatesIff(history: seq<bool>)
    ensures Alternates(Events(history, |history|)) <==> Stable(history, LastSwitch(history, |history|))
    ensures Stable(history, |history|) ==> Alternates(Events(history, |history|))
  {
    AlternationStep(history, |history|);
  }

  // ----- One tick is not enough -----

  /** A locked phase of one tick leaves the rules in place, an unlocked one leaves them
      out, and another change then repeats an event. */
  lemma {:induction false} OneTickExamples()
    ensures var h := [true, false, true];
      Installed(Events(h, 2)) && Events(h, 3) == [Redirect, Redirect]
    ensures var h := [true, true, false, true, false];
      !Installed(Events(h, 4)) && Events(h, 5) == [Redirect, Destroy, Destroy]
  {
    var h := [true, false, true];
    assert After(h, 1) == State(true, true) && Events(h, 1) == [Redirect];
    assert After(h, 2) == State(false, true) && Events(h, 2) == [Redirect];
    var g := [true, true, false, true, false];
    assert After(g, 1) == State(true, true) && Events(g, 1) == [Redirect];
    assert After(g, 2) == State(true, false) && Events(g, 2) == [Redirect];
    assert After(g, 3) == State(true, true) && Events(g, 3) == [Redirect, Destroy];
    assert After(g, 4) == State(true, false) && Events(g, 4) == [Redirect, Destroy];
  }
}
