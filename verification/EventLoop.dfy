/** An event loop's queue of tasks: pushed to by any thread, swapped out and run by its own. */
module EventLoops {
  /** Where the loop's thread is. */
  datatype Place = FirstSwap | FirstDrain | Waiting | SecondSwap | SecondDrain | Exiting | Done

  datatype Loop<T> = Loop(place: Place, running: bool, local: seq<T>, shared: seq<T>, pushed: seq<T>, ran: seq<T>)

  /** A push or a stop by any thread, or a step of the loop's thread, whose epoll_wait may fail.  Tasks
      pushed by a task that runs, or for the events waited for, are pushes too. */
  datatype Event<T> = Push(task: T) | Stop | Advance | WaitFails

  ghost function Initial<T>(): Loop<T> { Loop(FirstSwap, true, [], [], [], []) }

  /** The exit drain holds the mutex: nobody pushes during it. */
  ghost predicate Allowed<T>(s: Loop<T>, e: Event<T>) {
    match e
    case Push(_) => !s.place.Exiting?
    case Stop => true
    case Advance => !s.place.Done?
    case WaitFails => s.place.Waiting?
  }

  ghost function Next<T>(s: Loop<T>, e: Event<T>): Loop<T>
    requires Allowed(s, e)
  {
    match e
    case Push(t) => s.(shared := s.shared + [t], pushed := s.pushed + [t])
    case Stop => s.(running := false)
    case Advance => Advanced(s)
    case WaitFails => s.(place := LoopAgain(s))
  }

  ghost function LoopAgain<T>(s: Loop<T>): Place { if s.running then FirstSwap else Exiting }

  /** The two swaps, one task of a drain at a time, and the check of the loop's condition. */
  ghost function Advanced<T>(s: Loop<T>): Loop<T> {
    match s.place
    case FirstSwap => s.(place := FirstDrain, local := s.shared, shared := s.local)
    case FirstDrain => if s.local == [] then s.(place := Waiting) else RunLocal(s)
    case Waiting => s.(place := SecondSwap)
    case SecondSwap => s.(place := SecondDrain, local := s.shared, shared := s.local)
    case SecondDrain =>
      if s.local != [] then RunLocal(s) else s.(place := LoopAgain(s))
    case Exiting => if s.shared == [] then s.(place := Done) else s.(shared := s.shared[1..], ran := s.ran + [s.shared[0]])
    case Done => s
  }

  ghost function RunLocal<T>(s: Loop<T>): Loop<T>
    requires s.local != []
  {
    s.(local := s.local[1..], ran := s.ran + [s.local[0]])
  }

  ghost predicate IsRun<T>(s: Loop<T>, es: seq<Event<T>>)
    decreases |es|
  {
    es != [] ==> Allowed(s, es[0]) && IsRun(Next(s, es[0]), es[1..])
  }

  ghost function RunTo<T>(s: Loop<T>, es: seq<Event<T>>): Loop<T>
    requires IsRun(s, es)
    decreases |es|
  {
    if es == [] then s else RunTo(Next(s, es[0]), es[1..])
  }

  /** Every task pushed has run, or waits in the local queue, or behind it in the shared one. */
  ghost predicate Inv<T>(s: Loop<T>) {
    && s.pushed == s.ran + s.local + s.shared
    && (!s.place.FirstDrain? && !s.place.SecondDrain? ==> s.local == [])
    && (s.place.Exiting? || s.place.Done? ==> !s.running)
  }

  lemma HeadFirst<T>(a: seq<T>, b: seq<T>, c: seq<T>)
    requires b != []
    ensures (a + b) + c == ((a + [b[0]]) + b[1..]) + c && a <= a + [b[0]]
  {
    assert b == [b[0]] + b[1..];
  }

  lemma AdvanceKeepsInv<T>(s: Loop<T>)
    requires Inv(s)
    ensures Inv(Advanced(s)) && s.ran <= Advanced(s).ran && s.pushed == Advanced(s).pushed
  {
    if s.place.Exiting? && s.shared != [] {
      HeadFirst(s.ran, s.shared, []);
    } else if s.local != [] {
      HeadFirst(s.ran, s.local, s.shared);
    }
  }

  lemma NextKeepsInv<T>(s: Loop<T>, e: Event<T>)
    requires Inv(s) && Allowed(s, e)
    ensures Inv(Next(s, e)) && s.ran <= Next(s, e).ran && s.pushed <= Next(s, e).pushed
  {
    match e
    case Push(t) => assert (s.ran + s.local + s.shared) + [t] == s.ran + s.local + (s.shared + [t]);
    case Advance => AdvanceKeepsInv(s);
    case _ =>
  }

  /** In every interleaving what has run is what was pushed first, in order, each once. */
  lemma {:induction false} RunsInPushOrder<T>(s: Loop<T>, es: seq<Event<T>>)
    requires Inv(s) && IsRun(s, es)
    ensures var t := RunTo(s, es);
            && Inv(t) && t.ran <= t.pushed && s.ran <= t.ran && s.pushed <= t.pushed
            && (t.place.Waiting? || t.place.FirstSwap? ==> t.pushed == t.ran + t.shared)
    decreases |es|
  {
    if es != [] {
      NextKeepsInv(s, es[0]);
      RunsInPushOrder(Next(s, es[0]), es[1..]);
    }
  }

  /** At the end of the exit drain nothing is left but what was pushed after it. */
  lemma {:induction false} ExitEmptiesQueue<T>(s: Loop<T>, es: seq<Event<T>>)
    requires Inv(s) && s.place.Exiting? && IsRun(s, es)
    requires forall i :: 0 <= i < |es| ==> !es[i].Push?
    ensures var t := RunTo(s, es);
            t.pushed == s.pushed && (t.place.Done? ==> t.ran == s.pushed) && (t.place.Exiting? || t.place.Done?)
    decreases |es|
  {
    if es != [] {
      NextKeepsInv(s, es[0]);
      var n := Next(s, es[0]);
      if n.place.Done? {
        DoneStays(n, es[1..]);
      } else {
        ExitEmptiesQueue(n, es[1..]);
      }
    }
  }

  lemma {:induction false} DoneStays<T>(s: Loop<T>, es: seq<Event<T>>)
    requires s.place.Done? && IsRun(s, es) && forall i :: 0 <= i < |es| ==> !es[i].Push?
    ensures RunTo(s, es) == s.(running := RunTo(s, es).running)
    decreases |es|
  {
    if es != [] {
      DoneStays(Next(s, es[0]), es[1..]);
    }
  }

  /** A pass: what the shared queue holds at a swap has run when the drain behind it ends. */
  lemma {:induction false} DrainRunsSwapped<T>(s: Loop<T>, es: seq<Event<T>>, was: seq<T>)
    requires Inv(s) && (s.place.FirstDrain? || s.place.SecondDrain?) && IsRun(s, es)
    requires was <= s.ran + s.local
    ensures var t := RunTo(s, es); t.place == s.place || was <= t.ran
    decreases |es|
  {
    if es != [] {
      NextKeepsInv(s, es[0]);
      var n := Next(s, es[0]);
      if n.place == s.place {
        if s.local != [] {
          assert s.local == [s.local[0]] + s.local[1..];
        }
        DrainRunsSwapped(n, es[1..], was);
      } else {
        assert s.ran + [] == s.ran;
        RunsInPushOrder(n, es[1..]);
      }
    }
  }

  /** Every task pushed before a swap has run once the loop's thread has left the drain that follows. */
  lemma PassRunsAll<T>(s: Loop<T>, es: seq<Event<T>>)
    requires Inv(s) && (s.place.FirstSwap? || s.place.SecondSwap?) && IsRun(s, [Advance] + es)
    ensures var t := RunTo(Advanced(s), es); t.place == Advanced(s).place || s.pushed <= t.ran
  {
    var all := [Event.Advance] + es;
    assert all[0] == Advance && all[1..] == es;
    NextKeepsInv(s, Advance);
    DrainRunsSwapped(Advanced(s), es, s.pushed);
  }

  /** At the end of a pass, and when waiting fails, the thread begins another pass if the loop is running and
      goes to the exit drain if it has been stopped; it gets to neither in any other way. */
  lemma LoopGoesOn<T>(s: Loop<T>, e: Event<T>)
    requires Allowed(s, e)
    ensures var again := e.WaitFails? || (e.Advance? && s.place.SecondDrain? && s.local == []);
            && (Next(s, e).place.FirstSwap? <==> if again then s.running else s.place.FirstSwap? && !e.Advance?)
            && (Next(s, e).place.Exiting? <==>
                  if again then !s.running else s.place.Exiting? && !(e.Advance? && s.shared == []))
  {
    if e.Advance? {
      assert s.place.Exiting? ==> Advanced(s).place in {Exiting, Done};
    }
  }

  // -------------------------------------------------------------- the class

  class EventLoop<T> {
    /** pending_tasks, the local of `loop`, and m_pending_tasks. */
    var local: seq<T>
    var pendingTasks: seq<T>
    var isRunning: bool
    ghost var pushed: seq<T>
    ghost var ran: seq<T>
    ghost var place: Place

    ghost function View(): Loop<T>
      reads this
    {
      Loop(place, isRunning, local, pendingTasks, pushed, ran)
    }

    constructor ()
      ensures View() == Initial()
    {
      local, pendingTasks, isRunning := [], [], true;
      pushed, ran, place := [], [], FirstSwap;
    }

    method AddTask(cb: T)
      requires !place.Exiting?
      modifies this
      ensures View() == Next(old(View()), Push(cb))
    {
      pendingTasks := pendingTasks + [cb];
      pushed := pushed + [cb];
    }

    method Stop()
      modifies this`isRunning
      ensures View() == Next(old(View()), Event.Stop)
    {
      isRunning := false;
    }

    method Swap()
      requires place.FirstSwap? || place.SecondSwap?
      modifies this
      ensures View() == Advanced(old(View()))
    {
      local, pendingTasks := pendingTasks, local;
      place := if place.FirstSwap? then FirstDrain else SecondDrain;
    }

    /** One turn of a drain loop, or its end. */
    method DrainStep() returns (cb: seq<T>)
      requires place.FirstDrain? || place.SecondDrain?
      modifies this
      ensures View() == Advanced(old(View()))
      ensures cb == if old(local) == [] then [] else [old(local)[0]]
    {
      if local == [] {
        place := if place.FirstDrain? then Waiting else if isRunning then FirstSwap else Exiting;
        return [];
      }
      cb := [local[0]];
      local := local[1..];
      ran := ran + cb;
    }

    /** The drain after the loop, the mutex held: everything still shared runs, in order. */
    method ExitDrain()
      requires place.Exiting?
      modifies this
      ensures place.Done? && pendingTasks == [] && ran == old(ran) + old(pendingTasks)
      ensures pushed == old(pushed) && local == old(local)
    {
      while pendingTasks != []
        invariant place.Exiting? && pushed == old(pushed) && local == old(local)
        invariant ran + pendingTasks == old(ran) + old(pendingTasks)
        decreases |pendingTasks|
      {
        assert pendingTasks == [pendingTasks[0]] + pendingTasks[1..];
        ran := ran + [pendingTasks[0]];
        pendingTasks := pendingTasks[1..];
      }
      place := Done;
    }
  }
}
