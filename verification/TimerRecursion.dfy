/** The timer calls as a machine with an explicit stack, one step at a time: when the recursion of
    resetTimerFd and handleTimerEvent never ends. */
module TimerRecursion {
  datatype Timer = Timer(id: nat, interval: int, periodic: bool, valid: bool)
  datatype Entry = Entry(timer: Timer, due: int)

  /** Where a call stands.  `Adding` is the loop that queues the periodic timers of a batch again. */
  datatype Frame =
    | Handling
    | Taking(batch: seq<Entry>, at: int)
    | Adding(todo: seq<Entry>, count: nat)
    | Resetting
    | Calling(left: nat)

  datatype Machine = Machine(queue: seq<Entry>, stack: seq<Frame>, now: int)

  ghost predicate Earliest(q: seq<Entry>, k: int) {
    0 <= k < |q| && forall i :: 0 <= i < |q| ==> q[k].due <= q[i].due
  }

  lemma {:induction false} SomeEarliest(q: seq<Entry>)
    requires q != []
    ensures exists k :: Earliest(q, k)
  {
    if |q| == 1 {
      assert Earliest(q, 0);
    } else {
      SomeEarliest(q[1..]);
      var k :| Earliest(q[1..], k);
      assert Earliest(q, if q[0].due <= q[1..][k].due then 0 else k + 1);
    }
  }

  /** The top of the priority queue; ties are broken in some way. */
  ghost function Top(q: seq<Entry>): (k: nat)
    requires q != []
    ensures Earliest(q, k)
  {
    SomeEarliest(q);
    var k: nat :| Earliest(q, k);
    k
  }

  ghost function Without(q: seq<Entry>, k: nat): seq<Entry>
    requires k < |q|
  {
    q[..k] + q[k + 1..]
  }

  /** One step of the innermost call; t is what get_now_ms returns if the step reads the clock. */
  ghost function Step(m: Machine, t: int): Machine {
    if m.stack == [] then m
    else
      var rest, top := m.stack[..|m.stack| - 1], m.stack[|m.stack| - 1];
      match top
      case Handling => Machine(m.queue, rest + [Taking([], t)], t)
      case Taking(batch, at) =>
        if m.queue != [] && m.queue[Top(m.queue)].due <= at then
          var e := m.queue[Top(m.queue)];
          Machine(Without(m.queue, Top(m.queue)), rest + [Taking(if e.timer.valid then batch + [e] else batch, at)], m.now)
        else Machine(m.queue, rest + [Adding(batch, |batch|)], m.now)
      case Adding(todo, count) =>
        if todo == [] then Machine(m.queue, rest + [Calling(count), Resetting], m.now)
        else if todo[0].timer.periodic then
          var e := Entry(todo[0].timer, t + todo[0].timer.interval);
          var isReset := m.queue == [] || m.queue[Top(m.queue)].due > e.due;
          Machine(m.queue + [e], rest + [Adding(todo[1..], count)] + (if isReset then [Resetting] else []), t)
        else Machine(m.queue, rest + [Adding(todo[1..], count)], m.now)
      case Resetting =>
        if m.queue == [] then Machine(m.queue, rest, m.now)
        else if m.queue[Top(m.queue)].due <= t then Machine(m.queue, rest + [Handling], t)
        else Machine(m.queue, rest, t)
      case Calling(left) =>
        if left == 0 then Machine(m.queue, rest, m.now) else Machine(m.queue, rest + [Calling(left - 1)], m.now)
  }

  /** The machine after n steps; the clock says what each step would read. */
  ghost function After(m: Machine, clock: nat -> int, n: nat): Machine {
    if n == 0 then m else Step(After(m, clock, n - 1), clock(n - 1))
  }

  ghost predicate Nondecreasing(clock: nat -> int, start: int) {
    start <= clock(0) && forall i: nat, j: nat :: i <= j ==> clock(i) <= clock(j)
  }

  /** A frame that will reset the fd, or handle its event, before it is done. */
  ghost predicate WillReset(f: Frame) { !f.Calling? }

  /** The timer is due in the queue and some call on the stack will still look at the queue. */
  ghost predicate Due(m: Machine, x: Timer) {
    && (exists j :: 0 <= j < |m.queue| && m.queue[j].timer == x && m.queue[j].due <= m.now)
    && (exists i :: 0 <= i < |m.stack| && WillReset(m.stack[i]))
  }

  ghost predicate Carries(f: Frame, x: Timer) {
    (f.Taking? && exists j :: 0 <= j < |f.batch| && f.batch[j].timer == x)
    || (f.Adding? && exists j :: 0 <= j < |f.todo| && f.todo[j].timer == x)
  }

  /** Some call on the stack has taken the timer and will queue it again. */
  ghost predicate Carried(m: Machine, x: Timer) {
    exists i :: 0 <= i < |m.stack| && Carries(m.stack[i], x)
  }

  /** Valid and periodic, with an interval that does not let the clock get ahead. */
  ghost predicate Harmful(x: Timer) {
    x.valid && x.periodic && x.interval <= 0
  }

  lemma Lower(m: Machine, i: nat)
    requires i < |m.stack| - 1
    ensures var rest := m.stack[..|m.stack| - 1]; i < |rest| && rest[i] == m.stack[i]
  {
  }

  /** Steps only replace the innermost call, and perhaps put calls on top of it. */
  lemma StackBelow(m: Machine, t: int, i: nat)
    requires i < |m.stack| - 1
    ensures i < |Step(m, t).stack| && Step(m, t).stack[i] == m.stack[i]
  {
    Lower(m, i);
  }

  lemma WithoutHas(q: seq<Entry>, k: nat, j: nat)
    requires k < |q| && j < |q| && j != k
    ensures exists i :: 0 <= i < |Without(q, k)| && Without(q, k)[i] == q[j]
  {
    assert Without(q, k)[if j < k then j else j - 1] == q[j];
  }

  /** Whatever the innermost call does, a due timer stays due or is taken by it. */
  lemma DueStep(m: Machine, t: int, x: Timer)
    requires Harmful(x) && Due(m, x) && m.now <= t
    ensures Due(Step(m, t), x) || Carried(Step(m, t), x)
  {
    var n := Step(m, t);
    var j :| 0 <= j < |m.queue| && m.queue[j].timer == x && m.queue[j].due <= m.now;
    var i :| 0 <= i < |m.stack| && WillReset(m.stack[i]);
    var last := |m.stack| - 1;
    if m.stack[last].Taking? && Top(m.queue) == j && m.queue != n.queue {
      var b := n.stack[last].batch;
      assert b[|b| - 1].timer == x;
      assert Carries(n.stack[last], x);
    } else {
      StaysQueued(m, t, x, j);
      if i < last {
        StackBelow(m, t, i);
      } else {
        StillResets(m, t, x, j);
      }
    }
  }

  lemma StaysQueued(m: Machine, t: int, x: Timer, j: nat)
    requires m.stack != [] && j < |m.queue| && m.queue[j].timer == x && m.queue[j].due <= m.now <= t
    requires m.stack[|m.stack| - 1].Taking? && Top(m.queue) == j ==> m.queue == Step(m, t).queue
    ensures var n := Step(m, t);
            exists i :: 0 <= i < |n.queue| && n.queue[i].timer == x && n.queue[i].due <= n.now
  {
    var n := Step(m, t);
    var top := m.stack[|m.stack| - 1];
    if top.Taking? && m.queue[Top(m.queue)].due <= top.at {
      WithoutHas(m.queue, Top(m.queue), j);
    } else {
      assert n.queue[j] == m.queue[j];
    }
  }

  lemma StillResets(m: Machine, t: int, x: Timer, j: nat)
    requires m.stack != [] && WillReset(m.stack[|m.stack| - 1])
    requires j < |m.queue| && m.queue[j].timer == x && m.queue[j].due <= m.now <= t
    ensures var n := Step(m, t); exists i :: 0 <= i < |n.stack| && WillReset(n.stack[i])
  {
    var n, last := Step(m, t), |m.stack| - 1;
    if m.stack[last].Adding? && m.stack[last].todo == [] {
      assert WillReset(n.stack[last + 1]);
    } else {
      assert WillReset(n.stack[last]);
    }
  }

  /** A carried timer stays carried until it is queued again, and then it is due at once. */
  lemma CarriedStep(m: Machine, t: int, x: Timer)
    requires Harmful(x) && Carried(m, x) && m.now <= t
    ensures Due(Step(m, t), x) || Carried(Step(m, t), x)
  {
    var n, last := Step(m, t), |m.stack| - 1;
    var i :| 0 <= i < |m.stack| && Carries(m.stack[i], x);
    if i < last {
      StackBelow(m, t, i);
    } else {
      match m.stack[last]
      case Taking(batch, at) =>
        TakingCarries(m, t, x);
      case Adding(todo, count) =>
        AddingCarries(m, t, x);
    }
  }

  lemma TakingCarries(m: Machine, t: int, x: Timer)
    requires m.stack != [] && m.stack[|m.stack| - 1].Taking? && Carries(m.stack[|m.stack| - 1], x)
    ensures Carried(Step(m, t), x)
  {
    var n, last := Step(m, t), |m.stack| - 1;
    var batch := m.stack[last].batch;
    var j :| 0 <= j < |batch| && batch[j].timer == x;
    if n.stack[last].Taking? {
      assert n.stack[last].batch[j].timer == x;
    } else {
      assert n.stack[last].todo[j].timer == x;
    }
    assert Carries(n.stack[last], x);
  }

  lemma AddingCarries(m: Machine, t: int, x: Timer)
    requires Harmful(x) && m.now <= t
    requires m.stack != [] && m.stack[|m.stack| - 1].Adding? && Carries(m.stack[|m.stack| - 1], x)
    ensures Due(Step(m, t), x) || Carried(Step(m, t), x)
  {
    var n, last := Step(m, t), |m.stack| - 1;
    var todo := m.stack[last].todo;
    var j :| 0 <= j < |todo| && todo[j].timer == x;
    assert n.stack[last] == Adding(todo[1..], m.stack[last].count);
    if j > 0 {
      assert n.stack[last].todo[j - 1].timer == x;
      assert Carries(n.stack[last], x);
    } else {
      assert n.queue[|m.queue|] == Entry(x, t + x.interval);
      assert WillReset(n.stack[last]);
    }
  }

  ghost predicate Alive(m: Machine, x: Timer) { Due(m, x) || Carried(m, x) }

  lemma {:induction false} StaysAlive(m: Machine, clock: nat -> int, x: Timer, n: nat)
    requires Harmful(x) && Alive(m, x) && Nondecreasing(clock, m.now)
    ensures Alive(After(m, clock, n), x) && After(m, clock, n).now <= clock(n)
  {
    if n > 0 {
      StaysAlive(m, clock, x, n - 1);
      var p := After(m, clock, n - 1);
      if Due(p, x) {
        DueStep(p, clock(n - 1), x);
      } else {
        CarriedStep(p, clock(n - 1), x);
      }
      assert clock(n - 1) <= clock(n);
    }
  }

  /** Once a valid periodic timer without a positive interval is due, no call that looks at the queue
      ever returns, whatever else is queued and however the clock goes on. */
  lemma NeverReturns(queue: seq<Entry>, j: nat, call: Frame, now: int, clock: nat -> int, n: nat)
    requires j < |queue| && Harmful(queue[j].timer) && queue[j].due <= now
    requires (call.Handling? || call.Resetting?) && Nondecreasing(clock, now)
    ensures After(Machine(queue, [call], now), clock, n).stack != []
  {
    var m := Machine(queue, [call], now);
    assert WillReset(m.stack[0]);
    StaysAlive(m, clock, queue[j].timer, n);
  }

  /** Adding such a timer to an empty queue is enough: it is due as soon as it is made. */
  lemma AddNeverReturns(x: Timer, now: int, clock: nat -> int, n: nat)
    requires Harmful(x) && Nondecreasing(clock, now)
    ensures After(Machine([Entry(x, now + x.interval)], [Resetting], now), clock, n).stack != []
  {
    NeverReturns([Entry(x, now + x.interval)], 0, Resetting, now, clock, n);
  }

  // ------------------------------------------------------ when it does return

  /** What is left of the horizon after a due time. */
  ghost function Room(e: Entry, h: int): nat {
    if e.due <= h then h + 1 - e.due else 0
  }

  ghost function Rooms(q: seq<Entry>, h: int): nat {
    if q == [] then 0 else Rooms(q[..|q| - 1], h) + Room(q[|q| - 1], h)
  }

  lemma RoomsSnoc(q: seq<Entry>, e: Entry, h: int)
    ensures Rooms(q + [e], h) == Rooms(q, h) + Room(e, h)
  {
    assert (q + [e])[..|q + [e]| - 1] == q;
  }

  lemma {:induction false} RoomsWithout(q: seq<Entry>, k: nat, h: int)
    requires k < |q|
    ensures Rooms(q, h) == Rooms(Without(q, k), h) + Room(q[k], h)
  {
    var last := |q| - 1;
    if k == last {
      assert Without(q, k) == q[..last];
    } else {
      RoomsWithout(q[..last], k, h);
      assert Without(q, k) == Without(q[..last], k) + [q[last]];
      RoomsSnoc(Without(q[..last], k), q[last], h);
    }
  }

  /** The entries a call has taken from the queue. */
  ghost function Holds(f: Frame): seq<Entry> {
    match f
    case Taking(batch, at) => batch
    case Adding(todo, count) => todo
    case _ => []
  }

  ghost function HeldRooms(stack: seq<Frame>, h: int): nat {
    if stack == [] then 0 else HeldRooms(stack[..|stack| - 1], h) + Rooms(Holds(stack[|stack| - 1]), h)
  }

  /** How many steps a call can still take while nothing leaves the queue for good or moves to a later time. */
  ghost function Weight(f: Frame): nat {
    match f
    case Handling => 5
    case Taking(batch, at) => 4 + 2 * |batch|
    case Adding(todo, count) => 3 + |todo| + count
    case Resetting => 1
    case Calling(left) => left + 1
  }

  ghost function Weights(stack: seq<Frame>): nat {
    if stack == [] then 0 else Weights(stack[..|stack| - 1]) + Weight(stack[|stack| - 1])
  }

  lemma Pushed(stack: seq<Frame>, f: Frame, h: int)
    ensures HeldRooms(stack + [f], h) == HeldRooms(stack, h) + Rooms(Holds(f), h)
    ensures Weights(stack + [f]) == Weights(stack) + Weight(f)
  {
    assert (stack + [f])[..|stack + [f]| - 1] == stack;
  }

  lemma PushedTwo(stack: seq<Frame>, f: Frame, g: Frame, h: int)
    ensures HeldRooms(stack + [f, g], h) == HeldRooms(stack, h) + Rooms(Holds(f), h) + Rooms(Holds(g), h)
    ensures Weights(stack + [f, g]) == Weights(stack) + Weight(f) + Weight(g)
  {
    assert stack + [f, g] == stack + [f] + [g];
    Pushed(stack + [f], g, h);
    Pushed(stack, f, h);
  }

  ghost function TotalRoom(m: Machine, h: int): nat { Rooms(m.queue, h) + HeldRooms(m.stack, h) }

  ghost predicate SomeDue(q: seq<Entry>, time: int) { q != [] && q[Top(q)].due <= time }

  /** The innermost call is bound to take something out of the queue, or to put it back for later. */
  ghost predicate WillTake(m: Machine) {
    m.stack != [] &&
    match m.stack[|m.stack| - 1]
    case Handling => SomeDue(m.queue, m.now)
    case Taking(batch, at) => batch != [] || SomeDue(m.queue, at)
    case Adding(todo, count) => todo != []
    case _ => false
  }

  ghost function Steps(m: Machine): nat { 3 * |m.queue| + Weights(m.stack) }

  /** The entry does not keep the call from returning before the horizon. */
  ghost predicate Harmless(e: Entry, h: int) {
    Harmful(e.timer) ==> e.due > h
  }

  ghost predicate AllHarmless(q: seq<Entry>, h: int) {
    forall j :: 0 <= j < |q| ==> Harmless(q[j], h)
  }

  ghost predicate TakenWell(s: seq<Entry>, now: int) {
    forall j :: 0 <= j < |s| ==> s[j].timer.valid && !Harmful(s[j].timer) && s[j].due <= now
  }

  ghost predicate FrameOk(f: Frame, now: int) {
    TakenWell(Holds(f), now) && (f.Taking? ==> f.at <= now)
  }

  ghost predicate Inv(m: Machine, h: int) {
    m.now <= h && AllHarmless(m.queue, h) && FramesOk(m.stack, m.now)
  }

  ghost predicate FramesOk(stack: seq<Frame>, now: int) {
    forall i :: 0 <= i < |stack| ==> FrameOk(stack[i], now)
  }

  lemma BelowOk(stack: seq<Frame>, now: int, later: int)
    requires stack != [] && FramesOk(stack, now) && now <= later
    ensures FramesOk(stack[..|stack| - 1], later)
  {
    var below := stack[..|stack| - 1];
    forall i | 0 <= i < |below|
      ensures FrameOk(below[i], later)
    {
      assert FrameOk(stack[i], now);
    }
  }

  lemma PushedOk(stack: seq<Frame>, f: Frame, now: int)
    requires FramesOk(stack, now) && FrameOk(f, now)
    ensures FramesOk(stack + [f], now)
  {
  }

  /** Lexicographically less. */
  ghost predicate Less(n: Machine, m: Machine, h: int) {
    || TotalRoom(n, h) < TotalRoom(m, h)
    || (TotalRoom(n, h) == TotalRoom(m, h) && WillTake(n) && !WillTake(m))
    || (TotalRoom(n, h) == TotalRoom(m, h) && (WillTake(m) ==> WillTake(n)) && Steps(n) < Steps(m))
  }

  /** The innermost call is replaced; what the frames below it hold does not change. */
  lemma Replaced(m: Machine, q: seq<Entry>, f: Frame, now: int, h: int)
    requires m.stack != [] && Inv(m, h) && AllHarmless(q, h) && m.now <= now <= h && FrameOk(f, now)
    ensures var n, top := Machine(q, m.stack[..|m.stack| - 1] + [f], now), m.stack[|m.stack| - 1];
            && Inv(n, h) && n.stack[|n.stack| - 1] == f
            && TotalRoom(n, h) - Rooms(q, h) - Rooms(Holds(f), h)
               == TotalRoom(m, h) - Rooms(m.queue, h) - Rooms(Holds(top), h)
            && Steps(n) - 3 * |q| - Weight(f) == Steps(m) - 3 * |m.queue| - Weight(top)
  {
    BelowOk(m.stack, m.now, now);
    PushedOk(m.stack[..|m.stack| - 1], f, now);
    Pushed(m.stack[..|m.stack| - 1], f, h);
  }

  lemma ReplacedByTwo(m: Machine, q: seq<Entry>, f: Frame, g: Frame, now: int, h: int)
    requires m.stack != [] && Inv(m, h) && AllHarmless(q, h) && m.now <= now <= h && FrameOk(f, now) && FrameOk(g, now)
    ensures var n, top := Machine(q, m.stack[..|m.stack| - 1] + [f, g], now), m.stack[|m.stack| - 1];
            && Inv(n, h) && n.stack[|n.stack| - 1] == g
            && TotalRoom(n, h) - Rooms(q, h) - Rooms(Holds(f), h) - Rooms(Holds(g), h)
               == TotalRoom(m, h) - Rooms(m.queue, h) - Rooms(Holds(top), h)
            && Steps(n) - 3 * |q| - Weight(f) - Weight(g) == Steps(m) - 3 * |m.queue| - Weight(top)
  {
    var rest := m.stack[..|m.stack| - 1];
    BelowOk(m.stack, m.now, now);
    PushedOk(rest, f, now);
    PushedOk(rest + [f], g, now);
    assert rest + [f] + [g] == rest + [f, g];
    PushedTwo(rest, f, g, h);
  }

  lemma Returned(m: Machine, now: int, h: int)
    requires m.stack != [] && Inv(m, h) && m.now <= now <= h && Holds(m.stack[|m.stack| - 1]) == []
    ensures var n := Machine(m.queue, m.stack[..|m.stack| - 1], now);
            Inv(n, h) && TotalRoom(n, h) == TotalRoom(m, h) && Steps(n) < Steps(m)
  {
    BelowOk(m.stack, m.now, now);
  }

  lemma TakingStep(m: Machine, t: int, h: int)
    requires Inv(m, h) && m.now <= t <= h && m.stack != [] && m.stack[|m.stack| - 1].Taking?
    ensures Inv(Step(m, t), h) && Less(Step(m, t), m, h)
  {
    var top := m.stack[|m.stack| - 1];
    if SomeDue(m.queue, top.at) {
      var k := Top(m.queue);
      RoomsWithout(m.queue, k, h);
      RoomsSnoc(top.batch, m.queue[k], h);
      WithoutHarmless(m.queue, k, h);
      Replaced(m, Without(m.queue, k), if m.queue[k].timer.valid then Taking(top.batch + [m.queue[k]], top.at) else top,
               m.now, h);
    } else {
      Replaced(m, m.queue, Adding(top.batch, |top.batch|), m.now, h);
    }
  }

  lemma WithoutHarmless(q: seq<Entry>, k: nat, h: int)
    requires k < |q| && AllHarmless(q, h)
    ensures AllHarmless(Without(q, k), h)
  {
    forall j | 0 <= j < |q| - 1
      ensures Without(q, k)[j] == q[if j < k then j else j + 1]
    {
    }
  }

  /** The loop that queues periodic timers again, one step at a time. */
  lemma AddingShape(m: Machine, t: int)
    requires m.stack != [] && m.stack[|m.stack| - 1].Adding? && m.stack[|m.stack| - 1].todo != []
    ensures var rest, top := m.stack[..|m.stack| - 1], m.stack[|m.stack| - 1];
            var e, f := Entry(top.todo[0].timer, t + top.todo[0].timer.interval), Adding(top.todo[1..], top.count);
            Step(m, t) == if !top.todo[0].timer.periodic then Machine(m.queue, rest + [f], m.now)
                          else if SomeDue(m.queue, e.due) then Machine(m.queue + [e], rest + [f], t)
                          else Machine(m.queue + [e], rest + [f, Resetting], t)
  {
    var rest, top := m.stack[..|m.stack| - 1], m.stack[|m.stack| - 1];
    var f := Adding(top.todo[1..], top.count);
    assert rest + [f] + [Resetting] == rest + [f, Resetting];
    assert rest + [f] + [] == rest + [f];
  }

  lemma AddingStep(m: Machine, t: int, h: int)
    requires Inv(m, h) && m.now <= t <= h && m.stack != [] && m.stack[|m.stack| - 1].Adding?
    ensures Inv(Step(m, t), h) && Less(Step(m, t), m, h)
  {
    var top := m.stack[|m.stack| - 1];
    if top.todo == [] {
      ReplacedByTwo(m, m.queue, Calling(top.count), Resetting, m.now, h);
    } else {
      AddingShape(m, t);
      TodoOk(m.stack, m.now);
      TodoRooms(top.todo, h);
      AddOne(m, t, h, Step(m, t), top.todo[0], Adding(top.todo[1..], top.count));
    }
  }

  lemma TodoRooms(todo: seq<Entry>, h: int)
    requires todo != []
    ensures Rooms(todo, h) == Rooms(todo[1..], h) + Room(todo[0], h)
  {
    assert Without(todo, 0) == todo[1..];
    RoomsWithout(todo, 0, h);
  }

  lemma AddOne(m: Machine, t: int, h: int, n: Machine, first: Entry, f: Frame)
    requires Inv(m, h) && m.now <= t <= h && m.stack != []
    requires Rooms(Holds(m.stack[|m.stack| - 1]), h) == Rooms(Holds(f), h) + Room(first, h)
    requires first.due <= m.now && !(first.timer.periodic && first.timer.interval <= 0) && FrameOk(f, m.now)
    requires var rest, e := m.stack[..|m.stack| - 1], Entry(first.timer, t + first.timer.interval);
             n == if !first.timer.periodic then Machine(m.queue, rest + [f], m.now)
                  else if SomeDue(m.queue, e.due) then Machine(m.queue + [e], rest + [f], t)
                  else Machine(m.queue + [e], rest + [f, Resetting], t)
    ensures Inv(n, h) && TotalRoom(n, h) < TotalRoom(m, h)
  {
    if !first.timer.periodic {
      Replaced(m, m.queue, f, m.now, h);
    } else {
      var e := Entry(first.timer, t + first.timer.interval);
      RoomsSnoc(m.queue, e, h);
      HarmlessSnoc(m.queue, e, h);
      if SomeDue(m.queue, e.due) {
        Replaced(m, m.queue + [e], f, t, h);
      } else {
        ReplacedByTwo(m, m.queue + [e], f, Resetting, t, h);
      }
    }
  }

  lemma TodoOk(stack: seq<Frame>, now: int)
    requires stack != [] && FramesOk(stack, now) && stack[|stack| - 1].Adding? && stack[|stack| - 1].todo != []
    ensures var todo := stack[|stack| - 1].todo;
            todo[0].timer.valid && !Harmful(todo[0].timer) && todo[0].due <= now && TakenWell(todo[1..], now)
  {
    assert FrameOk(stack[|stack| - 1], now);
  }

  lemma HarmlessSnoc(q: seq<Entry>, e: Entry, h: int)
    requires AllHarmless(q, h) && Harmless(e, h)
    ensures AllHarmless(q + [e], h)
  {
  }

  lemma OtherStep(m: Machine, t: int, h: int)
    requires Inv(m, h) && m.now <= t <= h && m.stack != []
    requires !m.stack[|m.stack| - 1].Taking? && !m.stack[|m.stack| - 1].Adding?
    ensures Inv(Step(m, t), h) && Less(Step(m, t), m, h)
  {
    match m.stack[|m.stack| - 1]
    case Handling =>
      Replaced(m, m.queue, Taking([], t), t, h);
    case Resetting =>
      if SomeDue(m.queue, t) {
        Replaced(m, m.queue, Handling, t, h);
      } else {
        Returned(m, if m.queue == [] then m.now else t, h);
      }
    case Calling(left) =>
      if left > 0 {
        Replaced(m, m.queue, Calling(left - 1), m.now, h);
      } else {
        Returned(m, m.now, h);
      }
  }

  /** Without a harmful timer due before the horizon every step brings the end nearer. */
  lemma StepDescends(m: Machine, t: int, h: int)
    requires Inv(m, h) && m.now <= t <= h && m.stack != []
    ensures Inv(Step(m, t), h) && Less(Step(m, t), m, h) && Step(m, t).now <= t
  {
    match m.stack[|m.stack| - 1]
    case Taking(batch, at) => TakingStep(m, t, h);
    case Adding(todo, count) => AddingStep(m, t, h);
    case _ => OtherStep(m, t, h);
  }

  /** A clock that never goes back and stays within a horizon. */
  ghost predicate Within(clock: nat -> int, start: int, h: int) {
    Nondecreasing(clock, start) && forall i: nat :: clock(i) <= h
  }

  ghost predicate Ends(m: Machine, clock: nat -> int) {
    exists n: nat :: After(m, clock, n).stack == []
  }

  lemma {:induction false} EndsAfter(m: Machine, clock: nat -> int, h: int, n: nat)
    requires Within(clock, m.now, h)
    requires var p := After(m, clock, n); Inv(p, h) && p.now <= clock(n)
    ensures Ends(m, clock)
    decreases TotalRoom(After(m, clock, n), h), if WillTake(After(m, clock, n)) then 0 else 1, Steps(After(m, clock, n))
  {
    var p := After(m, clock, n);
    if p.stack != [] {
      StepDescends(p, clock(n), h);
      assert After(m, clock, n + 1) == Step(p, clock(n));
      assert clock(n) <= clock(n + 1);
      EndsAfter(m, clock, h, n + 1);
    }
  }

  /** With the clock at the horizon from the first reading on, a harmful timer due by then is due at once. */
  lemma {:induction false} AtHorizon(m: Machine, x: Timer, h: int, n: nat)
    requires Harmful(x) && m.now <= h && (exists j :: 0 <= j < |m.queue| && m.queue[j].timer == x && m.queue[j].due <= h)
    requires m.stack == [Handling] || m.stack == [Resetting]
    ensures n > 0 ==> Alive(After(m, _ => h, n), x) && After(m, _ => h, n).now <= h
  {
    var clock := _ => h;
    if n == 1 {
      var p := Step(After(m, clock, 0), clock(0));
      assert WillReset(p.stack[0]);
    } else if n > 1 {
      AtHorizon(m, x, h, n - 1);
      var p := After(m, clock, n - 1);
      if Due(p, x) {
        DueStep(p, h, x);
      } else {
        CarriedStep(p, h, x);
      }
    }
  }

  /** A call that looks at the queue returns for every clock within the horizon exactly when no timer in
      the queue is harmful and due by the horizon. */
  lemma ReturnsIff(queue: seq<Entry>, call: Frame, now: int, h: int)
    requires (call.Handling? || call.Resetting?) && now <= h
    ensures (forall clock: nat -> int :: Within(clock, now, h) ==> Ends(Machine(queue, [call], now), clock))
            <==> AllHarmless(queue, h)
  {
    var m := Machine(queue, [call], now);
    if AllHarmless(queue, h) {
      forall clock: nat -> int | Within(clock, now, h)
        ensures Ends(m, clock)
      {
        EndsAfter(m, clock, h, 0);
      }
    } else {
      var j :| 0 <= j < |queue| && !Harmless(queue[j], h);
      var clock: nat -> int := _ => h;
      assert Within(clock, now, h);
      forall n: nat
        ensures After(m, clock, n).stack != []
      {
        AtHorizon(m, queue[j].timer, h, n);
      }
      assert !Ends(m, clock);
    }
  }
}
