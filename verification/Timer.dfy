/** The timer queue: adding a timer, arming the timer fd and handling its events call one another. */
module Timers {
  import opened Options

  /** A millisecond clock that never goes back and, during the calls looked at, stays within a horizon. */
  class Clock {
    var now: int
    const horizon: int

    constructor (now: int, horizon: int)
      requires now <= horizon
      ensures this.now == now && this.horizon == horizon
    {
      this.now, this.horizon := now, horizon;
    }

    /** get_now_ms: any time from the last one on. */
    method GetNowMs() returns (t: int)
      requires now <= horizon
      modifies this
      ensures old(now) <= t == now <= horizon
    {
      t :| now <= t <= horizon;
      now := t;
    }
  }

  class TimerEvent {
    const interval: int
    var trigger: int
    var periodic: bool
    var valid: bool

    constructor (interval: int, periodic: bool, clock: Clock)
      requires clock.now <= clock.horizon
      modifies clock
      ensures old(clock.now) <= clock.now <= clock.horizon
      ensures this.interval == interval && trigger == clock.now + interval && this.periodic == periodic && valid
    {
      var t := clock.GetNowMs();
      this.interval, trigger, this.periodic, valid := interval, t + interval, periodic, true;
    }

    method ResetTime(clock: Clock)
      requires clock.now <= clock.horizon
      modifies this`trigger, clock
      ensures old(clock.now) <= clock.now <= clock.horizon && trigger == clock.now + interval
    {
      var t := clock.GetNowMs();
      trigger := t + interval;
    }
  }

  // -------------------------------------------------- armings and firings

  /** A timer in the queue with the time it waits for. */
  datatype Arming = Arming(timer: TimerEvent, due: int)

  /** An arming taken from the queue at a time, and the time its timer was then armed for again. */
  datatype Firing = Firing(arming: Arming, at: int, next: Option<int>)

  ghost function Armings(log: seq<Firing>): (s: seq<Arming>)
    ensures |s| == |log| && forall i :: 0 <= i < |s| ==> s[i] == log[i].arming
  {
    seq(|log|, i requires 0 <= i < |log| => log[i].arming)
  }

  /** The armings made for periodic timers that fired. */
  ghost function Rearmed(log: seq<Firing>): multiset<Arming> {
    if log == [] then multiset{} else Rearmed(log[..|log| - 1]) + Again(log[|log| - 1])
  }

  ghost function Again(f: Firing): multiset<Arming> {
    if f.next.Some? then multiset{Arming(f.arming.timer, f.next.value)} else multiset{}
  }

  lemma {:induction false} RearmedConcat(a: seq<Firing>, b: seq<Firing>)
    ensures Rearmed(a + b) == Rearmed(a) + Rearmed(b)
  {
    if b == [] {
      assert a + b == a;
    } else {
      assert (a + b)[..|a + b| - 1] == a + b[..|b| - 1];
      RearmedConcat(a, b[..|b| - 1]);
    }
  }

  /** A firing is never early; it arms its timer strictly later again, one interval after a time read
      since. */
  ghost predicate Proper(f: Firing) {
    f.arming.due <= f.at && (f.next.Some? ==> f.next.value > f.at && f.at <= f.next.value - f.arming.timer.interval)
  }

  /** It happened, and its timer was armed again, by this time. */
  ghost predicate Past(f: Firing, now: int) {
    f.at <= now && (f.next.Some? ==> f.next.value - f.arming.timer.interval <= now)
  }

  ghost predicate AllPast(batch: seq<Firing>, now: int) {
    forall i :: 0 <= i < |batch| ==> Past(batch[i], now)
  }

  lemma PastMore(done: seq<Firing>, g: Firing, now: int, later: int)
    requires AllPast(done, now) && now <= later && Past(g, later)
    ensures AllPast(done + [g], later)
  {
  }

  ghost function Without(s: seq<Arming>, k: nat): seq<Arming>
    requires k < |s|
  {
    s[..k] + s[k + 1..]
  }

  lemma MultisetWithout(s: seq<Arming>, k: nat)
    requires k < |s|
    ensures multiset(s) == multiset(Without(s, k)) + multiset{s[k]}
  {
    assert s == s[..k] + [s[k]] + s[k + 1..];
  }

  // --------------------------------------------------------------- the book

  /** What a queue has been through: every arming made from outside; every firing, in the order of the
      callbacks; every arming discarded because its timer was deleted; and what handlers whose callbacks
      have not run yet took from the queue and armed again. */
  datatype Book = Book(added: multiset<Arming>, log: seq<Firing>, dropped: seq<Arming>,
                       inFlight: multiset<Arming>, rearming: multiset<Arming>)

  /** Nothing is lost or made up: what was armed is pending, has fired, was discarded, or is in flight. */
  ghost predicate Balanced(b: Book, snap: seq<Arming>) {
    && (b.added + Rearmed(b.log)) + b.rearming
       == (multiset(snap) + multiset(b.dropped)) + multiset(Armings(b.log)) + b.inFlight
    && forall i :: 0 <= i < |b.log| ==> Proper(b.log[i])
  }

  /** No handler is running. */
  ghost predicate BetweenEvents(b: Book) {
    b.inFlight == multiset{} && b.rearming == multiset{}
  }

  /** Between events what was armed, from outside or again, is what is pending, what fired and what was
      discarded: an arming ends in one way, and as often as it was made. */
  ghost predicate Accounted(made: multiset<Arming>, b: Book, snap: seq<Arming>) {
    && BetweenEvents(b)
    && made + Rearmed(b.log) == multiset(snap) + multiset(b.dropped) + multiset(Armings(b.log))
    && forall i :: 0 <= i < |b.log| ==> Proper(b.log[i])
  }

  lemma BalancedBetweenEvents(b: Book, snap: seq<Arming>)
    requires Balanced(b, snap) && BetweenEvents(b)
    ensures Accounted(b.added, b, snap)
  {
    assert (b.added + Rearmed(b.log)) + b.rearming == b.added + Rearmed(b.log);
    assert ((multiset(snap) + multiset(b.dropped)) + multiset(Armings(b.log))) + b.inFlight
        == (multiset(snap) + multiset(b.dropped)) + multiset(Armings(b.log));
  }

  /** So an arming made once fires at most once, and one that is pending has not fired. */
  lemma EachArmingOnce(made: multiset<Arming>, b: Book, snap: seq<Arming>, a: Arming)
    requires Accounted(made, b, snap)
    ensures made[a] + Rearmed(b.log)[a] == multiset(snap)[a] + multiset(Armings(b.log))[a] + multiset(b.dropped)[a]
    ensures made[a] + Rearmed(b.log)[a] == 1 && a in snap ==> a !in Armings(b.log) && a !in b.dropped
    ensures made[a] + Rearmed(b.log)[a] == 1 ==> multiset(Armings(b.log))[a] <= 1
  {
    assert (made + Rearmed(b.log))[a] == (multiset(snap) + multiset(b.dropped) + multiset(Armings(b.log)))[a];
    assert a in snap ==> multiset(snap)[a] > 0;
    assert a in Armings(b.log) ==> multiset(Armings(b.log))[a] > 0;
    assert a in b.dropped ==> multiset(b.dropped)[a] > 0;
  }

  // ---------------------------------------------------------- the measure

  /** What is left of the horizon after a due time. */
  ghost function Room(due: int, h: int): nat {
    if due <= h then h + 1 - due else 0
  }

  ghost function Rooms(s: seq<Arming>, h: int): nat {
    if s == [] then 0 else Rooms(s[..|s| - 1], h) + Room(s[|s| - 1].due, h)
  }

  lemma {:induction false} RoomsConcat(a: seq<Arming>, b: seq<Arming>, h: int)
    ensures Rooms(a + b, h) == Rooms(a, h) + Rooms(b, h)
  {
    if b == [] {
      assert a + b == a;
    } else {
      assert (a + b)[..|a + b| - 1] == a + b[..|b| - 1];
      RoomsConcat(a, b[..|b| - 1], h);
    }
  }

  lemma RoomsSnoc(s: seq<Arming>, a: Arming, h: int)
    ensures Rooms(s + [a], h) == Rooms(s, h) + Room(a.due, h)
  {
    assert (s + [a])[..|s + [a]| - 1] == s;
  }

  lemma RoomsWithout(s: seq<Arming>, k: nat, h: int)
    requires k < |s|
    ensures Rooms(s, h) == Rooms(Without(s, k), h) + Room(s[k].due, h)
  {
    assert s == (s[..k] + [s[k]]) + s[k + 1..];
    RoomsConcat(s[..k] + [s[k]], s[k + 1..], h);
    RoomsSnoc(s[..k], s[k], h);
    RoomsConcat(s[..k], s[k + 1..], h);
  }

  // ------------------------------------------------- taking the due timers

  /** Firings in the order of their due times. */
  ghost predicate Ordered(batch: seq<Firing>) {
    forall i, j :: 0 <= i < j < |batch| ==> batch[i].arming.due <= batch[j].arming.due
  }

  ghost predicate DistinctTimers(s: seq<Arming>) {
    forall i, j :: 0 <= i < j < |s| ==> s[i].timer != s[j].timer
  }

  ghost function TimersOf(s: seq<Arming>): set<TimerEvent> { set a <- s :: a.timer }

  /** A queue has been split into what is kept, what fires at a time, and what is discarded. */
  ghost predicate Split(q: seq<Arming>, kept: seq<Arming>, batch: seq<Firing>, gone: seq<Arming>, at: int) {
    && multiset(q) == multiset(kept) + multiset(Armings(batch)) + multiset(gone)
    && Ordered(batch)
    && (forall j :: 0 <= j < |batch| ==> batch[j].arming.due <= at && batch[j].at == at)
    && (forall j :: 0 <= j < |gone| ==> gone[j].due <= at)
  }

  /** Midway: what has been taken was due before all that is kept, and it is of other timers. */
  ghost predicate Apart(kept: seq<Arming>, batch: seq<Firing>) {
    && DistinctTimers(kept) && DistinctTimers(Armings(batch))
    && forall i, j :: 0 <= i < |kept| && 0 <= j < |batch| ==>
         batch[j].arming.due <= kept[i].due && batch[j].arming.timer != kept[i].timer
  }

  lemma WithoutAt(s: seq<Arming>, k: nat, i: nat)
    requires k < |s| && i < |s| - 1
    ensures Without(s, k)[i] == s[if i < k then i else i + 1]
  {
  }

  lemma WithoutKeepsApart(kept: seq<Arming>, batch: seq<Firing>, k: nat)
    requires Apart(kept, batch) && k < |kept|
    ensures Apart(Without(kept, k), batch)
    ensures forall i :: 0 <= i < |kept| - 1 ==> Without(kept, k)[i].timer != kept[k].timer
    ensures forall i :: 0 <= i < |kept| - 1 ==> Without(kept, k)[i] in kept
  {
    forall i | 0 <= i < |kept| - 1
      ensures Without(kept, k)[i] == kept[if i < k then i else i + 1]
    {
      WithoutAt(kept, k, i);
    }
  }

  lemma TakeApart(kept: seq<Arming>, batch: seq<Firing>, at: int, k: nat)
    requires Apart(kept, batch) && k < |kept| && forall i :: 0 <= i < |kept| ==> kept[k].due <= kept[i].due
    ensures Apart(Without(kept, k), batch + [Firing(kept[k], at, None)])
  {
    WithoutKeepsApart(kept, batch, k);
    var more := batch + [Firing(kept[k], at, None)];
    assert Armings(more) == Armings(batch) + [kept[k]];
  }

  lemma TakeSplit(q: seq<Arming>, kept: seq<Arming>, batch: seq<Firing>, gone: seq<Arming>, at: int, k: nat)
    requires Split(q, kept, batch, gone, at) && k < |kept| && kept[k].due <= at
    requires forall j :: 0 <= j < |batch| ==> batch[j].arming.due <= kept[k].due
    ensures Split(q, Without(kept, k), batch + [Firing(kept[k], at, None)], gone, at)
  {
    MultisetWithout(kept, k);
    assert Armings(batch + [Firing(kept[k], at, None)]) == Armings(batch) + [kept[k]];
  }

  lemma DropSplit(q: seq<Arming>, kept: seq<Arming>, batch: seq<Firing>, gone: seq<Arming>, at: int, k: nat)
    requires Split(q, kept, batch, gone, at) && k < |kept| && kept[k].due <= at
    ensures Split(q, Without(kept, k), batch, gone + [kept[k]], at)
  {
    MultisetWithout(kept, k);
  }

  lemma SplitTimers(q: seq<Arming>, kept: seq<Arming>, batch: seq<Firing>, gone: seq<Arming>, at: int)
    requires Split(q, kept, batch, gone, at)
    ensures TimersOf(kept) <= TimersOf(q) && TimersOf(Armings(batch)) <= TimersOf(q)
  {
    forall a | a in kept || a in Armings(batch)
      ensures a in q
    {
      assert a in multiset(q);
    }
  }

  /** One turn of the loop that takes the due timers: which one is on top, and whether it fires. */
  datatype Pick = Pick(k: nat, fires: bool)
  datatype Pass = Pass(kept: seq<Arming>, batch: seq<Firing>, gone: seq<Arming>)

  /** Whether a timer is valid, and periodic, when an event begins. */
  datatype Mark = Mark(valid: bool, periodic: bool)
  type Marks = map<TimerEvent, Mark>

  ghost predicate CanPick(p: Pass, c: Pick, at: int, marks: Marks) {
    && c.k < |p.kept| && p.kept[c.k].due <= at
    && p.kept[c.k].timer in marks && c.fires == marks[p.kept[c.k].timer].valid
    && forall i :: 0 <= i < |p.kept| ==> p.kept[c.k].due <= p.kept[i].due
  }

  ghost function PickOne(p: Pass, c: Pick, at: int): Pass {
    if c.k >= |p.kept| then p
    else
      var a := p.kept[c.k];
      if c.fires then Pass(Without(p.kept, c.k), p.batch + [Firing(a, at, None)], p.gone)
      else Pass(Without(p.kept, c.k), p.batch, p.gone + [a])
  }

  /** The pass after some turns. */
  ghost function Picked(q: seq<Arming>, picks: seq<Pick>, at: int): Pass {
    if picks == [] then Pass(q, [], []) else PickOne(Picked(q, picks[..|picks| - 1], at), picks[|picks| - 1], at)
  }

  ghost predicate AllPicked(q: seq<Arming>, picks: seq<Pick>, at: int, marks: Marks) {
    picks != [] ==>
      && AllPicked(q, picks[..|picks| - 1], at, marks)
      && CanPick(Picked(q, picks[..|picks| - 1], at), picks[|picks| - 1], at, marks)
  }

  /** What fires is valid, what is discarded is not. */
  ghost predicate Sorted(batch: seq<Firing>, gone: seq<Arming>, marks: Marks) {
    && (forall i :: 0 <= i < |batch| ==> batch[i].arming.timer in marks && marks[batch[i].arming.timer].valid)
    && (forall i :: 0 <= i < |gone| ==> gone[i].timer in marks && !marks[gone[i].timer].valid)
  }

  lemma PickedSnoc(q: seq<Arming>, picks: seq<Pick>, c: Pick, at: int, marks: Marks)
    requires AllPicked(q, picks, at, marks) && CanPick(Picked(q, picks, at), c, at, marks)
    ensures AllPicked(q, picks + [c], at, marks) && Picked(q, picks + [c], at) == PickOne(Picked(q, picks, at), c, at)
  {
    assert (picks + [c])[..|picks + [c]| - 1] == picks;
  }

  lemma PickSplits(q: seq<Arming>, p: Pass, c: Pick, at: int, marks: Marks)
    requires Split(q, p.kept, p.batch, p.gone, at) && Apart(p.kept, p.batch) && CanPick(p, c, at, marks)
    ensures var r := PickOne(p, c, at); Split(q, r.kept, r.batch, r.gone, at) && Apart(r.kept, r.batch)
  {
    if c.fires {
      TakeSplit(q, p.kept, p.batch, p.gone, at, c.k);
      TakeApart(p.kept, p.batch, at, c.k);
    } else {
      DropSplit(q, p.kept, p.batch, p.gone, at, c.k);
      WithoutKeepsApart(p.kept, p.batch, c.k);
    }
  }

  lemma PickRooms(p: Pass, c: Pick, at: int, h: int)
    requires c.k < |p.kept|
    ensures var r := PickOne(p, c, at);
            Rooms(r.kept, h) + Rooms(Armings(r.batch), h) <= Rooms(p.kept, h) + Rooms(Armings(p.batch), h)
  {
    RoomsWithout(p.kept, c.k, h);
    if c.fires {
      RoomsSnoc(Armings(p.batch), p.kept[c.k], h);
      assert Armings(PickOne(p, c, at).batch) == Armings(p.batch) + [p.kept[c.k]];
    }
  }

  /** The loop splits the queue, and the room left to the horizon does not grow. */
  lemma {:induction false} PickedSplits(q: seq<Arming>, picks: seq<Pick>, at: int, marks: Marks, h: int)
    requires DistinctTimers(q) && AllPicked(q, picks, at, marks)
    ensures var p := Picked(q, picks, at);
            && Split(q, p.kept, p.batch, p.gone, at) && Apart(p.kept, p.batch)
            && Rooms(p.kept, h) + Rooms(Armings(p.batch), h) <= Rooms(q, h)
  {
    if picks != [] {
      var p, c := Picked(q, picks[..|picks| - 1], at), picks[|picks| - 1];
      PickedSplits(q, picks[..|picks| - 1], at, marks, h);
      PickSplits(q, p, c, at, marks);
      PickRooms(p, c, at, h);
    }
  }

  lemma {:induction false} PickedSorted(q: seq<Arming>, picks: seq<Pick>, at: int, marks: Marks)
    requires AllPicked(q, picks, at, marks)
    ensures Sorted(Picked(q, picks, at).batch, Picked(q, picks, at).gone, marks)
  {
    if picks != [] {
      PickedSorted(q, picks[..|picks| - 1], at, marks);
    }
  }

  ghost function Taken(b: Book, batch: seq<Firing>, gone: seq<Arming>): Book {
    b.(inFlight := b.inFlight + multiset(Armings(batch)), dropped := b.dropped + gone)
  }

  lemma TakenKeepsBalance(b: Book, q: seq<Arming>, kept: seq<Arming>, batch: seq<Firing>, gone: seq<Arming>, at: int)
    requires Balanced(b, q) && Split(q, kept, batch, gone, at)
    ensures Balanced(Taken(b, batch, gone), kept)
  {
  }

  lemma DueSplits(b: Book, q: seq<Arming>, picks: seq<Pick>, kept: seq<Arming>,
                  batch: seq<Firing>, gone: seq<Arming>, at: int, marks: Marks, h: int)
    requires DistinctTimers(q) && Balanced(b, q)
    requires AllPicked(q, picks, at, marks) && Pass(kept, batch, gone) == Picked(q, picks, at)
    ensures Split(q, kept, batch, gone, at) && Apart(kept, batch) && Balanced(Taken(b, batch, gone), kept)
    ensures Rooms(kept, h) + Rooms(Armings(batch), h) <= Rooms(q, h) && Sorted(batch, gone, marks)
  {
    PickedSplits(q, picks, at, marks, h);
    PickedSorted(q, picks, at, marks);
    TakenKeepsBalance(b, q, kept, batch, gone, at);
  }

  // ------------------------------------------------- arming again, callbacks

  /** A firing of a valid timer, not early, which arms the timer again exactly when it is periodic. */
  ghost predicate RightlyFired(f: Firing, marks: Marks) {
    && Proper(f) && f.arming.timer in marks && marks[f.arming.timer].valid
    && (f.next.Some? <==> marks[f.arming.timer].periodic)
  }

  ghost predicate RightlyDropped(a: Arming, marks: Marks) {
    a.timer in marks && !marks[a.timer].valid
  }

  /** What a call adds to a book, in nested runs too: only deleted timers are discarded, only valid ones
      fire, none early, and exactly the periodic ones are armed again. */
  ghost predicate Rightly(b: Book, c: Book, marks: Marks) {
    && b.log <= c.log && b.dropped <= c.dropped
    && (forall i :: |b.log| <= i < |c.log| ==> RightlyFired(c.log[i], marks))
    && (forall i :: |b.dropped| <= i < |c.dropped| ==> RightlyDropped(c.dropped[i], marks))
  }

  lemma RightlyTwice(b: Book, m: Book, c: Book, marks: Marks)
    requires Rightly(b, m, marks) && Rightly(m, c, marks)
    ensures Rightly(b, c, marks)
  {
  }

  /** A book only grows, and rightly, while a call runs, and handlers that it started have ended. */
  ghost predicate Grows(b: Book, c: Book, marks: Marks) {
    && c.added == b.added && c.inFlight == b.inFlight && c.rearming == b.rearming
    && Rightly(b, c, marks)
  }

  /** Nothing fires, and nothing is discarded, before its time. */
  ghost predicate Timely(b: Book, now: int) {
    && AllPast(b.log, now)
    && (forall i :: 0 <= i < |b.dropped| ==> b.dropped[i].due <= now)
  }

  lemma TimelyLater(b: Book, now: int, later: int)
    requires Timely(b, now) && now <= later
    ensures Timely(b, later)
  {
  }

  lemma TimelyTaken(b: Book, batch: seq<Firing>, gone: seq<Arming>, at: int)
    requires Timely(b, at) && forall i :: 0 <= i < |gone| ==> gone[i].due <= at
    ensures Timely(Taken(b, batch, gone), at)
  {
  }

  lemma TimelyCalled(b: Book, batch: seq<Firing>, inFlight: multiset<Arming>, rearming: multiset<Arming>, now: int)
    requires Timely(b, now) && AllPast(batch, now)
    ensures Timely(Called(b, batch, inFlight, rearming), now)
  {
  }

  /** A timer enters the queue from outside, or again from a handler. */
  ghost function Entered(b: Book, a: Arming, again: bool): Book {
    if again then b.(rearming := b.rearming + multiset{a}) else b.(added := b.added + multiset{a})
  }

  lemma EnterKeepsBalance(b: Book, snap: seq<Arming>, a: Arming, again: bool)
    requires Balanced(b, snap)
    ensures Balanced(Entered(b, a, again), snap + [a])
  {
    assert multiset(snap + [a]) == multiset(snap) + multiset{a};
    Enter(b.added, Rearmed(b.log), b.rearming, multiset(snap), multiset(b.dropped),
          multiset(Armings(b.log)), b.inFlight, multiset{a});
  }

  lemma Enter(a: multiset<Arming>, l: multiset<Arming>, r: multiset<Arming>, s: multiset<Arming>, d: multiset<Arming>,
              f: multiset<Arming>, i: multiset<Arming>, x: multiset<Arming>)
    requires (a + l) + r == (s + d) + f + i
    ensures (a + l) + (r + x) == ((s + x) + d) + f + i
    ensures ((a + x) + l) + r == ((s + x) + d) + f + i
  {
    assert forall e :: ((a + l) + (r + x))[e] == ((a + l) + r)[e] + x[e] == ((a + x) + l + r)[e];
    assert forall e :: (((s + x) + d) + f + i)[e] == ((s + d) + f + i)[e] + x[e];
  }

  /** A call made between events ends between events. */
  lemma StillBetweenEvents(b: Book, c: Book, marks: Marks)
    requires Grows(b, c, marks)
    ensures BetweenEvents(b) <==> BetweenEvents(c)
  {
  }

  /** The same firing, its timer perhaps armed again. */
  ghost predicate Match(f: Firing, g: Firing) {
    f.arming == g.arming && f.at == g.at && Proper(g)
  }

  /** The first of a batch have been handled: the periodic ones, and no others, are armed again. */
  ghost predicate Rearms(batch: seq<Firing>, flags: seq<bool>, done: seq<Firing>) {
    && |done| <= |batch| == |flags|
    && forall i :: 0 <= i < |done| ==> Match(batch[i], done[i]) && (done[i].next.Some? <==> flags[i])
  }

  ghost predicate EndsIn(before: seq<Firing>, after: seq<Firing>, batch: seq<Firing>) {
    |before| + |batch| <= |after| && after[|after| - |batch|..] == batch
  }

  ghost function RoomsFrom(batch: seq<Firing>, i: nat, h: int): nat
    decreases |batch| - i
  {
    if i >= |batch| then 0 else Room(batch[i].arming.due, h) + RoomsFrom(batch, i + 1, h)
  }

  lemma {:induction false} RoomsFromAll(batch: seq<Firing>, i: nat, h: int)
    requires i <= |batch|
    ensures RoomsFrom(batch, i, h) == Rooms(Armings(batch)[i..], h)
    decreases |batch| - i
  {
    var s := Armings(batch);
    if i < |batch| {
      RoomsFromAll(batch, i + 1, h);
      assert s[i..] == ([] + [s[i]]) + s[i + 1..];
      RoomsConcat([] + [s[i]], s[i + 1..], h);
      RoomsSnoc([], s[i], h);
    }
  }

  lemma RearmedSnoc(log: seq<Firing>, f: Firing)
    ensures Rearmed(log + [f]) == Rearmed(log) + Again(f)
  {
    assert (log + [f])[..|log + [f]| - 1] == log;
  }

  lemma RearmsMore(batch: seq<Firing>, flags: seq<bool>, done: seq<Firing>, g: Firing)
    requires Rearms(batch, flags, done) && |done| < |batch|
    requires Match(batch[|done|], g) && (g.next.Some? <==> flags[|done|])
    ensures Rearms(batch, flags, done + [g])
  {
  }

  ghost function Owing(b: Book, done: seq<Firing>): Book { b.(rearming := b.rearming + Rearmed(done)) }

  lemma GrowsMore(b: Book, mid: Book, c: Book, done: seq<Firing>, g: Firing, marks: Marks)
    requires Grows(Owing(b, done), mid, marks) && Grows(mid.(rearming := mid.rearming + Again(g)), c, marks)
    ensures Grows(Owing(b, done + [g]), c, marks)
  {
    RearmedSnoc(done, g);
    RightlyTwice(b, mid, c, marks);
  }

  lemma ArmingsConcat(a: seq<Firing>, b: seq<Firing>)
    ensures Armings(a + b) == Armings(a) + Armings(b)
  {
  }

  /** The callbacks of a batch have run. */
  ghost function Called(b: Book, batch: seq<Firing>, inFlight: multiset<Arming>, rearming: multiset<Arming>): Book {
    b.(log := b.log + batch, inFlight := inFlight, rearming := rearming)
  }

  lemma CallKeepsBalance(b: Book, snap: seq<Arming>, batch: seq<Firing>,
                         inFlight: multiset<Arming>, rearming: multiset<Arming>)
    requires Balanced(b, snap) && forall i :: 0 <= i < |batch| ==> Proper(batch[i])
    requires b.inFlight == inFlight + multiset(Armings(batch)) && b.rearming == rearming + Rearmed(batch)
    ensures Balanced(Called(b, batch, inFlight, rearming), snap)
  {
    RearmedConcat(b.log, batch);
    ArmingsConcat(b.log, batch);
    ProperConcat(b.log, batch);
    Settle(b.added + Rearmed(b.log), rearming, Rearmed(batch), multiset(snap) + multiset(b.dropped),
           multiset(Armings(b.log)), multiset(Armings(batch)), inFlight);
  }

  lemma ProperConcat(a: seq<Firing>, b: seq<Firing>)
    requires forall i :: 0 <= i < |a| ==> Proper(a[i])
    requires forall i :: 0 <= i < |b| ==> Proper(b[i])
    ensures forall i :: 0 <= i < |a + b| ==> Proper((a + b)[i])
  {
  }

  lemma Settle(a: multiset<Arming>, r: multiset<Arming>, x: multiset<Arming>,
               s: multiset<Arming>, l: multiset<Arming>, y: multiset<Arming>, f: multiset<Arming>)
    requires a + (r + x) == s + l + (f + y)
    ensures (a + x) + r == s + (l + y) + f
  {
    assert forall e :: ((a + x) + r)[e] == (a + (r + x))[e] && (s + (l + y) + f)[e] == (s + l + (f + y))[e];
  }

  // ------------------------------------------------------------- the fd's time

  /** timespec: whole seconds, and nanoseconds below a second. */
  function Seconds(interval: nat): nat { interval / 1000 }
  function Nanoseconds(interval: nat): nat { interval % 1000 * 1_000_000 }

  /** The split loses nothing, is normalised, and is never zero, which would disarm the fd. */
  lemma SplitExact(interval: nat)
    ensures Seconds(interval) * 1_000_000_000 + Nanoseconds(interval) == interval * 1_000_000
    ensures Nanoseconds(interval) < 1_000_000_000
    ensures interval > 0 <==> Seconds(interval) > 0 || Nanoseconds(interval) > 0
  {
  }

  // -------------------------------------------------------------- the queue

  ghost predicate Earliest(q: seq<TimerEvent>, k: int)
    reads q
  {
    0 <= k < |q| && forall i :: 0 <= i < |q| ==> q[k].trigger <= q[i].trigger
  }

  /** A periodic timer has a positive interval. */
  ghost predicate Positive(t: TimerEvent)
    reads t`periodic
  {
    t.periodic ==> t.interval > 0
  }

  ghost function MarksOf(timers: set<TimerEvent>): (m: Marks)
    reads timers
    ensures m.Keys == timers
  {
    map t <- timers :: Mark(t.valid, t.periodic)
  }

  /** Handling the timer cannot go on for ever: it is not periodic, or its interval is positive, or it was
      deleted, or it does not come due before the horizon. */
  predicate Harmless(t: TimerEvent, horizon: int)
    reads t`periodic, t`valid, t`trigger
  {
    t.periodic && t.valid && t.trigger <= horizon ==> t.interval > 0
  }

  /** The timers taken at a time and what is recorded of them. */
  ghost predicate Records(batch: seq<Firing>, taken: seq<TimerEvent>, marks: Marks)
    reads taken
  {
    |batch| == |taken| && forall i :: 0 <= i < |taken| ==>
      && batch[i].arming == Arming(taken[i], taken[i].trigger) && Positive(taken[i])
      && taken[i] in marks && taken[i].periodic == marks[taken[i]].periodic
  }

  /** A batch fires valid timers, none early, and arms exactly the periodic ones again. */
  ghost predicate Fires(batch: seq<Firing>, marks: Marks) {
    forall i :: 0 <= i < |batch| ==> RightlyFired(batch[i], marks)
  }

  /** The batch records these timers, in this order. */
  ghost predicate Of(taken: seq<TimerEvent>, batch: seq<Firing>) {
    |batch| == |taken| && forall i :: 0 <= i < |batch| ==> batch[i].arming.timer == taken[i]
  }

  /** The timers are as marked. */
  ghost predicate Agrees(marks: Marks)
    reads marks.Keys`valid, marks.Keys`periodic
  {
    forall t :: t in marks.Keys ==> marks[t] == Mark(t.valid, t.periodic)
  }

  ghost function Flags(batch: seq<Firing>, marks: Marks): (f: seq<bool>)
    ensures |f| == |batch|
    ensures forall i :: 0 <= i < |f| && batch[i].arming.timer in marks ==> f[i] == marks[batch[i].arming.timer].periodic
  {
    seq(|batch|, i requires 0 <= i < |batch| =>
      batch[i].arming.timer in marks && marks[batch[i].arming.timer].periodic)
  }

  lemma BatchDone(q: seq<Arming>, kept: seq<Arming>, batch: seq<Firing>, done: seq<Firing>, gone: seq<Arming>,
                  at: int, marks: Marks, before: Book, taken: seq<TimerEvent>)
    requires Of(taken, batch)
    requires Split(q, kept, batch, gone, at) && Sorted(batch, gone, marks)
    requires Rearms(batch, Flags(batch, marks), done) && |done| == |batch|
    ensures Split(q, kept, done, gone, at) && Sorted(done, gone, marks) && Fires(done, marks)
    ensures Taken(before, done, gone) == Taken(before, batch, gone) && Of(taken, done)
  {
    assert Armings(done) == Armings(batch);
  }

  lemma BookBeforeCalls(before: Book, mid: Book, late: Book, batch: seq<Firing>, gone: seq<Arming>, marks: Marks)
    requires Grows(Owing(Taken(before, batch, gone), batch), mid, marks) && Grows(mid, late, marks)
    requires Sorted(batch, gone, marks)
    ensures late.inFlight == before.inFlight + multiset(Armings(batch)) && late.rearming == before.rearming + Rearmed(batch)
    ensures before.added == late.added && Rightly(before, late, marks)
  {
    var taken := Taken(before, batch, gone);
    assert forall i :: |before.dropped| <= i < |taken.dropped| ==> taken.dropped[i] == gone[i - |before.dropped|];
    RightlyTwice(before, taken, mid, marks);
    RightlyTwice(before, mid, late, marks);
  }

  lemma BookAfterCalls(before: Book, late: Book, batch: seq<Firing>, marks: Marks)
    requires before.added == late.added && Rightly(before, late, marks) && Fires(batch, marks)
    ensures var after := Called(late, batch, before.inFlight, before.rearming);
            Grows(before, after, marks) && EndsIn(before.log, after.log, batch)
  {
    var after := Called(late, batch, before.inFlight, before.rearming);
    assert after.log == late.log + batch;
    assert (late.log + batch)[|late.log|..] == batch;
    assert forall i :: |late.log| <= i < |after.log| ==> after.log[i] == batch[i - |late.log|];
    RightlyTwice(before, late, after, marks);
  }

  /** All that is queued is due later. */
  ghost predicate StrictlyFirst(due: int, s: seq<Arming>) {
    forall i :: 0 <= i < |s| ==> due < s[i].due
  }

  /** Nothing is due before a time. */
  ghost predicate NoneBefore(s: seq<Arming>, time: int) {
    forall i :: 0 <= i < |s| ==> time <= s[i].due
  }

  lemma NoneBeforeSnoc(s: seq<Arming>, k: nat, a: Arming, time: int)
    requires NoneBefore(s, time) && k < |s| && s[k].due <= a.due
    ensures NoneBefore(s + [a], time)
  {
  }

  /** A batch whose callbacks are next. */
  ghost predicate Ready(batch: seq<Firing>, gone: seq<Arming>, now: int, marks: Marks) {
    Fires(batch, marks) && Sorted(batch, gone, marks) && AllPast(batch, now)
  }

  lemma ReadyLater(batch: seq<Firing>, gone: seq<Arming>, now: int, later: int, marks: Marks)
    requires Ready(batch, gone, now, marks) && now <= later
    ensures Ready(batch, gone, later, marks)
  {
  }

  lemma TimersSnoc(s: seq<Arming>, a: Arming)
    ensures TimersOf(s + [a]) == TimersOf(s) + {a.timer}
  {
    assert forall b :: b in s + [a] <==> b in s || b == a;
  }

  class TimerFdEvent {
    const clock: Clock
    /** The priority queue, in no particular order. */
    var pending: seq<TimerEvent>
    /** When the fd will expire. */
    var armed: Option<int>

    ghost var snap: seq<Arming>
    ghost var book: Book

    constructor (clock: Clock)
      requires clock.now <= clock.horizon
      ensures Valid() && this.clock == clock && pending == [] && armed == None
      ensures book == Book(multiset{}, [], [], multiset{}, multiset{})
    {
      this.clock, pending, armed := clock, [], None;
      snap, book := [], Book(multiset{}, [], [], multiset{}, multiset{});
    }

    /** The queue holds distinct timers, each waiting for its trigger time. */
    ghost predicate Queue()
      reads `pending, `snap, pending
    {
      |snap| == |pending| && DistinctTimers(snap)
      && forall i :: 0 <= i < |pending| ==>
           snap[i] == Arming(pending[i], pending[i].trigger) && Harmless(pending[i], clock.horizon)
    }

    ghost predicate Valid()
      reads `pending, `snap, `book, clock, pending
    {
      clock.now <= clock.horizon && Queue() && Balanced(book, snap) && Timely(book, clock.now)
    }

    /** The fd expires no later than the first timer is due. */
    ghost predicate Armed()
      reads `armed, `snap
    {
      snap != [] ==> armed.Some? && NoneBefore(snap, armed.value)
    }

    /** It expires exactly then, and that is still to come. */
    ghost predicate ArmedExactly()
      reads `armed, `snap, clock
    {
      Armed() && (snap != [] ==> armed.value > clock.now && exists i :: 0 <= i < |snap| && armed.value == snap[i].due)
    }

    /** The marks of all timers in the queue, and perhaps of others. */
    ghost predicate Known(marks: Marks)
      reads `snap, marks.Keys`valid, marks.Keys`periodic
    {
      TimersOf(snap) <= marks.Keys && Agrees(marks)
    }

    ghost function Left(): nat
      reads `snap
    {
      Rooms(snap, clock.horizon)
    }

    /** Which of several earliest timers is on top is not said. */
    method Top() returns (k: nat)
      requires pending != []
      ensures Earliest(pending, k)
    {
      k := 0;
      for i := 1 to |pending|
        invariant k < |pending| && forall j :: 0 <= j < i ==> pending[k].trigger <= pending[j].trigger
      {
        if pending[i].trigger < pending[k].trigger {
          k := i;
        }
      }
    }

    method Pop(k: nat) returns (timer: TimerEvent)
      requires Queue() && k < |pending|
      modifies this`pending, this`snap
      ensures Queue() && snap == Without(old(snap), k) && timer == old(snap[k]).timer
      ensures |pending| == old(|pending|) - 1 && timer.trigger == old(snap[k]).due
    {
      timer := pending[k];
      pending := pending[..k] + pending[k + 1..];
      snap := Without(snap, k);
    }

    /** Deletion only marks the timer; its arming is discarded when it comes due. */
    method DeleteTimerEvent(timer: TimerEvent)
      modifies timer`valid
      ensures !timer.valid
    {
      timer.valid := false;
    }

    /** Reading the fd clears it if it has expired. */
    method ReadFd()
      requires clock.now <= clock.horizon
      modifies this`armed, clock
      ensures old(clock.now) <= clock.now <= clock.horizon
    {
      var t := clock.GetNowMs();
      if armed.Some? && armed.value <= t {
        armed := None;
      }
    }

    /** Where the loop that takes the due timers stands. */
    ghost predicate At(p: Pass, taken: seq<TimerEvent>, marks: Marks)
      reads this, pending, taken
    {
      && Queue() && snap == p.kept && Records(p.batch, taken, marks)
      && forall i :: 0 <= i < |pending| ==>
           pending[i] in marks && marks[pending[i]] == Mark(pending[i].valid, pending[i].periodic)
    }

    method TakeTop(k: nat, at: int, taken: seq<TimerEvent>, ghost q: seq<Arming>, ghost picks: seq<Pick>, ghost marks: Marks)
      returns (more: seq<TimerEvent>, ghost c: Pick)
      requires AllPicked(q, picks, at, marks) && At(Picked(q, picks, at), taken, marks)
      requires Earliest(pending, k) && pending[k].trigger <= at <= clock.horizon
      modifies this`pending, this`snap
      ensures AllPicked(q, picks + [c], at, marks) && At(Picked(q, picks + [c], at), more, marks)
      ensures |pending| < old(|pending|)
    {
      ghost var p := Picked(q, picks, at);
      var timer := Pop(k);
      c := Pick(k, timer.valid);
      PickedSnoc(q, picks, c, at, marks);
      if timer.valid {
        more := taken + [timer];
        assert Records(p.batch + [Firing(p.kept[k], at, None)], more, marks);
      } else {
        more := taken;
      }
    }

    method TakeWhileDue(at: int, ghost marks: Marks) returns (taken: seq<TimerEvent>, ghost picks: seq<Pick>)
      requires Queue() && at <= clock.horizon && Known(marks)
      modifies this`pending, this`snap
      ensures AllPicked(old(snap), picks, at, marks) && At(Picked(old(snap), picks, at), taken, marks)
      ensures forall i :: 0 <= i < |snap| ==> snap[i].due > at
    {
      taken, picks := [], [];
      ghost var q := snap;
      while pending != []
        invariant AllPicked(q, picks, at, marks) && At(Picked(q, picks, at), taken, marks)
        decreases |pending|
      {
        var k := Top();
        if pending[k].trigger > at {
          break;
        }
        ghost var c;
        taken, c := TakeTop(k, at, taken, q, picks, marks);
        picks := picks + [c];
      }
    }

    method TakeInto(at: int, ghost marks: Marks)
      returns (taken: seq<TimerEvent>, ghost picks: seq<Pick>, ghost batch: seq<Firing>, ghost gone: seq<Arming>)
      requires Queue() && at <= clock.horizon && Known(marks)
      modifies this`pending, this`snap, this`book
      ensures Queue() && AllPicked(old(snap), picks, at, marks) && Pass(snap, batch, gone) == Picked(old(snap), picks, at)
      ensures Records(batch, taken, marks) && book == Taken(old(book), batch, gone)
      ensures forall i :: 0 <= i < |snap| ==> snap[i].due > at
    {
      taken, picks := TakeWhileDue(at, marks);
      batch, gone := Picked(old(snap), picks, at).batch, Picked(old(snap), picks, at).gone;
      book := Taken(book, batch, gone);
    }

    /** The timers due at the time read leave the queue, earliest first; deleted ones are discarded. */
    method TakeDue(ghost marks: Marks)
      returns (taken: seq<TimerEvent>, ghost batch: seq<Firing>, ghost gone: seq<Arming>, at: int)
      requires Valid() && Known(marks)
      modifies this`pending, this`snap, this`book, clock
      ensures Valid() && old(clock.now) <= clock.now == at
      ensures Split(old(snap), snap, batch, gone, at) && Apart(snap, batch)
      ensures forall i :: 0 <= i < |snap| ==> snap[i].due > at
      ensures Records(batch, taken, marks) && Sorted(batch, gone, marks)
      ensures book == Taken(old(book), batch, gone)
      ensures Left() + Rooms(Armings(batch), clock.horizon) <= old(Left())
    {
      at := clock.GetNowMs();
      ghost var picks;
      taken, picks, batch, gone := TakeInto(at, marks);
      DueSplits(old(book), old(snap), picks, snap, batch, gone, at, marks, clock.horizon);
      TimelyLater(old(book), old(clock.now), at);
      TimelyTaken(old(book), batch, gone, at);
    }

    method Push(timer: TimerEvent, ghost again: bool)
      requires Valid() && Harmless(timer, clock.horizon) && timer !in TimersOf(snap)
      modifies this`pending, this`snap, this`book
      ensures Valid() && pending == old(pending) + [timer]
      ensures snap == old(snap) + [Arming(timer, timer.trigger)]
      ensures book == Entered(old(book), Arming(timer, timer.trigger), again)
      ensures Left() == old(Left()) + Room(timer.trigger, clock.horizon)
    {
      ghost var a := Arming(timer, timer.trigger);
      ghost var before := snap;
      RoomsSnoc(snap, a, clock.horizon);
      PushTimer(timer);
      Enter(before, a, again);
    }

    ghost method Enter(before: seq<Arming>, a: Arming, again: bool)
      requires Balanced(book, before) && snap == before + [a]
      modifies this`book
      ensures Balanced(book, snap) && book == Entered(old(book), a, again)
    {
      EnterKeepsBalance(book, before, a, again);
      book := Entered(book, a, again);
    }

    method PushTimer(timer: TimerEvent)
      requires Queue() && Harmless(timer, clock.horizon) && timer !in TimersOf(snap)
      modifies this`pending, this`snap
      ensures Queue() && pending == old(pending) + [timer]
      ensures snap == old(snap) + [Arming(timer, timer.trigger)]
    {
      pending, snap := pending + [timer], snap + [Arming(timer, timer.trigger)];
    }

    ghost predicate DueNow()
      reads `snap, clock
    {
      exists i :: 0 <= i < |snap| && snap[i].due <= clock.now
    }

    lemma NotQueued(timer: TimerEvent)
      requires Queue() && timer !in pending
      ensures timer !in TimersOf(snap)
    {
    }

    /** Whether the timer is strictly earlier than all that are queued; if not, one that is not later. */
    method IsFirst(timer: TimerEvent) returns (isFirst: bool, ghost k: nat)
      requires Queue()
      ensures isFirst <==> StrictlyFirst(timer.trigger, snap)
      ensures !isFirst ==> k < |snap| && snap[k].due <= timer.trigger
    {
      isFirst, k := true, 0;
      if pending != [] {
        var top := Top();
        isFirst, k := pending[top].trigger > timer.trigger, top;
        assert snap[k].due == pending[k].trigger;
      }
    }

    /** The locked part of adding a timer; the fd need not be set anew if it was set in time and the timer
        is not strictly the earliest. */
    method AddToQueue(timer: TimerEvent, ghost again: bool, ghost marks: Marks) returns (isReset: bool)
      requires Valid() && Harmless(timer, clock.horizon) && timer !in TimersOf(snap)
      requires Known(marks) && timer in marks.Keys
      modifies this`pending, this`snap, this`book
      ensures Valid() && Known(marks) && book == Entered(old(book), Arming(timer, timer.trigger), again)
      ensures snap == old(snap) + [Arming(timer, timer.trigger)] && TimersOf(snap) == old(TimersOf(snap)) + {timer}
      ensures isReset <==> StrictlyFirst(timer.trigger, old(snap))
      ensures !isReset && old(Armed()) ==> Armed()
      ensures Left() == old(Left()) + Room(timer.trigger, clock.horizon)
    {
      ghost var k;
      isReset, k := IsFirst(timer);
      if !isReset && Armed() {
        NoneBeforeSnoc(snap, k, Arming(timer, timer.trigger), armed.value);
      }
      Push(timer, again);
      TimersSnoc(old(snap), Arming(timer, timer.trigger));
    }

    /** A timer is queued; the fd is set anew only for a strictly earliest one. */
    method AddTimerEvent(timer: TimerEvent, ghost again: bool, ghost marks: Marks)
      requires Valid() && Harmless(timer, clock.horizon) && timer !in TimersOf(snap)
      requires Known(marks) && timer in marks.Keys
      modifies this, clock, TimersOf(snap)`trigger, timer`trigger
      ensures Valid() && clock.now >= old(clock.now)
      ensures Grows(Entered(old(book), Arming(timer, old(timer.trigger)), again), book, marks) && Known(marks)
      ensures TimersOf(snap) <= old(TimersOf(snap)) + {timer}
      ensures old(Armed()) ==> Armed()
      ensures StrictlyFirst(old(timer.trigger), old(snap)) ||
                (&& book == Entered(old(book), Arming(timer, old(timer.trigger)), again)
                 && snap == old(snap) + [Arming(timer, old(timer.trigger))]
                 && armed == old(armed) && clock.now == old(clock.now))
      ensures Left() <= old(Left()) + Room(old(timer.trigger), clock.horizon)
      decreases Left() + Room(timer.trigger, clock.horizon), clock.horizon - clock.now, 9
    {
      var isReset := AddToQueue(timer, again, marks);
      if isReset {
        ResetTimerFd(marks);
      }
    }

    method ResetTimerFd(ghost marks: Marks)
      requires Valid() && Known(marks)
      modifies this, clock, TimersOf(snap)`trigger
      ensures Valid() && clock.now >= old(clock.now)
      ensures Grows(old(book), book, marks) && Known(marks)
      ensures ArmedExactly() && Left() <= old(Left())
      ensures TimersOf(snap) <= old(TimersOf(snap))
      decreases Left(), clock.horizon - clock.now, if DueNow() then 7 else 0
    {
      if pending == [] {
        return;
      }
      var k := Top();
      var first := pending[k];
      var now := clock.GetNowMs();
      var newTrigger := first.trigger;
      if newTrigger <= now {
        assert snap[k].due == newTrigger;
        ghost var batch, gone, kept, at := HandleTimerEvent(marks);
      } else {
        var interval := newTrigger - now;
        SplitExact(interval);
        armed := Some(now + Seconds(interval) * 1000 + Nanoseconds(interval) / 1_000_000);
      }
    }

    /** A taken timer that is periodic is armed again, strictly later. */
    method RearmOne(timer: TimerEvent, ghost f: Firing, ghost marks: Marks) returns (ghost g: Firing)
      requires Valid() && Positive(timer) && timer !in TimersOf(snap)
      requires Known(marks) && timer in marks.Keys
      requires f.arming == Arming(timer, timer.trigger) && f.arming.due <= f.at <= clock.now
      modifies this, clock, TimersOf(snap)`trigger, timer`trigger
      ensures Valid() && clock.now >= old(clock.now)
      ensures g.arming == f.arming && g.at == f.at && Proper(g) && (g.next.Some? <==> timer.periodic)
      ensures Past(g, clock.now)
      ensures Grows(old(book).(rearming := old(book).rearming + Again(g)), book, marks) && Known(marks)
      ensures TimersOf(snap) <= old(TimersOf(snap)) + {timer}
      ensures Left() + 1 <= old(Left()) + Room(f.arming.due, clock.horizon)
      decreases Left() + Room(f.arming.due, clock.horizon), clock.horizon - clock.now, 0
    {
      if timer.periodic {
        timer.ResetTime(clock);
        g := Firing(f.arming, f.at, Some(timer.trigger));
        AddTimerEvent(timer, true, marks);
      } else {
        g := Firing(f.arming, f.at, None);
      }
    }

    /** What is left of a batch from position i on is untouched and not in the queue. */
    ghost predicate Waiting(taken: seq<TimerEvent>, batch: seq<Firing>, flags: seq<bool>, i: nat)
      reads this, taken
    {
      && |taken| == |batch| == |flags|
      && (forall j :: i <= j < |taken| ==>
            && batch[j].arming == Arming(taken[j], taken[j].trigger) && Positive(taken[j])
            && taken[j].periodic == flags[j])
      && (forall j :: i <= j < |taken| ==> batch[j].arming.timer !in TimersOf(snap))
    }

    method RearmAt(taken: seq<TimerEvent>, ghost batch: seq<Firing>, ghost flags: seq<bool>, i: nat, ghost marks: Marks)
      returns (ghost g: Firing)
      requires Valid() && Waiting(taken, batch, flags, i) && i < |taken| && DistinctTimers(Armings(batch))
      requires batch[i].arming.due <= batch[i].at <= clock.now
      requires Known(marks) && taken[i] in marks.Keys
      modifies this, clock, TimersOf(snap)`trigger, {taken[i]}`trigger
      ensures Valid() && clock.now >= old(clock.now)
      ensures Waiting(taken, batch, flags, i + 1)
      ensures Match(batch[i], g) && (g.next.Some? <==> flags[i]) && Past(g, clock.now)
      ensures Grows(old(book).(rearming := old(book).rearming + Again(g)), book, marks) && Known(marks)
      ensures TimersOf(snap) <= old(TimersOf(snap)) + {taken[i]}
      ensures Left() + 1 <= old(Left()) + Room(batch[i].arming.due, clock.horizon)
      decreases Left() + Room(batch[i].arming.due, clock.horizon), clock.horizon - clock.now, 1
    {
      ghost var others := old(TimersOf(snap)) + {taken[i]};
      forall j | i < j < |taken|
        ensures taken[j] !in others
      {
        assert Armings(batch)[i].timer != Armings(batch)[j].timer;
      }
      g := RearmOne(taken[i], batch[i], marks);
    }

    /** Midway through the loop that arms the periodic timers of a batch again. */
    ghost predicate Halfway(taken: seq<TimerEvent>, batch: seq<Firing>, flags: seq<bool>, done: seq<Firing>,
                            before: Book, timers: set<TimerEvent>, left: int, marks: Marks)
      reads this, clock, pending, taken, marks.Keys
    {
      && Valid() && Waiting(taken, batch, flags, |done|) && Rearms(batch, flags, done) && AllPast(done, clock.now)
      && Grows(Owing(before, done), book, marks) && Known(marks) && TimersOf(snap) <= timers
      && Left() + RoomsFrom(batch, |done|, clock.horizon) + |done| <= left
    }

    method RearmNext(taken: seq<TimerEvent>, ghost batch: seq<Firing>, ghost flags: seq<bool>, i: nat,
                     ghost done: seq<Firing>, ghost before: Book, ghost timers: set<TimerEvent>, ghost left: int,
                     ghost marks: Marks)
      returns (ghost g: Firing)
      requires Halfway(taken, batch, flags, done, before, timers, left, marks) && i == |done| < |taken|
      requires DistinctTimers(Armings(batch)) && taken[i] in timers && batch[i].arming.due <= batch[i].at <= clock.now
      requires taken[i] in marks.Keys
      modifies this, clock, timers`trigger
      ensures Halfway(taken, batch, flags, done + [g], before, timers, left, marks) && clock.now >= old(clock.now)
      decreases Left() + Room(batch[i].arming.due, clock.horizon), clock.horizon - clock.now, 2
    {
      ghost var mid, now := book, clock.now;
      g := RearmAt(taken, batch, flags, i, marks);
      PastMore(done, g, now, clock.now);
      RearmsMore(batch, flags, done, g);
      GrowsMore(before, mid, book, done, g, marks);
    }

    method RearmAll(taken: seq<TimerEvent>, ghost batch: seq<Firing>, ghost flags: seq<bool>,
                    ghost timers: set<TimerEvent>, ghost left: int, ghost marks: Marks)
      returns (ghost done: seq<Firing>)
      requires Halfway(taken, batch, flags, [], book, timers, left, marks) && DistinctTimers(Armings(batch))
      requires (set t <- taken) <= marks.Keys && (set t <- taken) <= timers
      requires forall i :: 0 <= i < |batch| ==> batch[i].arming.due <= batch[i].at <= clock.now
      modifies this, clock, timers`trigger
      ensures |done| == |taken| && clock.now >= old(clock.now)
      ensures Halfway(taken, batch, flags, done, old(book), timers, left, marks)
      ensures taken == [] ==> clock.now == old(clock.now) && snap == old(snap)
      decreases left, clock.horizon - clock.now, 3
    {
      done := [];
      ghost var before := book;
      for i := 0 to |taken|
        invariant Halfway(taken, batch, flags, done, before, timers, left, marks)
        invariant |done| == i && clock.now >= old(clock.now)
        invariant i == 0 ==> clock.now == old(clock.now) && snap == old(snap)
      {
        ghost var g := RearmNext(taken, batch, flags, i, done, before, timers, left, marks);
        done := done + [g];
      }
    }

    /** The periodic timers of a batch enter the queue again, in its order. */
    method Rearm(taken: seq<TimerEvent>, ghost batch: seq<Firing>, ghost flags: seq<bool>, ghost marks: Marks)
      returns (ghost done: seq<Firing>)
      requires Valid() && Waiting(taken, batch, flags, 0) && DistinctTimers(Armings(batch))
      requires Known(marks) && (set t <- taken) <= marks.Keys
      requires forall i :: 0 <= i < |batch| ==> batch[i].arming.due <= batch[i].at <= clock.now
      modifies this, clock, TimersOf(snap)`trigger, taken`trigger
      ensures Valid() && |done| == |taken| && clock.now >= old(clock.now) && Rearms(batch, flags, done)
      ensures AllPast(done, clock.now)
      ensures Grows(Owing(old(book), done), book, marks) && Known(marks)
      ensures TimersOf(snap) <= old(TimersOf(snap)) + (set t <- taken)
      ensures Left() + |taken| <= old(Left()) + RoomsFrom(batch, 0, clock.horizon)
      ensures taken == [] ==> clock.now == old(clock.now) && snap == old(snap)
      decreases Left() + RoomsFrom(batch, 0, clock.horizon), clock.horizon - clock.now, 4
    {
      ghost var timers, left := TimersOf(snap) + (set t <- taken), Left() + RoomsFrom(batch, 0, clock.horizon);
      done := RearmAll(taken, batch, flags, timers, left, marks);
    }

    /** The callback of each timer taken, in this order. */
    method RunAll(taken: seq<TimerEvent>, ghost batch: seq<Firing>)
      requires Of(taken, batch)
      modifies this`book
      ensures book == old(book).(log := old(book).log + batch)
    {
      for i := 0 to |taken|
        invariant book == old(book).(log := old(book).log + batch[..i])
      {
        assert old(book).log + batch[..i] + [batch[i]] == old(book).log + batch[..i + 1];
        book := book.(log := book.log + [Firing(Arming(taken[i], batch[i].arming.due), batch[i].at, batch[i].next)]);
      }
      assert batch[..|batch|] == batch;
    }

    /** The callbacks run, in the order of the batch. */
    method RunCallbacks(taken: seq<TimerEvent>, ghost batch: seq<Firing>,
                        ghost inFlight: multiset<Arming>, ghost rearming: multiset<Arming>)
      requires Valid() && Of(taken, batch) && forall i :: 0 <= i < |batch| ==> Proper(batch[i])
      requires book.inFlight == inFlight + multiset(Armings(batch)) && book.rearming == rearming + Rearmed(batch)
      requires AllPast(batch, clock.now)
      modifies this`book
      ensures Valid() && book == Called(old(book), batch, inFlight, rearming)
    {
      CallKeepsBalance(book, snap, batch, inFlight, rearming);
      TimelyCalled(book, batch, inFlight, rearming, clock.now);
      RunAll(taken, batch);
      book := book.(inFlight := inFlight, rearming := rearming);
    }

    /** The due timers leave, and are ready to be armed again. */
    method TakeReady(ghost marks: Marks)
      returns (taken: seq<TimerEvent>, ghost b: seq<Firing>, ghost gone: seq<Arming>, ghost at: int)
      requires Valid() && Known(marks)
      modifies this`pending, this`snap, this`book, clock
      ensures Valid() && Known(marks) && old(clock.now) <= clock.now == at
      ensures Split(old(snap), snap, b, gone, at) && DistinctTimers(Armings(b)) && Sorted(b, gone, marks)
      ensures forall i :: 0 <= i < |snap| ==> snap[i].due > at
      ensures Waiting(taken, b, Flags(b, marks), 0) && book == Taken(old(book), b, gone)
      ensures TimersOf(snap) <= old(TimersOf(snap)) && (set t <- taken) <= old(TimersOf(snap))
      ensures Left() + RoomsFrom(b, 0, clock.horizon) <= old(Left())
    {
      var now;
      taken, b, gone, now := TakeDue(marks);
      at := now;
      SplitTimers(old(snap), snap, b, gone, at);
      RoomsFromAll(b, 0, clock.horizon);
      assert Armings(b)[0..] == Armings(b);
    }

    /** The first half of an event: the due timers leave, the periodic ones enter again. */
    method TakeAndRearm(ghost marks: Marks)
      returns (taken: seq<TimerEvent>, ghost batch: seq<Firing>, ghost gone: seq<Arming>,
               ghost kept: seq<Arming>, ghost at: int)
      requires Valid() && Known(marks)
      modifies this, clock, TimersOf(snap)`trigger
      ensures Valid() && old(clock.now) <= at <= clock.now
      ensures Split(old(snap), kept, batch, gone, at) && Of(taken, batch) && AllPast(batch, clock.now)
      ensures forall i :: 0 <= i < |kept| ==> kept[i].due > at
      ensures Sorted(batch, gone, marks) && Fires(batch, marks)
      ensures Grows(Owing(Taken(old(book), batch, gone), batch), book, marks) && Known(marks)
      ensures TimersOf(snap) <= old(TimersOf(snap))
      ensures Left() + |taken| <= old(Left())
      ensures taken == [] ==> !DueNow()
      decreases Left(), clock.horizon - clock.now, 5
    {
      ghost var b, due;
      taken, b, gone, due := TakeReady(marks);
      kept, at := snap, due;
      assert Of(taken, b);
      batch := Rearm(taken, b, Flags(b, marks), marks);
      BatchDone(old(snap), kept, b, batch, gone, at, marks, old(book), taken);
    }

    method CallBatch(taken: seq<TimerEvent>, ghost batch: seq<Firing>, ghost gone: seq<Arming>,
                     ghost before: Book, ghost mid: Book, ghost marks: Marks)
      requires Valid() && Of(taken, batch) && Ready(batch, gone, clock.now, marks) && ArmedExactly()
      requires Grows(Owing(Taken(before, batch, gone), batch), mid, marks) && Grows(mid, book, marks)
      modifies this`book
      ensures Valid() && Grows(before, book, marks) && EndsIn(before.log, book.log, batch) && ArmedExactly()
    {
      BookBeforeCalls(before, mid, book, batch, gone, marks);
      BookAfterCalls(before, book, batch, marks);
      RunCallbacks(taken, batch, before.inFlight, before.rearming);
    }

    /** The second half of an event: the fd is armed, and the callbacks run. */
    method Finish(taken: seq<TimerEvent>, ghost batch: seq<Firing>, ghost gone: seq<Arming>, ghost before: Book,
                  ghost marks: Marks)
      requires Valid() && Of(taken, batch) && Ready(batch, gone, clock.now, marks) && Known(marks)
      requires Grows(Owing(Taken(before, batch, gone), batch), book, marks)
      modifies this, clock, TimersOf(snap)`trigger
      ensures Valid() && clock.now >= old(clock.now)
      ensures Grows(before, book, marks) && EndsIn(before.log, book.log, batch) && Known(marks)
      ensures ArmedExactly() && Left() <= old(Left())
      ensures TimersOf(snap) <= old(TimersOf(snap))
      decreases Left(), clock.horizon - clock.now, if DueNow() then 8 else 1
    {
      ghost var mid, now := book, clock.now;
      ResetTimerFd(marks);
      ReadyLater(batch, gone, now, clock.now, marks);
      CallBatch(taken, batch, gone, before, mid, marks);
    }

    /** An event of the fd.  The queue as it was is split into the timers kept, those that fire and those
        discarded; of the kept ones too, in the runs nested in this one, only deleted timers are discarded
        and only valid ones fire, at their time; nothing due is left behind, and the fd is armed for the
        first timer pending.  The marks say which timers are valid and which periodic, before and after. */
    method HandleTimerEvent(ghost marks: Marks)
      returns (ghost batch: seq<Firing>, ghost gone: seq<Arming>, ghost kept: seq<Arming>, ghost at: int)
      requires Valid() && Known(marks)
      modifies this, clock, TimersOf(snap)`trigger
      ensures Valid() && old(clock.now) <= at <= clock.now
      ensures Split(old(snap), kept, batch, gone, at)
      ensures forall i :: 0 <= i < |kept| ==> kept[i].due > at
      ensures Sorted(batch, gone, marks) && Fires(batch, marks)
      ensures Grows(old(book), book, marks) && EndsIn(old(book).log, book.log, batch) && Known(marks)
      ensures ArmedExactly() && Left() <= old(Left())
      ensures TimersOf(snap) <= old(TimersOf(snap))
      decreases Left(), clock.horizon - clock.now, 6
    {
      ReadFd();
      TimelyLater(book, old(clock.now), clock.now);
      var taken;
      taken, batch, gone, kept, at := TakeAndRearm(marks);
      Finish(taken, batch, gone, old(book), marks);
    }
  }

  // --------------------------------------------------- any sequence of calls

  datatype Call = Add(timer: TimerEvent) | Delete(timer: TimerEvent) | Event

  ghost function Named(calls: seq<Call>): set<TimerEvent> {
    set c <- calls | !c.Event? :: c.timer
  }

  /** The first call that adds this timer. */
  ghost predicate First(calls: seq<Call>, j: nat) {
    j < |calls| && calls[j].Add? && calls[j].timer !in AddedBy(calls, j)
  }

  ghost function AddedBy(calls: seq<Call>, i: nat): set<TimerEvent>
    requires i <= |calls|
  {
    if i == 0 then {} else AddedBy(calls, i - 1) + AddedIn(calls[i - 1])
  }

  ghost function AddedIn(c: Call): set<TimerEvent> { if c.Add? then {c.timer} else {} }

  /** The armings asked for: dues[j] is the time for which call j had its timer queued, if it did. */
  ghost function Asked(calls: seq<Call>, dues: seq<Option<int>>): multiset<Arming>
    requires |dues| <= |calls|
  {
    if dues == [] then multiset{}
    else Asked(calls, dues[..|dues| - 1]) + Armed(calls[|dues| - 1], dues[|dues| - 1])
  }

  ghost function Armed(c: Call, due: Option<int>): multiset<Arming> {
    if c.Add? && due.Some? then multiset{Arming(c.timer, due.value)} else multiset{}
  }

  lemma AskedSnoc(calls: seq<Call>, dues: seq<Option<int>>, due: Option<int>)
    requires |dues| < |calls|
    ensures Asked(calls, dues + [due]) == Asked(calls, dues) + Armed(calls[|dues|], due)
  {
    assert (dues + [due])[..|dues + [due]| - 1] == dues;
  }

  /** How the timers are when a use begins. */
  datatype Start = Start(trigger: int, periodic: bool)

  /** Every timer discarded has been deleted; every firing armed its timer again exactly if it is periodic. */
  ghost predicate Settled(b: Book, timers: set<TimerEvent>)
    reads timers
  {
    && (forall i :: 0 <= i < |b.dropped| ==> b.dropped[i].timer in timers && !b.dropped[i].timer.valid)
    && (forall i :: 0 <= i < |b.log| ==>
          b.log[i].arming.timer in timers && (b.log[i].next.Some? <==> b.log[i].arming.timer.periodic))
  }

  lemma SettledMore(b: Book, c: Book, marks: Marks)
    requires Settled(b, marks.Keys) && Rightly(b, c, marks) && Agrees(marks)
    ensures Settled(c, marks.Keys)
  {
  }

  /** Timers not added yet are not queued and have their first trigger time. */
  ghost predicate Untouched(q: seq<Arming>, timers: set<TimerEvent>, added: set<TimerEvent>, start: map<TimerEvent, Start>)
    reads timers
  {
    && TimersOf(q) <= added <= timers && start.Keys == timers
    && forall t :: t in timers ==> t.periodic == start[t].periodic && (t !in added ==> t.trigger == start[t].trigger)
  }

  ghost predicate InUse(q: TimerFdEvent, clock: Clock, timers: set<TimerEvent>, added: set<TimerEvent>,
                        start: map<TimerEvent, Start>, made: multiset<Arming>)
    reads q, clock, q.clock, q.pending, timers
  {
    && q.clock == clock && q.Valid() && q.Armed() && Untouched(q.snap, timers, added, start)
    && BetweenEvents(q.book) && q.book.added == made && Settled(q.book, timers)
  }

  method UseQueue(q: TimerFdEvent, timer: TimerEvent, ghost timers: set<TimerEvent>, ghost added: set<TimerEvent>,
                  ghost start: map<TimerEvent, Start>, ghost made: multiset<Arming>)
    requires InUse(q, q.clock, timers, added, start, made) && timer in timers
    requires timer !in q.pending && Harmless(timer, q.clock.horizon)
    modifies q, q.clock, timers`trigger
    ensures InUse(q, q.clock, timers, added + {timer}, start, made + multiset{Arming(timer, old(timer.trigger))})
  {
    ghost var marks, before := MarksOf(timers), Entered(q.book, Arming(timer, timer.trigger), false);
    q.NotQueued(timer);
    q.AddTimerEvent(timer, false, marks);
    StillBetweenEvents(before, q.book, marks);
    SettledMore(before, q.book, marks);
  }

  method UseAdd(q: TimerFdEvent, timer: TimerEvent, ghost timers: set<TimerEvent>, ghost added: set<TimerEvent>,
                ghost start: map<TimerEvent, Start>, ghost made: multiset<Arming>)
    returns (ghost due: Option<int>)
    requires InUse(q, q.clock, timers, added, start, made) && timer in timers
    modifies q, q.clock, timers`trigger
    ensures InUse(q, q.clock, timers, added + {timer}, start, made + Armed(Add(timer), due))
    ensures timer !in added && (start[timer].periodic ==> timer.interval > 0) ==> due == Some(start[timer].trigger)
  {
    due := None;
    if timer !in q.pending && Harmless(timer, q.clock.horizon) {
      due := Some(timer.trigger);
      UseQueue(q, timer, timers, added, start, made);
    }
  }

  method UseEvent(q: TimerFdEvent, ghost timers: set<TimerEvent>, ghost added: set<TimerEvent>,
                  ghost start: map<TimerEvent, Start>, ghost made: multiset<Arming>)
    requires InUse(q, q.clock, timers, added, start, made)
    modifies q, q.clock, timers`trigger
    ensures InUse(q, q.clock, timers, added, start, made)
  {
    ghost var marks, before := MarksOf(timers), q.book;
    ghost var batch, gone, kept, at := q.HandleTimerEvent(marks);
    StillBetweenEvents(before, q.book, marks);
    SettledMore(before, q.book, marks);
  }

  method UseDelete(q: TimerFdEvent, timer: TimerEvent, ghost timers: set<TimerEvent>, ghost added: set<TimerEvent>,
                   ghost start: map<TimerEvent, Start>, ghost made: multiset<Arming>)
    requires InUse(q, q.clock, timers, added, start, made) && timer in timers
    modifies timer`valid
    ensures InUse(q, q.clock, timers, added, start, made)
  {
    q.DeleteTimerEvent(timer);
  }

  method UseOne(q: TimerFdEvent, c: Call, ghost timers: set<TimerEvent>, ghost added: set<TimerEvent>,
                ghost start: map<TimerEvent, Start>, ghost made: multiset<Arming>)
    returns (ghost due: Option<int>)
    requires InUse(q, q.clock, timers, added, start, made) && (!c.Event? ==> c.timer in timers)
    modifies q, q.clock, timers`trigger, timers`valid
    ensures InUse(q, q.clock, timers, added + AddedIn(c), start, made + Armed(c, due))
    ensures c.Add? && c.timer !in added && (start[c.timer].periodic ==> c.timer.interval > 0) ==>
              due == Some(start[c.timer].trigger)
  {
    due := None;
    match c {
      case Add(timer) =>
        due := UseAdd(q, timer, timers, added, start, made);
      case Delete(timer) =>
        UseDelete(q, timer, timers, added, start, made);
      case Event =>
        UseEvent(q, timers, added, start, made);
    }
    assert !c.Add? ==> added + AddedIn(c) == added && made + Armed(c, due) == made;
  }

  /** What the first call that adds a timer does. */
  ghost predicate Promised(calls: seq<Call>, dues: seq<Option<int>>, start: map<TimerEvent, Start>) {
    |dues| <= |calls| && forall j: nat :: j < |dues| && First(calls, j) && calls[j].timer in start ==>
      (start[calls[j].timer].periodic ==> calls[j].timer.interval > 0) ==> dues[j] == Some(start[calls[j].timer].trigger)
  }

  lemma PromisedMore(calls: seq<Call>, dues: seq<Option<int>>, due: Option<int>, start: map<TimerEvent, Start>)
    requires Promised(calls, dues, start) && |dues| < |calls|
    requires First(calls, |dues|) && calls[|dues|].timer in start ==>
      (start[calls[|dues|].timer].periodic ==> calls[|dues|].timer.interval > 0) ==>
      due == Some(start[calls[|dues|].timer].trigger)
    ensures Promised(calls, dues + [due], start)
  {
  }

  /** The first calls have been made. */
  ghost predicate Made(q: TimerFdEvent, clock: Clock, calls: seq<Call>, dues: seq<Option<int>>, start: map<TimerEvent, Start>)
    reads q, clock, q.clock, q.pending, Named(calls)
  {
    && |dues| <= |calls| && Promised(calls, dues, start)
    && InUse(q, clock, Named(calls), AddedBy(calls, |dues|), start, Asked(calls, dues))
  }

  method UseCall(q: TimerFdEvent, calls: seq<Call>, i: nat, ghost dues: seq<Option<int>>, ghost start: map<TimerEvent, Start>)
    returns (ghost due: Option<int>)
    requires Made(q, q.clock, calls, dues, start) && i == |dues| < |calls|
    modifies q, q.clock, Named(calls)`trigger, Named(calls)`valid
    ensures InUse(q, q.clock, Named(calls), AddedBy(calls, i + 1), start, Asked(calls, dues) + Armed(calls[i], due))
    ensures First(calls, i) && calls[i].timer in start ==>
              (start[calls[i].timer].periodic ==> calls[i].timer.interval > 0) ==>
              due == Some(start[calls[i].timer].trigger)
  {
    assert calls[i] in calls;
    due := UseOne(q, calls[i], Named(calls), AddedBy(calls, i), start, Asked(calls, dues));
  }

  method UseNext(q: TimerFdEvent, calls: seq<Call>, i: nat, ghost dues: seq<Option<int>>, ghost start: map<TimerEvent, Start>)
    returns (ghost due: Option<int>)
    requires Made(q, q.clock, calls, dues, start) && i == |dues| < |calls|
    modifies q, q.clock, Named(calls)`trigger, Named(calls)`valid
    ensures Made(q, q.clock, calls, dues + [due], start)
  {
    due := UseCall(q, calls, i, dues, start);
    AskedSnoc(calls, dues, due);
    PromisedMore(calls, dues, due, start);
  }

  /** A fresh queue is used for a while.  Timers are added unless they are queued already or could keep
      the call from returning; so a timer added for the first time is queued, for the trigger time it had,
      unless it is periodic without a positive interval. */
  method Use(clock: Clock, calls: seq<Call>) returns (q: TimerFdEvent, ghost dues: seq<Option<int>>)
    requires clock.now <= clock.horizon
    modifies clock, Named(calls)`trigger, Named(calls)`valid
    ensures fresh(q) && q.Valid() && q.Armed() && q.clock == clock
    ensures |dues| == |calls| && Accounted(Asked(calls, dues), q.book, q.snap)
    ensures forall j: nat :: First(calls, j) && old(Positive(calls[j].timer)) ==> dues[j] == Some(old(calls[j].timer.trigger))
    ensures Settled(q.book, Named(calls))
  {
    q := new TimerFdEvent(clock);
    dues := [];
    ghost var start := StartOf(Named(calls));
    for i := 0 to |calls|
      invariant fresh(q) && q.clock == clock && |dues| == i && Made(q, clock, calls, dues, start)
    {
      ghost var due := UseNext(q, calls, i, dues, start);
      dues := dues + [due];
    }
    BalancedBetweenEvents(q.book, q.snap);
    forall j: nat | First(calls, j)
      ensures calls[j].timer in start
    {
      assert calls[j] in calls;
    }
  }

  ghost function StartOf(timers: set<TimerEvent>): (m: map<TimerEvent, Start>)
    reads timers
    ensures m.Keys == timers && forall t :: t in timers ==> m[t] == Start(t.trigger, t.periodic)
  {
    map t <- timers :: Start(t.trigger, t.periodic)
  }
}
