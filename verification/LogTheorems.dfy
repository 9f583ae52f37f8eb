/** What the asynchronous logger guarantees over every interleaving of its
    frontends and its backend. */
module LogTheorems {
  import opened LogRing
  import opened LogProtocol

  /** The text of every line the frontends passed in, in call order. */
  ghost function Lines<B>(cap: nat, es: seq<Event<B>>): string {
    if es == [] then ""
    else
      var e := es[|es| - 1];
      Lines(cap, es[..|es| - 1]) + if e.Append? then Accepted(cap, e.line) else ""
  }

  /** The first buffer whose text is not yet in the file. */
  ghost function Progress<B>(s: System<B>): B
    requires WellFormed(s.ring)
  {
    match s.pc
    case Flushing(_, next, _) => next
    case Flushed(_) => Succ(s.ring.bufs, s.ring.ntf)
    case _ => s.ring.ntf
  }

  /** The text from a buffer round to the current one. */
  ghost function TextFrom<B>(g: Ring<B>, b: B): string
    requires WellFormed(g) && b in g.bufs
  {
    RotStored(g.mem, g.bufs, b);
    Text(g.mem, Rot(g.bufs, b), 0, Distance(g.bufs, b, g.cur) + 1)
  }

  /** The text still in memory: from the progress iterator round to the current buffer. */
  ghost function Pending<B>(s: System<B>): string
    requires WellFormed(s.ring) && Progress(s) in s.ring.bufs
  {
    TextFrom(s.ring, Progress(s))
  }

  // ------------------------------------------------------- every interleaving

  ghost predicate Fine<B>(s: System<B>) {
    s.dropped || Inv(s) || (s.pc.Stopped? && WellFormed(s.ring))
  }

  /** The invariant holds throughout every run that has not dropped a line. */
  lemma {:induction false} RunKeepsInv<B>(ss: seq<System<B>>, es: seq<Event<B>>)
    requires IsRun(ss, es)
    ensures forall i :: 0 <= i < |ss| ==> Fine(ss[i])
  {
    InitialInv(ss[0]);
    for i := 0 to |es|
      invariant forall j :: 0 <= j <= i ==> Fine(ss[j])
    {
      assert Steps(ss[i], es[i], ss[i + 1]);
      StepFine(ss[i], es[i]);
    }
  }

  lemma StepFine<B>(s: System<B>, e: Event<B>)
    requires Fine(s) && !s.dropped && Allowed(s, e) && Defined(s, e)
    ensures Fine(Next(s, e))
  {
    if s.pc.Stopped? {
    } else if e.Append? {
      if !Drops(s.ring, e.line) {
        AppendInv(s, e.line, e.node);
      }
    } else if e.Stop? {
      StopInv(s);
    } else if s.pc.Closing? {
      ShutdownWellFormed(s.ring);
    } else {
      BackendInv(s);
    }
  }

  lemma StopInv<B>(s: System<B>)
    requires Inv(s)
    ensures Inv(s.(running := false))
  {
    var t, r := s.(running := false), Rot(s.ring.bufs, s.ring.ntf);
    var l: nat, k: nat, c: nat :| Shape(s, r, l, k, c);
    StopBackend(s, t, r, l, k);
    assert Shape(t, r, l, k, c);
  }

  lemma StopBackend<B>(s: System<B>, t: System<B>, r: seq<B>, l: nat, k: nat)
    requires l <= k < |r| && Stored(s.ring.mem, r) && BackendShape(s, r, l, k) && t == s.(running := false)
    ensures BackendShape(t, r, l, k)
  {
    assert LeftFill(t) == LeftFill(s);
  }

  lemma ShutdownWellFormed<B>(g: Ring<B>)
    requires WellFormed(g)
    ensures WellFormed(Shutdown(g))
  {
  }

  /** A run that has not dropped a line can take every further step: no iterator dangles. */
  lemma NothingDangles<B>(ss: seq<System<B>>, es: seq<Event<B>>, e: Event<B>)
    requires IsRun(ss, es)
    ensures var s := ss[|es|]; !s.dropped && Allowed(s, e) ==> Defined(s, e)
  {
    RunKeepsInv(ss, es);
    if Inv(ss[|es|]) {
      InvDefined(ss[|es|], e);
    }
  }

  lemma StepAppends<B>(s: System<B>, e: Event<B>)
    requires !s.dropped && Allowed(s, e) && Defined(s, e)
    ensures var t := Next(s, e);
            && t.ring.cap == s.ring.cap && t.ring.maxBuffers == s.ring.maxBuffers && t.maxLine == s.maxLine
            && (!t.dropped ==> t.appended == s.appended + if e.Append? then Accepted(s.ring.cap, e.line) else "")
  {
  }

  lemma {:induction false} AppendedIsInput<B>(ss: seq<System<B>>, es: seq<Event<B>>)
    requires IsRun(ss, es) && !ss[|es|].dropped
    ensures ss[|es|].appended == Lines(ss[0].ring.cap, es)
    ensures ss[|es|].ring.cap == ss[0].ring.cap && ss[|es|].maxLine == ss[0].maxLine
    ensures ss[|es|].ring.maxBuffers == ss[0].ring.maxBuffers
    decreases |es|
  {
    if es != [] {
      var m := |es| - 1;
      assert Steps(ss[m], es[m], ss[m + 1]);
      AppendedIsInput(ss[..m + 1], es[..m]);
      StepAppends(ss[m], es[m]);
    }
  }

  /** Conservation.  At every moment of a drop-free run, what the frontends passed in is exactly what
      the file holds followed by what the ring holds from the progress iterator to the current buffer,
      and every other buffer is empty: nothing lost, repeated or reordered. */
  lemma Conservation<B>(ss: seq<System<B>>, es: seq<Event<B>>)
    requires IsRun(ss, es)
    requires !ss[|es|].dropped && !ss[|es|].pc.Stopped?
    ensures var s := ss[|es|];
            && WellFormed(s.ring) && Progress(s) in s.ring.bufs
            && s.ring.file + Pending(s) == Lines(ss[0].ring.cap, es)
            && (var path := Rot(s.ring.bufs, Progress(s))[..Distance(s.ring.bufs, Progress(s), s.ring.cur) + 1];
                forall i :: 0 <= i < |s.ring.bufs| && s.ring.bufs[i] !in path ==> s.ring.mem[s.ring.bufs[i]] == "")
  {
    RunKeepsInv(ss, es);
    AppendedIsInput(ss, es);
    InvConserves(ss[|es|]);
  }

  lemma InvConserves<B>(s: System<B>)
    requires Inv(s)
    ensures Progress(s) in s.ring.bufs
    ensures s.ring.file + Pending(s) == s.appended
    ensures var path := Rot(s.ring.bufs, Progress(s))[..Distance(s.ring.bufs, Progress(s), s.ring.cur) + 1];
            forall i :: 0 <= i < |s.ring.bufs| && s.ring.bufs[i] !in path ==> s.ring.mem[s.ring.bufs[i]] == ""
  {
    var r := Rot(s.ring.bufs, s.ring.ntf);
    var l: nat, k: nat, c: nat :| Shape(s, r, l, k, c);
    ProgressAt(s, r, l, k, c);
    TextFromIs(s.ring, r, l, c);
    AheadIs(s.ring.bufs, s.ring.ntf, r, l, c);
    OffPathEmpty(s.ring, r, l, c);
  }

  lemma ProgressAt<B>(s: System<B>, r: seq<B>, l: nat, k: nat, c: nat)
    requires WellFormed(s.ring) && r == Rot(s.ring.bufs, s.ring.ntf) && Shape(s, r, l, k, c)
    ensures Progress(s) == r[l]
  {
    RotNext(s.ring.bufs, s.ring.ntf, 0);
  }

  lemma OffPathEmpty<B>(g: Ring<B>, r: seq<B>, l: nat, c: nat)
    requires g.ntf in g.bufs && Distinct(g.bufs) && r == Rot(g.bufs, g.ntf) && l <= c < |r|
    requires Stored(g.mem, r) && Stored(g.mem, g.bufs)
    requires forall i :: 0 <= i < |r| && (i < l || i > c) ==> g.mem[r[i]] == ""
    ensures forall i :: 0 <= i < |g.bufs| && g.bufs[i] !in r[l..c + 1] ==> g.mem[g.bufs[i]] == ""
  {
    RotDistinct(g.bufs, g.ntf);
    assert forall j :: l <= j <= c ==> r[j] in r[l..c + 1];
    forall i | 0 <= i < |g.bufs| && g.bufs[i] !in r[l..c + 1] ensures g.mem[g.bufs[i]] == "" {
      var j := IndexOf(r, g.bufs[i]);
    }
  }

  lemma TextFromIs<B>(g: Ring<B>, r: seq<B>, p: nat, c: nat)
    requires WellFormed(g) && r == Rot(g.bufs, g.ntf) && Stored(g.mem, r) && p <= c < |r| && g.cur == r[c]
    ensures r[p] in g.bufs && TextFrom(g, r[p]) == Text(g.mem, r, p, c + 1)
  {
    AheadIs(g.bufs, g.ntf, r, p, c);
    AheadText(g, r, p, c);
  }

  lemma AheadText<B>(g: Ring<B>, r: seq<B>, p: nat, c: nat)
    requires WellFormed(g) && p <= c < |r| && Stored(g.mem, r) && r[p] in g.bufs
    requires Distance(g.bufs, r[p], g.cur) == c - p && Rot(g.bufs, r[p])[..c - p + 1] == r[p..c + 1]
    ensures TextFrom(g, r[p]) == Text(g.mem, r, p, c + 1)
  {
    RotStored(g.mem, g.bufs, r[p]);
    assert Rot(g.bufs, r[p])[0..c - p + 1] == r[p..c + 1];
    TextSlice(g.mem, r, p, c + 1, Rot(g.bufs, r[p]), 0, c - p + 1);
  }

  // --------------------------------------------------------------- ownership

  /** The buffer the backend flushes, hands over or erases is never the one frontends write to. */
  lemma Ownership<B>(s: System<B>)
    requires Inv(s)
    ensures s.ring.cur in s.ring.bufs
    ensures s.pc.Flushing? && s.pc.next != s.pc.snap ==> s.pc.next != s.ring.cur
    ensures s.pc.HandedOver? ==> s.pc.next == s.ring.ntf != s.ring.cur
    ensures s.pc.Flushed? ==> s.ring.ntf != s.ring.cur
  {
    var r := Rot(s.ring.bufs, s.ring.ntf);
    var l: nat, k: nat, c: nat :| Shape(s, r, l, k, c);
    if s.pc.Flushing? && l < k {
      assert r[l] != r[c];
    }
    if s.pc.Flushed? {
      assert r[0] != r[c];
    }
  }

  /** The walk from one buffer to another. */
  ghost function Ahead<B>(bufs: seq<B>, next: B, snap: B): seq<B>
    requires next in bufs && snap in bufs
  {
    Rot(bufs, next)[..Distance(bufs, next, snap) + 1]
  }

  /** From the snapshot on, whenever the ring grows before the hand-over, the path from m_next_to_flush
      to the snapshot stays as it was, and so does what the flush loop still has to walk of it. */
  lemma GrowthOffThePath<B>(s: System<B>, line: string, node: B)
    requires Inv(s) && (s.pc.Snapped? || s.pc.Flushing?) && Allowed(s, Append(line, node)) && !Drops(s.ring, line)
    ensures Defined(s, Append(line, node)) && s.pc.snap in s.ring.bufs
    ensures var t := Next(s, Append(line, node));
            && t.pc == s.pc && t.ring.ntf == s.ring.ntf && t.ring.ntf in t.ring.bufs && t.pc.snap in t.ring.bufs
            && Ahead(t.ring.bufs, t.ring.ntf, t.pc.snap) == Ahead(s.ring.bufs, s.ring.ntf, s.pc.snap)
            && (s.pc.Flushing? ==>
                  && s.pc.next in s.ring.bufs && s.pc.next in t.ring.bufs
                  && Ahead(t.ring.bufs, t.pc.next, t.pc.snap) == Ahead(s.ring.bufs, s.pc.next, s.pc.snap))
  {
    InvDefined(s, Append(line, node));
    var l: nat, k: nat, c: nat :| Shape(s, Rot(s.ring.bufs, s.ring.ntf), l, k, c);
    WalkEnds(s, l, k, c);
    GrowthKeepsWalk(s.ring, line, node, 0, k);
    GrowthKeepsWalk(s.ring, line, node, l, k);
  }

  lemma WalkEnds<B>(s: System<B>, l: nat, k: nat, c: nat)
    requires WellFormed(s.ring) && Shape(s, Rot(s.ring.bufs, s.ring.ntf), l, k, c)
    ensures l <= k < |s.ring.bufs|
    ensures var r := Rot(s.ring.bufs, s.ring.ntf);
            && s.ring.ntf == r[0] && (s.pc.Snapped? ==> s.pc.snap == r[k])
            && (s.pc.Flushing? ==> s.pc.snap == r[k] && s.pc.next == r[l])
  {
  }

  lemma GrowthKeepsWalk<B>(g: Ring<B>, line: string, node: B, l: nat, k: nat)
    requires WellFormed(g) && node !in g.bufs && l <= k < |g.bufs|
    ensures var r, h := Rot(g.bufs, g.ntf), AppendLine(g, line, node);
            && h.ntf == g.ntf && r[l] in g.bufs && r[k] in g.bufs && r[l] in h.bufs && r[k] in h.bufs
            && Ahead(h.bufs, r[l], r[k]) == Ahead(g.bufs, r[l], r[k])
  {
    AppendBufs(g, line, node);
    SameAhead(g.bufs, AppendLine(g, line, node).bufs, g.ntf, node, l, k);
  }

  lemma SameAhead<B>(bufs: seq<B>, bufs2: seq<B>, ntf: B, node: B, l: nat, k: nat)
    requires Distinct(bufs) && ntf in bufs && node !in bufs && l <= k < |bufs|
    requires bufs2 == bufs || bufs2 == InsertBefore(bufs, ntf, node)
    ensures var r := Rot(bufs, ntf);
            && r[l] in bufs && r[k] in bufs && r[l] in bufs2 && r[k] in bufs2
            && Ahead(bufs2, r[l], r[k]) == Ahead(bufs, r[l], r[k])
  {
    AheadIs(bufs, ntf, Rot(bufs, ntf), l, k);
    InsertAhead(bufs, ntf, node, l, k);
  }

  lemma AppendBufs<B>(g: Ring<B>, line: string, node: B)
    requires WellFormed(g) && node !in g.bufs
    ensures var h := AppendLine(g, line, node);
            h.ntf == g.ntf && (h.bufs == g.bufs || h.bufs == InsertBefore(g.bufs, g.ntf, node))
  {
  }

  lemma InsertAhead<B>(bufs: seq<B>, ntf: B, node: B, l: nat, k: nat)
    requires Distinct(bufs) && ntf in bufs && node !in bufs && l <= k < |bufs|
    ensures var r, t := Rot(bufs, ntf), InsertBefore(bufs, ntf, node);
            && r[l] in t && r[k] in t
            && Ahead(t, r[l], r[k]) == r[l..k + 1]
  {
    RotInsert(bufs, ntf, node);
    AheadOfLonger(InsertBefore(bufs, ntf, node), ntf, Rot(bufs, ntf), node, l, k);
  }

  lemma AheadOfLonger<B>(t: seq<B>, ntf: B, r: seq<B>, node: B, l: nat, k: nat)
    requires Distinct(t) && ntf in t && l <= k < |r| && Rot(t, ntf) == r + [node]
    ensures r[l] in t && r[k] in t && Ahead(t, r[l], r[k]) == r[l..k + 1]
  {
    assert (r + [node])[l] == r[l] && (r + [node])[k] == r[k];
    AheadIs(t, ntf, r + [node], l, k);
    SlicePrefix(r, node, l, k + 1);
  }

  lemma SlicePrefix<B>(r: seq<B>, x: B, i: nat, j: nat)
    requires i <= j <= |r|
    ensures (r + [x])[i..j] == r[i..j]
  {
  }

  lemma AheadIs<B>(bufs: seq<B>, ntf: B, r: seq<B>, l: nat, k: nat)
    requires Distinct(bufs) && ntf in bufs && r == Rot(bufs, ntf) && l <= k < |r|
    ensures r[l] in bufs && r[k] in bufs
    ensures Distance(bufs, r[l], r[k]) == k - l
    ensures Rot(bufs, r[l])[..k - l + 1] == r[l..k + 1]
  {
    RotNext(bufs, ntf, k);
    RotShift(bufs, ntf, l);
    assert Rot(bufs, r[l])[k - l] == r[k];
    RotDistance(bufs, r[l], k - l);
  }

  // -------------------------------------------------------------- dropping

  /** Before any drop, a line can be dropped only when the ring is at its limit and more than
      (n-1) * (cap - maxLine) bytes wait in buffers the backend has not released. */
  lemma DropNeedsBacklog<B>(s: System<B>, line: string)
    requires Inv(s) && |line| <= s.maxLine <= s.ring.cap && Drops(s.ring, line)
    ensures s.ring.n == |s.ring.bufs| == if s.ring.maxBuffers < 4 then 4 else s.ring.maxBuffers
    ensures |s.appended| - s.released > (s.ring.n - 1) * (s.ring.cap - s.maxLine)
  {
    var r := Rot(s.ring.bufs, s.ring.ntf);
    var l: nat, k: nat, c: nat :| Shape(s, r, l, k, c);
    ShapeBacklog(s, r, l, k, c, line);
  }

  lemma ShapeBacklog<B>(s: System<B>, r: seq<B>, l: nat, k: nat, c: nat, line: string)
    requires WellFormed(s.ring) && r == Rot(s.ring.bufs, s.ring.ntf) && Shape(s, r, l, k, c)
    requires |line| <= s.maxLine <= s.ring.cap && Drops(s.ring, line)
    ensures |s.appended| - s.released > (s.ring.n - 1) * (s.ring.cap - s.maxLine)
  {
    AtTheEnd(s.ring, c);
    EndBacklog(s, r, l, k);
    TimesSucc(|r| - 1, s.ring.cap - s.maxLine);
  }

  lemma EndBacklog<B>(s: System<B>, r: seq<B>, l: nat, k: nat)
    requires |r| >= 2 && Shape(s, r, l, k, |r| - 1) && |s.ring.mem[r[|r| - 1]]| >= LeftFill(s)
    ensures |s.appended| - s.released >= (|r| - 1) * LeftFill(s)
  {
    HeldText(s.ring, r, l, s.pc.HandedOver?, LeftFill(s));
    FlushedSoFar(s, r, l, k);
    Backlog(|s.appended| - s.released, |s.ring.file| - s.released, |r|, l, LeftFill(s), s.pc.HandedOver?);
  }

  lemma FlushedSoFar<B>(s: System<B>, r: seq<B>, l: nat, k: nat)
    requires l <= k < |r| && Stored(s.ring.mem, r) && BackendShape(s, r, l, k)
    ensures l <= 1 || |s.ring.file| - s.released >= l * LeftFill(s)
  {
  }

  lemma Backlog(held: int, flushed: int, n: nat, l: nat, m: nat, firstLeftByBackend: bool)
    requires l < n && flushed >= 0
    requires held >= flushed + if firstLeftByBackend && l == 0 then (n - 1) * m else (n - l) * m
    requires l <= 1 || flushed >= l * m
    ensures held >= (n - 1) * m
  {
    TimesSplit(l, n - l, m);
    TimesSplit(1, n - 1, m);
  }

  lemma TimesSplit(a: int, b: int, m: int)
    ensures a * m + b * m == (a + b) * m
  {
  }

  lemma TimesSucc(a: int, b: int)
    ensures a * (b + 1) == a * b + a
  {
  }

  /** The iterators are adjacent exactly when the current buffer is the last of the rotation. */
  lemma AtTheEnd<B>(g: Ring<B>, c: nat)
    requires WellFormed(g) && c < |g.bufs| && |g.bufs| >= 2 && g.cur == Rot(g.bufs, g.ntf)[c]
    ensures ExactlyFull(g) <==> c + 1 == |g.bufs|
    ensures Succ(g.bufs, g.cur) == Rot(g.bufs, g.ntf)[if c + 1 == |g.bufs| then 0 else c + 1]
  {
    var r := Rot(g.bufs, g.ntf);
    RotDistinct(g.bufs, g.ntf);
    RotNext(g.bufs, g.ntf, c);
    assert c + 1 < |r| ==> r[0] != r[c + 1];
  }

  lemma HeldText<B>(g: Ring<B>, r: seq<B>, l: nat, firstLeftByBackend: bool, m: nat)
    requires l < |r| && Stored(g.mem, r) && |g.mem[r[|r| - 1]]| >= m
    requires Filled(g, r, l, |r| - 1, firstLeftByBackend, m)
    ensures |Text(g.mem, r, l, |r|)| >= if firstLeftByBackend && l == 0 then (|r| - 1) * m else (|r| - l) * m
  {
    if firstLeftByBackend && l == 0 {
      TextAtLeast(g.mem, r, 1, |r|, m);
    } else {
      TextAtLeast(g.mem, r, l, |r|, m);
    }
  }

  /** The ring's size is what m_buffers_n says, from 4 up to the configured limit. */
  lemma RingSize<B>(ss: seq<System<B>>, es: seq<Event<B>>)
    requires IsRun(ss, es) && !ss[|es|].dropped && !ss[|es|].pc.Stopped?
    ensures var s := ss[|es|];
            && s.ring.n == |s.ring.bufs|
            && 4 <= s.ring.n <= (if ss[0].ring.maxBuffers < 4 then 4 else ss[0].ring.maxBuffers) <= 25
  {
    RunKeepsInv(ss, es);
    AppendedIsInput(ss, es);
    var s := ss[|es|];
    var l: nat, k: nat, c: nat :| Shape(s, Rot(s.ring.bufs, s.ring.ntf), l, k, c);
  }

  // ----------------------------------------------------------- bounded delay

  /** During a pass `seen` stays what it was at the snapshot. */
  lemma {:induction false} SeenIsSnapshot<B>(ss: seq<System<B>>, es: seq<Event<B>>, i: nat, j: nat)
    requires IsRun(ss, es) && i < j <= |es|
    requires ss[i].pc.Idle? && es[i].Backend?
    requires forall h :: i < h < j ==> !ss[h].pc.Idle?
    ensures ss[j].seen == ss[i].appended
    decreases j
  {
    assert Steps(ss[j - 1], es[j - 1], ss[j]);
    if i + 1 < j {
      SeenIsSnapshot(ss, es, i, j - 1);
    }
  }

  /** Bounded delay: what was appended before a pass took its snapshot is in the file when that
      pass reaches fflush. */
  lemma BoundedDelay<B>(ss: seq<System<B>>, es: seq<Event<B>>, i: nat, j: nat)
    requires IsRun(ss, es) && i < j <= |es| && !ss[j].dropped
    requires ss[i].pc.Idle? && es[i].Backend? && ss[j].pc.PassDone?
    requires forall h :: i < h < j ==> !ss[h].pc.Idle?
    ensures ss[i].appended <= ss[j].ring.file
  {
    RunKeepsInv(ss, es);
    SeenIsSnapshot(ss, es, i, j);
    var s := ss[j];
    var r := Rot(s.ring.bufs, s.ring.ntf);
    var l: nat, k: nat, c: nat :| Shape(s, r, l, k, c);
    assert s.ring.file + Text(s.ring.mem, r, l, c + 1) == s.appended;
    assert |s.seen| <= |s.ring.file|;
    assert s.ring.file == s.appended[..|s.ring.file|];
  }

  // ---------------------------------------------------------------- shutdown

  ghost predicate ExactlyFull<B>(g: Ring<B>)
    requires WellFormed(g)
  {
    Succ(g.bufs, g.cur) == g.ntf
  }

  /** The final flush completes the file if and only if the ring is not exactly full: on a full
      ring the advance lands on m_next_to_flush and the loop body never runs. */
  lemma ShutdownCompletes<B>(s: System<B>)
    requires Inv(s) && s.pc.Closing? && s.maxLine <= s.ring.cap
    ensures Defined(s, Backend)
    ensures Next(s, Backend).ring.file == s.appended <==> !ExactlyFull(s.ring)
  {
    InvDefined(s, Backend);
    var r := Rot(s.ring.bufs, s.ring.ntf);
    var l: nat, k: nat, c: nat :| Shape(s, r, l, k, c);
    AtTheEnd(s.ring, c);
    if c + 1 < |r| {
      RotDistance(s.ring.bufs, s.ring.ntf, c + 1);
    } else {
      RotDistance(s.ring.bufs, s.ring.ntf, 0);
      TextSplit(s.ring.mem, r, 0, 1, c + 1);
      assert |s.appended| > |s.ring.file|;
    }
  }

  /** The same over a whole run: the file left behind is the frontends' input, or falls short. */
  lemma ShutdownOfRun<B>(ss: seq<System<B>>, es: seq<Event<B>>, j: nat)
    requires IsRun(ss, es) && j < |es| && !ss[j].dropped && ss[j].pc.Closing? && es[j].Backend?
    requires ss[0].maxLine <= ss[0].ring.cap
    ensures WellFormed(ss[j].ring)
    ensures ss[j + 1].pc.Stopped?
    ensures ss[j + 1].ring.file == Lines(ss[0].ring.cap, es[..j]) <==> !ExactlyFull(ss[j].ring)
  {
    RunKeepsInv(ss, es);
    AppendedIsInput(ss[..j + 1], es[..j]);
    ShutdownCompletes(ss[j]);
    assert Steps(ss[j], es[j], ss[j + 1]);
  }

  // ------------------------------- a run whose last lines never reach the file

  /** Four one-byte buffers; cell i holds fill[i]. */
  ghost function Small(cur: int, ntf: int, fill: seq<string>, pc: Backend<int>, running: bool, appended: string): System<int>
    requires |fill| == 4
  {
    System(Ring(1, 4, [0, 1, 2, 3], 4, cur, ntf, map[0 := fill[0], 1 := fill[1], 2 := fill[2], 3 := fill[3]], ""),
           pc, running, 1, appended, 0, "", false)
  }

  lemma SmallIndices()
    ensures var s := [0, 1, 2, 3]; IndexOf(s, 0) == 0 && IndexOf(s, 1) == 1 && IndexOf(s, 2) == 2 && IndexOf(s, 3) == 3
  {
    IndexUnique([0, 1, 2, 3], 0);
    IndexUnique([0, 1, 2, 3], 1);
    IndexUnique([0, 1, 2, 3], 2);
    IndexUnique([0, 1, 2, 3], 3);
  }

  /** One idle backend pass, Stop, then four one-byte lines. */
  ghost function SmallState(i: nat): System<int> {
    var none := ["", "", "", ""];
    if i == 0 then Small(0, 0, none, Idle, true, "")
    else if i == 1 then Small(0, 0, none, Snapped(0), true, "")
    else if i == 2 then Small(0, 0, none, Flushing(0, 0, true), true, "")
    else if i == 3 then Small(1, 0, none, HandedOver(0, true), true, "")
    else if i == 4 then Small(1, 0, none, Flushed(true), true, "")
    else if i == 5 then Small(1, 1, none, PassDone, true, "")
    else if i == 6 then Small(1, 1, none, PassDone, false, "")
    else if i == 7 then Small(1, 1, ["", "a", "", ""], PassDone, false, "a")
    else if i == 8 then Small(2, 1, ["", "a", "b", ""], PassDone, false, "ab")
    else if i == 9 then Small(3, 1, ["", "a", "b", "c"], PassDone, false, "abc")
    else if i == 10 then Small(0, 1, ["d", "a", "b", "c"], PassDone, false, "abcd")
    else if i == 11 then Small(0, 1, ["d", "a", "b", "c"], Closing, false, "abcd")
    else Small(1, 1, ["d", "a", "b", "c"], Stopped, false, "abcd")
  }

  ghost function SmallEvent(i: nat): Event<int> {
    if i == 5 then Stop
    else if i == 6 then Append("a", 9)
    else if i == 7 then Append("b", 9)
    else if i == 8 then Append("c", 9)
    else if i == 9 then Append("d", 9)
    else Backend
  }

  ghost predicate SmallStep(i: nat) {
    Steps(SmallState(i), SmallEvent(i), SmallState(i + 1))
  }

  lemma SmallPass()
    ensures SmallStep(0) && SmallStep(1)
  {
    SmallIndices();
  }

  lemma SmallHandOver()
    ensures SmallStep(2)
  {
    SmallIndices();
  }

  lemma FlushEmpty<B>(g: Ring<B>, b: B)
    requires b in g.mem && g.mem[b] == ""
    ensures Flush(g, b) == g
  {
    assert g.file + "" == g.file;
    assert g.mem[b := ""] == g.mem;
  }

  lemma SmallFlush()
    ensures SmallStep(3)
  {
    var s := SmallState(3);
    SmallIndices();
    FlushEmpty(s.ring, 0);
    assert 0 in s.ring.bufs && Defined(s, Backend);
    assert SmallState(4) == s.(pc := Flushed(true));
  }

  lemma SmallStop()
    ensures SmallStep(5)
  {
  }

  lemma SmallRelease()
    ensures SmallStep(4)
  {
    SmallIndices();
  }

  lemma AppendMovesOn<B>(g: Ring<B>, cell: B, line: string, node: B)
    requires WellFormed(g) && node !in g.bufs && !Fits(g, line) && |line| <= g.cap
    requires Succ(g.bufs, g.cur) == cell != g.ntf && g.mem[cell] == ""
    ensures !Drops(g, line) && AppendLine(g, line, node) == g.(cur := cell, mem := g.mem[cell := line])
  {
    assert "" + line == line;
  }

  /** A line that moves the frontends on to the next empty buffer. */
  lemma SmallLine(cur: int, cell: int, fill: seq<string>, fill2: seq<string>, line: string, text: string)
    requires |fill| == 4 && 0 <= cur < 4 && cell == (cur + 1) % 4 != 1
    requires |fill[cur]| == |line| == 1 && fill[cell] == "" && fill2 == fill[cell := line]
    ensures Steps(Small(cur, 1, fill, PassDone, false, text), Append(line, 9),
                  Small(cell, 1, fill2, PassDone, false, text + line))
  {
    SmallIndices();
    var s, t := Small(cur, 1, fill, PassDone, false, text), Small(cell, 1, fill2, PassDone, false, text + line);
    var g := s.ring;
    assert t.ring.mem == g.mem[cell := line];
    assert WellFormed(g) && Succ(g.bufs, g.cur) == cell;
    AppendMovesOn(g, cell, line, 9);
  }

  lemma AppendFits<B>(g: Ring<B>, line: string, node: B)
    requires WellFormed(g) && Fits(g, line) && g.mem[g.cur] == ""
    ensures !Drops(g, line) && AppendLine(g, line, node) == g.(mem := g.mem[g.cur := line])
  {
    assert "" + line == line;
  }

  lemma SmallFirstLine()
    ensures SmallStep(6)
  {
    SmallIndices();
    var s, t := SmallState(6), SmallState(7);
    AppendFits(s.ring, "a", 9);
    assert t.ring.mem == s.ring.mem[1 := "a"];
    assert "" + "a" == "a";
  }

  lemma SmallSecondLine()
    ensures SmallStep(7)
  {
    assert "a" + "b" == "ab";
    SmallLine(1, 2, ["", "a", "", ""], ["", "a", "b", ""], "b", "a");
  }

  lemma SmallThirdLine()
    ensures SmallStep(8)
  {
    assert "ab" + "c" == "abc";
    SmallLine(2, 3, ["", "a", "b", ""], ["", "a", "b", "c"], "c", "ab");
  }

  lemma SmallFourthLine()
    ensures SmallStep(9)
  {
    assert "abc" + "d" == "abcd";
    SmallLine(3, 0, ["", "a", "b", "c"], ["d", "a", "b", "c"], "d", "abc");
  }

  lemma SmallClose()
    ensures SmallStep(10)
  {
    SmallIndices();
  }

  lemma SmallEnd()
    ensures SmallStep(11)
  {
    SmallIndices();
  }

  /** Every line is accepted and the backend stops in good order, yet none reaches the file. */
  lemma ShutdownMayLoseText() returns (ss: seq<System<int>>, es: seq<Event<int>>)
    ensures IsRun(ss, es) && ss[|es|].pc.Stopped? && !ss[|es|].dropped
    ensures ss[0].maxLine <= ss[0].ring.cap
    ensures Lines(ss[0].ring.cap, es) == "abcd" && ss[|es|].ring.file == ""
  {
    ss := seq(13, (i: nat) => SmallState(i));
    es := seq(12, (i: nat) => SmallEvent(i));
    forall i | 0 <= i < 12 ensures Steps(ss[i], es[i], ss[i + 1]) {
      SmallRun(i);
    }
    SmallInitial();
    AppendedIsInput(ss, es);
  }

  lemma SmallRun(i: nat)
    requires i < 12
    ensures SmallStep(i)
  {
    SmallPass();
    SmallHandOver();
    SmallFlush();
    SmallRelease();
    SmallStop();
    SmallFirstLine();
    SmallSecondLine();
    SmallThirdLine();
    SmallFourthLine();
    SmallClose();
    SmallEnd();
  }

  lemma SmallInitial()
    ensures Initial(SmallState(0))
  {
  }

  // ---------------------------------------------------- a pass by itself

  /** A step of the backend. */
  ghost predicate ByBackend<B>(s: System<B>, t: System<B>) { Defined(s, Backend) && t == BackendStep(s) }

  /** Steps of the backend, and of nobody else. */
  ghost predicate Alone<B>(ss: seq<System<B>>) {
    forall i :: 0 <= i < |ss| - 1 ==> ByBackend(ss[i], ss[i + 1])
  }

  lemma AloneOn<B>(ss: seq<System<B>>, t: System<B>)
    requires ss != [] && Alone(ss) && ByBackend(ss[|ss| - 1], t)
    ensures Alone(ss + [t])
  {
    var more := ss + [t];
    forall i | 0 <= i < |more| - 1
      ensures ByBackend(more[i], more[i + 1])
    {
      if i < |ss| - 1 {
        assert ByBackend(ss[i], ss[i + 1]);
      }
    }
  }

  /** A pass that began in s has flushed l buffers. */
  ghost predicate Midway<B>(s: System<B>, t: System<B>, l: nat) {
    var r := s.ring;
    && WellFormed(r) && l <= Distance(r.bufs, r.ntf, r.cur)
    && var path, d := Rot(r.bufs, r.ntf), Distance(r.bufs, r.ntf, r.cur);
       && Stored(r.mem, path) && t.ring == FlushFirst(r, path, l) && t.ring.mem.Keys == r.mem.Keys
       && t.pc == Flushing(r.cur, path[l], r.n - d > 2)
  }

  lemma PassBegins<B>(s: System<B>)
    requires s.pc.Idle? && WellFormed(s.ring)
    ensures Defined(s, Backend) && Defined(BackendStep(s), Backend) && Midway(s, BackendStep(BackendStep(s)), 0)
  {
    RotStored(s.ring.mem, s.ring.bufs, s.ring.ntf);
    assert BackendStep(s).pc == Snapped(s.ring.cur);
  }

  lemma PassGoesOn<B>(s: System<B>, t: System<B>, l: nat)
    requires Midway(s, t, l) && l < Distance(s.ring.bufs, s.ring.ntf, s.ring.cur)
    ensures Defined(t, Backend) && Midway(s, BackendStep(t), l + 1)
  {
    var r := s.ring;
    var path := Rot(r.bufs, r.ntf);
    RotNext(r.bufs, r.ntf, l);
    RotEnds(r.bufs, r.ntf, r.cur);
    RotDistinct(r.bufs, r.ntf);
    FlushFirstKeeps(r, path, l + 1);
    assert path[l] != r.cur;
  }

  lemma {:induction false} PassFlushes<B>(s: System<B>, l: nat) returns (ss: seq<System<B>>)
    requires s.pc.Idle? && WellFormed(s.ring) && l <= Distance(s.ring.bufs, s.ring.ntf, s.ring.cur)
    ensures |ss| == l + 3 && ss[0] == s && Alone(ss) && Midway(s, ss[l + 2], l)
  {
    if l == 0 {
      PassBegins(s);
      ss := [s, BackendStep(s), BackendStep(BackendStep(s))];
    } else {
      ss := PassFlushes(s, l - 1);
      var p := ss[l + 1];
      PassGoesOn(s, p, l - 1);
      AloneOn(ss, BackendStep(p));
      ss := ss + [BackendStep(p)];
    }
  }

  lemma HandsOver<B>(p: System<B>) returns (t: System<B>)
    requires p.pc.Flushing? && p.pc.next == p.pc.snap == p.ring.cur && WellFormed(p.ring)
    ensures ByBackend(p, t) && t.pc == HandedOver(p.pc.next, p.pc.reduce)
    ensures t.ring == HandOver(p.ring, p.ring.cur, p.ring.cur) && WellFormed(t.ring)
  {
    t := BackendStep(p);
  }

  lemma FlushesLast<B>(p: System<B>) returns (t: System<B>)
    requires p.pc.HandedOver? && p.pc.next in p.ring.bufs && WellFormed(p.ring)
    ensures ByBackend(p, t) && t.pc == Flushed(p.pc.reduce)
    ensures t.ring == Flush(p.ring, p.pc.next) && WellFormed(t.ring)
  {
    t := BackendStep(p);
  }

  lemma Releases<B>(p: System<B>) returns (t: System<B>)
    requires p.pc.Flushed? && WellFormed(p.ring)
    ensures ByBackend(p, t) && t.pc.PassDone? && t.ring == Release(p.ring, p.pc.reduce)
  {
    t := BackendStep(p);
  }

  /** From the end of the flush loop to fflush. */
  lemma LastThree<B>(p: System<B>) returns (a: System<B>, b: System<B>, t: System<B>)
    requires p.pc.Flushing? && p.pc.next == p.pc.snap == p.ring.cur && WellFormed(p.ring)
    ensures ByBackend(p, a) && ByBackend(a, b) && ByBackend(b, t) && t.pc.PassDone?
    ensures t.ring == Release(Flush(HandOver(p.ring, p.ring.cur, p.ring.cur), p.ring.cur), p.pc.reduce)
  {
    a := HandsOver(p);
    b := FlushesLast(a);
    t := Releases(b);
  }

  /** Before the hand-over. */
  lemma AllFlushed<B>(s: System<B>, t: System<B>)
    requires WellFormed(s.ring) && Midway(s, t, Distance(s.ring.bufs, s.ring.ntf, s.ring.cur))
    ensures t.pc.Flushing? && t.pc.next == t.pc.snap == t.ring.cur && WellFormed(t.ring)
    ensures Release(Flush(HandOver(t.ring, t.ring.cur, t.ring.cur), t.ring.cur), t.pc.reduce) == Pass(s.ring)
  {
    RotEnds(s.ring.bufs, s.ring.ntf, s.ring.cur);
  }

  lemma EndOfPass<B>(s: System<B>, p: System<B>) returns (a: System<B>, b: System<B>, t: System<B>)
    requires WellFormed(s.ring) && Midway(s, p, Distance(s.ring.bufs, s.ring.ntf, s.ring.cur))
    ensures ByBackend(p, a) && ByBackend(a, b) && ByBackend(b, t) && t.pc.PassDone? && t.ring == Pass(s.ring)
  {
    AllFlushed(s, p);
    a, b, t := LastThree(p);
  }

  /** Alone, the backend goes through a pass without stopping, and what it does to the ring is Pass. */
  lemma PassOfSteps<B>(s: System<B>) returns (ss: seq<System<B>>)
    requires s.pc.Idle? && WellFormed(s.ring)
    ensures |ss| == Distance(s.ring.bufs, s.ring.ntf, s.ring.cur) + 6 && ss[0] == s && Alone(ss)
    ensures ss[|ss| - 1].pc.PassDone? && ss[|ss| - 1].ring == Pass(s.ring)
  {
    ss := PassFlushes(s, Distance(s.ring.bufs, s.ring.ntf, s.ring.cur));
    var a, b, t := EndOfPass(s, ss[|ss| - 1]);
    AloneOn(ss, a);
    AloneOn(ss + [a], b);
    AloneOn(ss + [a] + [b], t);
    ss := ss + [a] + [b] + [t];
  }

  // ------------------------------------------------- the release in a run

  /** The decision taken when the backend has counted, and the buffer it will release, are kept to. */
  ghost predicate Keeps<B>(s: System<B>, snap: B, reduce: bool) {
    match s.pc
    case Flushing(b, _, red) => b == snap && red == reduce
    case HandedOver(next, red) => next == snap && red == reduce && s.ring.ntf == snap
    case Flushed(red) => red == reduce && s.ring.ntf == snap
    case _ => false
  }

  /** The backend is in its pass, between counting the free buffers and the release. */
  ghost predicate InPass<B>(s: System<B>) { s.pc.Flushing? || s.pc.HandedOver? || s.pc.Flushed? }

  lemma StepKeeps<B>(s: System<B>, e: Event<B>, t: System<B>, snap: B, reduce: bool)
    requires Steps(s, e, t) && Keeps(s, snap, reduce) && InPass(t)
    ensures Keeps(t, snap, reduce)
  {
  }

  lemma {:induction false} RunKeeps<B>(ss: seq<System<B>>, es: seq<Event<B>>, i: nat, k: nat, snap: B, reduce: bool)
    requires IsRun(ss, es) && i <= k < |ss| && Keeps(ss[i], snap, reduce)
    requires forall m :: i <= m <= k ==> InPass(ss[m])
    ensures Keeps(ss[k], snap, reduce)
    decreases k - i
  {
    if i < k {
      RunKeeps(ss, es, i, k - 1, snap, reduce);
      assert Steps(ss[k - 1], es[k - 1], ss[k]);
      StepKeeps(ss[k - 1], es[k - 1], ss[k], snap, reduce);
    }
  }

  /** In every run, whatever the frontends do between: the buffer released is the snapshot; it is given
      back if and only if more than two buffers were free when the backend counted them and more than
      four are there now; and m_next_to_flush moves to the buffer behind it. */
  lemma ReleaseOfRun<B>(ss: seq<System<B>>, es: seq<Event<B>>, i: nat, k: nat, a: nat, b: nat)
    requires IsRun(ss, es) && i < k < |es| && es[i].Backend? && es[k].Backend?
    requires ss[i].pc.Snapped? && ss[k].pc.Flushed? && forall m :: i < m <= k ==> InPass(ss[m])
    requires a < |ss[i].ring.bufs| && ss[i].ring.bufs[a] == ss[i].ring.ntf
    requires b < |ss[i].ring.bufs| && ss[i].ring.bufs[b] == ss[i].pc.snap
    ensures var g, h, t, snap := ss[i].ring, ss[k].ring, ss[k + 1].ring, ss[i].pc.snap;
            var steps := if a <= b then b - a else b - a + |g.bufs|;
            var gives := g.n - steps > 2 && h.n > 4;
            && h.ntf == snap && snap in h.bufs && (snap !in t.bufs <==> gives)
            && t.n == (if gives then h.n - 1 else h.n)
            && forall j :: 0 <= j < |h.bufs| && h.bufs[j] == snap ==>
                 && t.bufs == (if gives then h.bufs[..j] + h.bufs[j + 1..] else h.bufs)
                 && t.ntf == h.bufs[if j + 1 == |h.bufs| then 0 else j + 1]
  {
    var g, h, snap := ss[i].ring, ss[k].ring, ss[i].pc.snap;
    assert Steps(ss[i], es[i], ss[i + 1]);
    assert Steps(ss[k], es[k], ss[k + 1]);
    IndexUnique(g.bufs, a);
    IndexUnique(g.bufs, b);
    var reduce := g.n - Distance(g.bufs, g.ntf, snap) > 2;
    RunKeeps(ss, es, i + 1, k, snap, reduce);
    ReleaseExact(h, reduce, IndexOf(h.bufs, snap));
    forall j | 0 <= j < |h.bufs| && h.bufs[j] == snap
      ensures j == IndexOf(h.bufs, snap)
    {
      IndexUnique(h.bufs, j);
    }
  }

  /** At fflush the backend goes on to its next pass as long as it is running, and otherwise leaves its
      loop; once it has left it stops, and not before. */
  lemma BackendGoesOn<B>(s: System<B>)
    requires Defined(s, Backend)
    ensures s.pc.PassDone? && s.running ==> BackendStep(s) == s.(pc := Idle)
    ensures s.pc.PassDone? && !s.running ==> BackendStep(s) == s.(pc := Closing)
    ensures BackendStep(s).pc.Stopped? <==> s.pc.Closing? || s.pc.Stopped?
    ensures BackendStep(s).pc.Idle? <==> s.pc.PassDone? && s.running
  {
    assert s.pc.Closing? ==> BackendStep(s).pc.Stopped?;
  }
}
