/** The asynchronous logger as a concurrent protocol: any number of frontends
    append under a mutex while one backend thread flushes, grows and shrinks
    the ring.  Every lock section, and every single-buffer flush outside the
    lock, is one atomic step, and the steps interleave in every possible way. */
module LogProtocol {
  import opened LogRing

  /** Where the backend thread is, with its local variables. */
  datatype Backend<B> =
    | Idle                                        // about to take the snapshot
    | Snapped(snap: B)                            // about to read the ring size
    | Flushing(snap: B, next: B, reduce: bool)    // in the flush loop
    | HandedOver(next: B, reduce: bool)           // about to flush the handed-over buffer
    | Flushed(reduce: bool)                       // about to release it
    | PassDone                                    // at fflush
    | Closing                                     // left the loop
    | Stopped

  datatype System<B> = System(
    ring: Ring<B>,
    pc: Backend<B>,
    running: bool,
    maxLine: nat,        // SmallBufferSize: the longest line a frontend sends
    appended: string,    // all the text accepted so far
    released: nat,       // how many bytes of the file were in buffers released since
    seen: string,        // `appended` when the current pass took its snapshot
    dropped: bool)       // the drop branch was taken

  datatype Event<B> = Append(line: string, node: B) | Stop | Backend

  /** What the environment may do: frontends respect the line limit, the allocator hands out
      nodes that are not in use, and nobody appends once the backend has stopped. */
  ghost predicate Allowed<B>(s: System<B>, e: Event<B>) {
    e.Append? ==> e.node !in s.ring.bufs && |e.line| <= s.maxLine && !s.pc.Stopped?
  }

  /** Every iterator the step dereferences or advances is in the list. */
  ghost predicate Defined<B>(s: System<B>, e: Event<B>) {
    && WellFormed(s.ring)
    && (e.Backend? ==>
      match s.pc
      case Snapped(snap) => snap in s.ring.bufs
      case Flushing(snap, next, _) => next in s.ring.bufs
      case HandedOver(next, _) => next in s.ring.bufs
      case _ => true)
  }

  /** A line longer than a whole buffer is lost even without a drop. */
  ghost function Accepted(cap: nat, line: string): string {
    if |line| <= cap then line else ""
  }

  ghost function Next<B>(s: System<B>, e: Event<B>): System<B>
    requires Allowed(s, e) && Defined(s, e)
  {
    match e
    case Stop => s.(running := false)
    case Append(line, node) =>
      if Drops(s.ring, line) then s.(ring := AppendLine(s.ring, line, node), dropped := true)
      else s.(ring := AppendLine(s.ring, line, node), appended := s.appended + Accepted(s.ring.cap, line))
    case Backend => BackendStep(s)
  }

  ghost function BackendStep<B>(s: System<B>): System<B>
    requires Defined(s, Backend)
  {
    var r := s.ring;
    match s.pc
    case Idle => s.(pc := Snapped(r.cur), seen := s.appended)
    case Snapped(snap) => s.(pc := Flushing(snap, r.ntf, r.n - Distance(r.bufs, r.ntf, snap) > 2))
    case Flushing(snap, next, reduce) =>
      if next != snap then
        s.(ring := Flush(r, next), pc := Flushing(snap, Succ(r.bufs, next), reduce))
      else
        s.(ring := HandOver(r, snap, next), pc := HandedOver(next, reduce), released := |r.file|)
    case HandedOver(next, reduce) => s.(ring := Flush(r, next), pc := Flushed(reduce))
    case Flushed(reduce) => s.(ring := Release(r, reduce), pc := PassDone, released := |r.file|)
    case PassDone => s.(pc := if s.running then Idle else Closing)
    case Closing => s.(ring := Shutdown(r), pc := Stopped)
    case Stopped => s
  }

  ghost predicate Initial<B>(s: System<B>) {
    && |s.ring.bufs| == 4 == s.ring.n && Distinct(s.ring.bufs)
    && s.ring.cur == s.ring.bufs[0] == s.ring.ntf
    && s.ring.maxBuffers <= 25
    && Stored(s.ring.mem, s.ring.bufs) && (forall i :: 0 <= i < 4 ==> s.ring.mem[s.ring.bufs[i]] == "")
    && s.ring.file == s.appended == s.seen == "" && s.released == 0
    && s.pc.Idle? && s.running && !s.dropped
  }

  /** An interleaving: one event per step; it ends at the latest when a line is dropped. */
  ghost predicate IsRun<B>(ss: seq<System<B>>, es: seq<Event<B>>) {
    && |ss| == |es| + 1 && Initial(ss[0])
    && forall i :: 0 <= i < |es| ==> Steps(ss[i], es[i], ss[i + 1])
  }

  ghost predicate Steps<B>(s: System<B>, e: Event<B>, t: System<B>) {
    !s.dropped && Allowed(s, e) && Defined(s, e) && t == Next(s, e)
  }

  // -------------------------------------------------------------- invariant

  /** The least fill of a buffer that a frontend has left behind. */
  ghost function LeftFill<B>(s: System<B>): nat {
    if s.maxLine <= s.ring.cap then s.ring.cap - s.maxLine + 1 else 0
  }

  /** Along the rotation r that starts at m_next_to_flush: the backend has flushed the first l
      buffers, its snapshot is number k, the frontends write into number c. */
  ghost predicate Shape<B>(s: System<B>, r: seq<B>, l: nat, k: nat, c: nat) {
    && l <= k <= c < |r| == s.ring.n
    && 4 <= s.ring.n <= (if s.ring.maxBuffers < 4 then 4 else s.ring.maxBuffers)
    && Distinct(r) && Stored(s.ring.mem, r)
    && s.ring.cur == r[c]
    && Filled(s.ring, r, l, c, s.pc.HandedOver?, LeftFill(s))
    && s.ring.file + Text(s.ring.mem, r, l, c + 1) == s.appended
    && s.seen <= s.appended
    && s.released <= |s.ring.file|
    && BackendShape(s, r, l, k)
  }

  /** Buffers off the path l..c are empty; those a frontend has left are nearly full. */
  ghost predicate Filled<B>(ring: Ring<B>, r: seq<B>, l: nat, c: nat, firstLeftByBackend: bool, m: nat)
    requires l <= c < |r| && Stored(ring.mem, r)
  {
    && (forall i :: 0 <= i < |r| ==> |ring.mem[r[i]]| <= ring.cap)
    && (forall i :: 0 <= i < |r| && (i < l || i > c) ==> ring.mem[r[i]] == "")
    && (forall i :: l <= i < c && !(i == 0 && firstLeftByBackend) ==> |ring.mem[r[i]]| >= m)
  }

  ghost predicate BackendShape<B>(s: System<B>, r: seq<B>, l: nat, k: nat)
    requires l <= k < |r| && Stored(s.ring.mem, r)
  {
    match s.pc
    case Idle => l == 0 && s.released == |s.ring.file|
    case Snapped(snap) => l == 0 && snap == r[k] && s.released == |s.ring.file| && SeenBy(s, r, l, k + 1)
    case Flushing(snap, next, _) =>
      snap == r[k] && next == r[l] && |s.ring.file| - s.released >= l * LeftFill(s) && SeenBy(s, r, l, k + 1)
    case HandedOver(next, _) => l == 0 == k && next == r[0] && s.ring.cur != next && SeenBy(s, r, 0, 1)
    case Flushed(_) => l == 1 && SeenBy(s, r, 0, 0)
    case PassDone => l == 0 && s.released == |s.ring.file| && SeenBy(s, r, 0, 0)
    case Closing => l == 0 && s.released == |s.ring.file| && SeenBy(s, r, 0, 0)
    case Stopped => false
  }

  /** Once these buffers are flushed, everything the snapshot saw is in the file. */
  ghost predicate SeenBy<B>(s: System<B>, r: seq<B>, i: nat, j: nat)
    requires i <= j <= |r| && Stored(s.ring.mem, r)
  {
    |s.seen| <= |s.ring.file| + |Text(s.ring.mem, r, i, j)|
  }

  ghost predicate Inv<B>(s: System<B>) {
    && WellFormed(s.ring) && !s.dropped
    && exists l: nat, k: nat, c: nat :: Shape(s, Rot(s.ring.bufs, s.ring.ntf), l, k, c)
  }

  // ---------------------------------------------------- one step keeps it

  /** Inv follows from Shape once the list itself is sound. */
  lemma Conclude<B>(t: System<B>, l: nat, k: nat, c: nat)
    requires Distinct(t.ring.bufs) && t.ring.ntf in t.ring.bufs && !t.dropped
    ensures Shape(t, Rot(t.ring.bufs, t.ring.ntf), l, k, c) ==> Inv(t)
  {
    if Shape(t, Rot(t.ring.bufs, t.ring.ntf), l, k, c) {
      var r := Rot(t.ring.bufs, t.ring.ntf);
      RotDistinct(t.ring.bufs, t.ring.ntf);
      assert t.ring.cur in r;
      forall i | 0 <= i < |t.ring.bufs| ensures t.ring.bufs[i] in t.ring.mem {
        assert t.ring.bufs[i] in r;
      }
    }
  }

  lemma InitialInv<B>(s: System<B>)
    requires Initial(s)
    ensures Inv(s)
  {
    var r := Rot(s.ring.bufs, s.ring.ntf);
    IndexUnique(s.ring.bufs, 0);
    assert r == s.ring.bufs;
    assert Text(s.ring.mem, r, 0, 1) == "" + Text(s.ring.mem, r, 1, 1);
    assert Shape(s, r, 0, 0, 0);
  }

  /** No step of the protocol touches a node that has left the list. */
  lemma InvDefined<B>(s: System<B>, e: Event<B>)
    requires Inv(s)
    ensures Defined(s, e)
  {
    RotDistinct(s.ring.bufs, s.ring.ntf);
  }

  lemma WriteText<B>(file: string, m1: map<B, string>, m2: map<B, string>, r: seq<B>, l: nat, c: nat, line: string)
    requires l <= c < |r| && Stored(m1, r) && Stored(m2, r)
    requires forall h :: 0 <= h < |r| && h != c ==> m2[r[h]] == m1[r[h]]
    requires m2[r[c]] == m1[r[c]] + line
    ensures file + Text(m2, r, l, c + 1) == (file + Text(m1, r, l, c + 1)) + line
  {
    TextLast(m1, r, l, c);
    TextLast(m2, r, l, c);
    TextFrame(m1, m2, r, l, c);
    var a := Text(m1, r, l, c);
    assert file + (a + (m1[r[c]] + line)) == (file + (a + m1[r[c]])) + line;
  }

  /** Changing the contents of one buffer of a path leaves the others alone. */
  lemma OthersKept<B>(m1: map<B, string>, m2: map<B, string>, r: seq<B>, l: nat, text: string)
    requires l < |r| && Distinct(r) && Stored(m1, r) && m2 == m1[r[l] := text]
    ensures Stored(m2, r) && m2[r[l]] == text
    ensures forall h :: 0 <= h < |r| && h != l ==> m1[r[h]] == m2[r[h]]
  {
    DistinctMeans(r);
  }

  lemma WriteFilled<B>(g: Ring<B>, h: Ring<B>, r: seq<B>, l: nat, c: nat, firstLeftByBackend: bool, m: nat, line: string)
    requires l <= c < |r| && Distinct(r) && Stored(g.mem, r) && Filled(g, r, l, c, firstLeftByBackend, m)
    requires |g.mem[r[c]]| + |line| <= g.cap && h == g.(mem := g.mem[r[c] := g.mem[r[c]] + line])
    ensures Stored(h.mem, r) && Filled(h, r, l, c, firstLeftByBackend, m)
  {
    OthersKept(g.mem, h.mem, r, c, g.mem[r[c]] + line);
  }

  /** The text of any beginning of the path does not get shorter. */
  lemma WriteGrowsText<B>(m1: map<B, string>, m2: map<B, string>, r: seq<B>, i: nat, j: nat, c: nat, line: string)
    requires i <= j <= c + 1 && c < |r| && Distinct(r) && Stored(m1, r) && m2 == m1[r[c] := m1[r[c]] + line]
    ensures Stored(m2, r) && |Text(m2, r, i, j)| >= |Text(m1, r, i, j)|
  {
    OthersKept(m1, m2, r, c, m1[r[c]] + line);
    if i == c + 1 {
    } else if j == c + 1 {
      TextLast(m1, r, i, c);
      TextLast(m2, r, i, c);
      TextFrame(m1, m2, r, i, c);
    } else {
      TextFrame(m1, m2, r, i, j);
    }
  }

  lemma WriteBackend<B>(s: System<B>, t: System<B>, r: seq<B>, l: nat, k: nat, c: nat, line: string)
    requires l <= k <= c < |r| && Distinct(r) && Stored(s.ring.mem, r) && BackendShape(s, r, l, k)
    requires t == s.(ring := s.ring.(mem := s.ring.mem[r[c] := s.ring.mem[r[c]] + line]), appended := s.appended + line)
    ensures Stored(t.ring.mem, r) && BackendShape(t, r, l, k)
  {
    WriteGrowsText(s.ring.mem, t.ring.mem, r, l, k + 1, c, line);
    WriteGrowsText(s.ring.mem, t.ring.mem, r, 0, 1, c, line);
  }

  /** Writing a line that fits into the current buffer. */
  lemma WriteShape<B>(s: System<B>, t: System<B>, r: seq<B>, l: nat, k: nat, c: nat, line: string)
    requires Shape(s, r, l, k, c)
    requires |s.ring.mem[r[c]]| + |line| <= s.ring.cap
    requires t == s.(ring := s.ring.(mem := s.ring.mem[r[c] := s.ring.mem[r[c]] + line]), appended := s.appended + line)
    ensures Shape(t, r, l, k, c)
  {
    var m1, m2 := s.ring.mem, t.ring.mem;
    OthersKept(m1, m2, r, c, m1[r[c]] + line);
    WriteText(s.ring.file, m1, m2, r, l, c, line);
    WriteFilled(s.ring, t.ring, r, l, c, s.pc.HandedOver?, LeftFill(s), line);
    WriteBackend(s, t, r, l, k, c, line);
  }

  lemma AdvanceFilled<B>(g: Ring<B>, h: Ring<B>, r: seq<B>, l: nat, c: nat, firstLeftByBackend: bool, m: nat)
    requires l <= c && c + 1 < |r| && Stored(g.mem, r) && Filled(g, r, l, c, firstLeftByBackend, m)
    requires |g.mem[r[c]]| >= m && h.mem == g.mem && h.cap == g.cap
    ensures Filled(h, r, l, c + 1, firstLeftByBackend, m)
  {
  }

  /** The frontends move on to an empty buffer, leaving the old one nearly full. */
  lemma AdvanceShape<B>(s: System<B>, t: System<B>, r: seq<B>, l: nat, k: nat, c: nat)
    requires Shape(s, r, l, k, c) && c + 1 < |r|
    requires |s.ring.mem[r[c]]| >= LeftFill(s)
    requires t == s.(ring := s.ring.(cur := r[c + 1]))
    ensures Shape(t, r, l, k, c + 1)
  {
    TextLast(s.ring.mem, r, l, c + 1);
    AdvanceFilled(s.ring, t.ring, r, l, c, s.pc.HandedOver?, LeftFill(s));
  }

  /** A new node at the end of a path changes no text on it. */
  lemma GrowText<B>(mem: map<B, string>, node: B, r: seq<B>, i: nat, j: nat)
    requires i <= j <= |r| && node !in r && Stored(mem, r)
    ensures Stored(mem[node := ""], r + [node])
    ensures Text(mem[node := ""], r + [node], i, j) == Text(mem, r, i, j)
  {
    var m2 := mem[node := ""];
    assert Stored(m2, r);
    TextFrame(mem, m2, r, i, j);
    assert (r + [node])[i..j] == r[i..j];
    TextSlice(m2, r + [node], i, j, r, i, j);
  }

  lemma GrowFilled<B>(g: Ring<B>, h: Ring<B>, r: seq<B>, l: nat, c: nat, firstLeftByBackend: bool, m: nat, node: B)
    requires l <= c < |r| && Stored(g.mem, r) && Filled(g, r, l, c, firstLeftByBackend, m) && node !in r
    requires h.mem == g.mem[node := ""] && h.cap == g.cap
    ensures Stored(h.mem, r + [node]) && Filled(h, r + [node], l, c, firstLeftByBackend, m)
  {
    var r2 := r + [node];
    assert forall i :: 0 <= i < |r| ==> r2[i] == r[i] && h.mem[r2[i]] == g.mem[r[i]];
  }

  lemma GrowDistinct<B>(r: seq<B>, node: B)
    requires Distinct(r) && node !in r
    ensures Distinct(r + [node])
  {
    DistinctMeans(r);
    DistinctMeans(r + [node]);
  }

  /** A new buffer goes in just before m_next_to_flush: at the end of the rotation. */
  lemma GrowShape<B>(s: System<B>, t: System<B>, r: seq<B>, l: nat, k: nat, c: nat, node: B)
    requires Shape(s, r, l, k, c) && c + 1 == |r| && node !in r
    requires s.ring.n < s.ring.maxBuffers
    requires t == s.(ring := s.ring.(bufs := t.ring.bufs, n := s.ring.n + 1, mem := s.ring.mem[node := ""]))
    ensures Shape(t, r + [node], l, k, c)
  {
    var m1 := s.ring.mem;
    GrowText(m1, node, r, l, c + 1);
    GrowText(m1, node, r, l, k + 1);
    GrowText(m1, node, r, 0, 1);
    GrowText(m1, node, r, 0, 0);
    GrowDistinct(r, node);
    GrowFilled(s.ring, t.ring, r, l, c, s.pc.HandedOver?, LeftFill(s), node);
  }

  lemma AppendToEmpty<B>(u: System<B>, t: System<B>, r: seq<B>, l: nat, k: nat, c: nat, line: string)
    requires Shape(u, r, l, k, c) && WellFormed(u.ring) && u.ring.mem[r[c]] == ""
    requires t == u.(ring := Write(u.ring, line), appended := u.appended + Accepted(u.ring.cap, line))
    ensures Shape(t, r, l, k, c) && WellFormed(t.ring)
  {
    if |line| <= u.ring.cap {
      WriteShape(u, t, r, l, k, c, line);
    } else {
      assert u.appended + "" == u.appended;
    }
  }

  lemma MoveOnRing<B>(g: Ring<B>, c: nat, line: string, node: B)
    requires WellFormed(g) && node !in g.bufs && !Fits(g, line)
    requires c + 1 < |g.bufs| && g.cur == Rot(g.bufs, g.ntf)[c]
    ensures var h := g.(cur := Rot(g.bufs, g.ntf)[c + 1]);
            WellFormed(h) && AppendLine(g, line, node) == Write(h, line) && !Drops(g, line)
  {
    RotNext(g.bufs, g.ntf, c);
    RotDistinct(g.bufs, g.ntf);
    assert Rot(g.bufs, g.ntf)[0] != Rot(g.bufs, g.ntf)[c + 1];
  }

  lemma MoveOnInv<B>(s: System<B>, r: seq<B>, l: nat, k: nat, c: nat, line: string, node: B)
    requires WellFormed(s.ring) && !s.dropped && Allowed(s, Append(line, node))
    requires r == Rot(s.ring.bufs, s.ring.ntf) && Shape(s, r, l, k, c)
    requires !Fits(s.ring, line) && c + 1 < |r|
    ensures Inv(Next(s, Append(line, node)))
  {
    MoveOnRing(s.ring, c, line, node);
    var u := s.(ring := s.ring.(cur := r[c + 1]));
    AdvanceShape(s, u, r, l, k, c);
    var t := Next(s, Append(line, node));
    AppendToEmpty(u, t, r, l, k, c + 1, line);
    Conclude(t, l, k, c + 1);
  }

  lemma GrownShape<B>(s: System<B>, u: System<B>, r: seq<B>, l: nat, k: nat, c: nat, line: string, node: B)
    requires Shape(s, r, l, k, c) && c + 1 == |r| && node !in r && s.ring.n < s.ring.maxBuffers
    requires |s.ring.mem[r[c]]| + |line| > s.ring.cap && |line| <= s.maxLine
    requires u == s.(ring := s.ring.(bufs := u.ring.bufs, n := s.ring.n + 1, cur := node, mem := s.ring.mem[node := ""]))
    ensures Shape(u, r + [node], l, k, c + 1)
  {
    var v := u.(ring := u.ring.(cur := s.ring.cur));
    GrowShape(s, v, r, l, k, c, node);
    assert (r + [node])[c + 1] == node && (r + [node])[c] == r[c] != node;
    AdvanceShape(v, u, r + [node], l, k, c);
  }

  lemma GrowRing<B>(g: Ring<B>, line: string, node: B)
    requires WellFormed(g) && node !in g.bufs
    requires g.cur == Rot(g.bufs, g.ntf)[|g.bufs| - 1] && !Fits(g, line) && g.n < g.maxBuffers
    ensures WellFormed(Grown(g, node)) && AppendLine(g, line, node) == Write(Grown(g, node), line)
    ensures Succ(g.bufs, g.cur) == g.ntf
    ensures g.ntf in Grown(g, node).bufs && Rot(Grown(g, node).bufs, g.ntf) == Rot(g.bufs, g.ntf) + [node]
    ensures node !in Rot(g.bufs, g.ntf)
  {
    RotNext(g.bufs, g.ntf, |g.bufs| - 1);
    RotDistinct(g.bufs, g.ntf);
    RotInsert(g.bufs, g.ntf, node);
    InsertWellFormed(g, node);
  }

  lemma GrowInv<B>(s: System<B>, r: seq<B>, l: nat, k: nat, c: nat, line: string, node: B)
    requires WellFormed(s.ring) && !s.dropped && Allowed(s, Append(line, node))
    requires r == Rot(s.ring.bufs, s.ring.ntf) && Shape(s, r, l, k, c)
    requires !Fits(s.ring, line) && c + 1 == |r| && s.ring.n < s.ring.maxBuffers
    ensures Inv(Next(s, Append(line, node)))
  {
    GrowRing(s.ring, line, node);
    var u := s.(ring := Grown(s.ring, node));
    GrownShape(s, u, r, l, k, c, line, node);
    var t := Next(s, Append(line, node));
    AppendToEmpty(u, t, r + [node], l, k, c + 1, line);
    Conclude(t, l, k, c + 1);
  }

  lemma AppendInv<B>(s: System<B>, line: string, node: B)
    requires Inv(s) && Allowed(s, Append(line, node)) && Defined(s, Append(line, node))
    requires !Drops(s.ring, line)
    ensures Inv(Next(s, Append(line, node)))
  {
    var r := Rot(s.ring.bufs, s.ring.ntf);
    var l: nat, k: nat, c: nat :| Shape(s, r, l, k, c);
    if Fits(s.ring, line) {
      var t := Next(s, Append(line, node));
      WriteShape(s, t, r, l, k, c, line);
      Conclude(t, l, k, c);
    } else if c + 1 < |r| {
      MoveOnInv(s, r, l, k, c, line, node);
    } else {
      RotNext(s.ring.bufs, s.ring.ntf, c);
      GrowInv(s, r, l, k, c, line, node);
    }
  }

  /** Flushing the first buffer of a path moves its text from the path to the file. */
  lemma FlushText<B>(ring: Ring<B>, r: seq<B>, l: nat, j: nat)
    requires l < j <= |r| && Distinct(r) && Stored(ring.mem, r)
    ensures var f := Flush(ring, r[l]);
            Stored(f.mem, r) && f.file + Text(f.mem, r, l + 1, j) == ring.file + Text(ring.mem, r, l, j)
  {
    var f := Flush(ring, r[l]);
    assert Stored(f.mem, r);
    OthersKept(ring.mem, f.mem, r, l, "");
    TextFrame(ring.mem, f.mem, r, l + 1, j);
    var rest := Text(ring.mem, r, l + 1, j);
    assert (ring.file + ring.mem[r[l]]) + rest == ring.file + (ring.mem[r[l]] + rest);
  }

  lemma FlushFilled<B>(g: Ring<B>, r: seq<B>, l: nat, c: nat, m: nat)
    requires l < c < |r| && Distinct(r) && Stored(g.mem, r) && Filled(g, r, l, c, false, m)
    ensures var h := Flush(g, r[l]); Stored(h.mem, r) && Filled(h, r, l + 1, c, false, m)
  {
    OthersKept(g.mem, Flush(g, r[l]).mem, r, l, "");
  }

  lemma OneMore(l: nat, m: nat, flushed: int, more: int)
    requires flushed >= l * m && more >= m
    ensures flushed + more >= (l + 1) * m
  {
  }

  lemma FlushBackend<B>(s: System<B>, t: System<B>, r: seq<B>, l: nat, k: nat)
    requires l < k < |r| && Distinct(r) && Stored(s.ring.mem, r) && s.pc.Flushing? && BackendShape(s, r, l, k)
    requires |s.ring.mem[r[l]]| >= LeftFill(s)
    requires t == s.(ring := Flush(s.ring, r[l]), pc := Flushing(s.pc.snap, r[l + 1], s.pc.reduce))
    ensures Stored(t.ring.mem, r) && BackendShape(t, r, l + 1, k)
  {
    FlushText(s.ring, r, l, k + 1);
    OneMore(l, LeftFill(s), |s.ring.file| - s.released, |s.ring.mem[r[l]]|);
  }

  lemma FlushShape<B>(s: System<B>, t: System<B>, r: seq<B>, l: nat, k: nat, c: nat)
    requires Shape(s, r, l, k, c) && s.pc.Flushing? && l < k
    requires t == s.(ring := Flush(s.ring, r[l]), pc := Flushing(s.pc.snap, r[l + 1], s.pc.reduce))
    ensures Shape(t, r, l + 1, k, c)
  {
    FlushText(s.ring, r, l, c + 1);
    FlushFilled(s.ring, r, l, c, LeftFill(s));
    FlushBackend(s, t, r, l, k);
  }

  lemma HandOverText<B>(mem: map<B, string>, r: seq<B>, r2: seq<B>, k: nat, c: nat)
    requires Turned(r, r2, k) && k <= c < |r| && |r| >= 2 && Stored(mem, r)
    requires k == c ==> mem[r2[1]] == ""
    ensures Stored(mem, r2)
    ensures Text(mem, r2, 0, (if k == c then 1 else c - k) + 1) == Text(mem, r, k, c + 1)
    ensures Text(mem, r2, 0, 1) == Text(mem, r, k, k + 1)
  {
    TurnedStored(mem, r, r2, k);
    assert r2[0..c + 1 - k] == r[k..c + 1] && r2[0..1] == r[k..k + 1];
    TextSlice(mem, r2, 0, c + 1 - k, r, k, c + 1);
    TextSlice(mem, r2, 0, 1, r, k, k + 1);
    if k == c {
      TextLast(mem, r2, 0, 1);
    }
  }

  lemma TurnedStored<B>(mem: map<B, string>, r: seq<B>, r2: seq<B>, k: nat)
    requires Turned(r, r2, k) && Stored(mem, r)
    ensures Stored(mem, r2)
  {
    forall i | 0 <= i < |r2| ensures r2[i] in mem {
      TurnedAt(r, r2, k, i);
    }
  }

  lemma TurnedAt<B>(r: seq<B>, r2: seq<B>, k: nat, i: nat)
    requires Turned(r, r2, k) && i < |r|
    ensures |r2| == |r| && r2[i] == r[if i + k < |r| then i + k else i + k - |r|]
  {
  }

  lemma HandOverFilled<B>(ring: Ring<B>, ring2: Ring<B>, r: seq<B>, r2: seq<B>, k: nat, c: nat, m: nat)
    requires Turned(r, r2, k) && k <= c < |r| && |r| >= 2 && Stored(ring.mem, r) && Filled(ring, r, k, c, false, m)
    requires ring2.mem == ring.mem && ring2.cap == ring.cap
    ensures Stored(ring.mem, r2) && Filled(ring2, r2, 0, if k == c then 1 else c - k, true, m)
  {
    TurnedStored(ring.mem, r, r2, k);
    forall i | 0 <= i < |r2|
      ensures |ring.mem[r2[i]]| <= ring.cap
      ensures i > c - k ==> ring.mem[r2[i]] == ""
      ensures i < c - k ==> |ring.mem[r2[i]]| >= m
    {
      TurnedAt(r, r2, k, i);
    }
  }

  lemma HandOverShape<B>(s: System<B>, t: System<B>, r: seq<B>, r2: seq<B>, k: nat, c: nat)
    requires Shape(s, r, k, k, c) && s.pc.Flushing? && Turned(r, r2, k) && Distinct(r2)
    requires t == s.(ring := s.ring.(cur := r2[if k == c then 1 else c - k], ntf := r[k]),
                     pc := HandedOver(r[k], s.pc.reduce), released := |s.ring.file|)
    ensures Shape(t, r2, 0, 0, if k == c then 1 else c - k)
  {
    HandOverFilled(s.ring, t.ring, r, r2, k, c, LeftFill(s));
    HandOverText(s.ring.mem, r, r2, k, c);
    assert BackendShape(t, r2, 0, 0);
  }

  lemma HandedFlushShape<B>(s: System<B>, t: System<B>, r: seq<B>, c: nat)
    requires Shape(s, r, 0, 0, c) && s.pc.HandedOver?
    requires t == s.(ring := Flush(s.ring, r[0]), pc := Flushed(s.pc.reduce))
    ensures Shape(t, r, 1, 1, c)
  {
    FlushText(s.ring, r, 0, 1);
    FlushText(s.ring, r, 0, c + 1);
    assert BackendShape(t, r, 1, 1);
  }

  /** h is g after the release; r and r2 are their rotations. */
  ghost predicate StepsOn<B>(g: Ring<B>, h: Ring<B>, r: seq<B>, r2: seq<B>) {
    && |r| >= 2 && Distinct(r2)
    && ((r2 == r[1..] + r[..1] && h == g.(ntf := r[1]))
        || (r2 == r[1..] && g.n > 4 && h == g.(bufs := h.bufs, n := g.n - 1, ntf := r[1], mem := g.mem - {r[0]})))
  }

  /** What is found along r2 is what was found one further along r. */
  lemma StepsOnAt<B>(g: Ring<B>, h: Ring<B>, r: seq<B>, r2: seq<B>, i: nat)
    requires StepsOn(g, h, r, r2) && Distinct(r) && Stored(g.mem, r) && i < |r2|
    ensures r2[i] == r[if i + 1 < |r| then i + 1 else 0]
    ensures r2[i] in h.mem && h.mem[r2[i]] == g.mem[r2[i]]
  {
    DistinctMeans(r);
  }

  lemma ReleaseStored<B>(g: Ring<B>, h: Ring<B>, r: seq<B>, r2: seq<B>)
    requires StepsOn(g, h, r, r2) && Distinct(r) && Stored(g.mem, r)
    ensures Stored(h.mem, r2) && Stored(g.mem, r2) && forall i :: 0 <= i < |r2| ==> h.mem[r2[i]] == g.mem[r2[i]]
  {
    forall i | 0 <= i < |r2|
      ensures r2[i] in h.mem && r2[i] in g.mem && h.mem[r2[i]] == g.mem[r2[i]]
    {
      StepsOnAt(g, h, r, r2, i);
    }
  }

  lemma ReleaseFilled<B>(g: Ring<B>, h: Ring<B>, r: seq<B>, r2: seq<B>, c: nat, m: nat)
    requires StepsOn(g, h, r, r2) && Distinct(r) && 1 <= c < |r| && Stored(g.mem, r) && Filled(g, r, 1, c, false, m)
    ensures Stored(h.mem, r2) && Filled(h, r2, 0, c - 1, false, m)
  {
    ReleaseStored(g, h, r, r2);
    forall i | 0 <= i < |r2|
      ensures |h.mem[r2[i]]| <= h.cap
      ensures i > c - 1 ==> h.mem[r2[i]] == ""
      ensures i < c - 1 ==> |h.mem[r2[i]]| >= m
    {
      StepsOnAt(g, h, r, r2, i);
    }
  }

  lemma ReleaseText<B>(g: Ring<B>, h: Ring<B>, r: seq<B>, r2: seq<B>, c: nat)
    requires StepsOn(g, h, r, r2) && Distinct(r) && 1 <= c < |r| && Stored(g.mem, r)
    ensures Stored(h.mem, r2) && Text(h.mem, r2, 0, c) == Text(g.mem, r, 1, c + 1)
  {
    ReleaseStored(g, h, r, r2);
    TextFrame(h.mem, g.mem, r2, 0, c);
    assert r2[0..c] == r[1..c + 1];
    TextSlice(g.mem, r2, 0, c, r, 1, c + 1);
  }

  lemma ReleaseShape<B>(s: System<B>, t: System<B>, r: seq<B>, r2: seq<B>, l: nat, k: nat, c: nat)
    requires Shape(s, r, l, k, c) && s.pc.Flushed? && StepsOn(s.ring, t.ring, r, r2)
    requires t == s.(ring := t.ring, pc := PassDone, released := |s.ring.file|)
    ensures c > 0 && Shape(t, r2, 0, 0, c - 1)
  {
    ReleaseFilled(s.ring, t.ring, r, r2, c, LeftFill(s));
    ReleaseText(s.ring, t.ring, r, r2, c);
    assert BackendShape(t, r2, 0, 0);
  }

  lemma ReleaseRing<B>(g: Ring<B>, reduce: bool)
    requires WellFormed(g) && |g.bufs| >= 2
    ensures var h := Release(g, reduce);
            h.ntf in h.bufs && Distinct(h.bufs) && StepsOn(g, h, Rot(g.bufs, g.ntf), Rot(h.bufs, h.ntf))
  {
    RotDistinct(g.bufs, g.ntf);
    RotNext(g.bufs, g.ntf, 0);
    if reduce && g.n > 4 {
      RotErase(g.bufs, g.ntf);
      RotDistinct(Erase(g.bufs, g.ntf), Succ(g.bufs, g.ntf));
    } else {
      RotTurned(g.bufs, g.ntf, 1);
    }
  }

  lemma ReleaseInv<B>(s: System<B>, r: seq<B>, l: nat, k: nat, c: nat)
    requires !s.dropped && Defined(s, Backend) && s.pc.Flushed?
    requires r == Rot(s.ring.bufs, s.ring.ntf) && Shape(s, r, l, k, c)
    ensures Inv(Next(s, Backend))
  {
    var t := Next(s, Backend);
    ReleaseRing(s.ring, s.pc.reduce);
    ReleaseShape(s, t, r, Rot(t.ring.bufs, t.ring.ntf), l, k, c);
    Conclude(t, 0, 0, c - 1);
  }

  lemma FlushOneInv<B>(s: System<B>, r: seq<B>, l: nat, k: nat, c: nat)
    requires !s.dropped && Defined(s, Backend) && s.pc.Flushing?
    requires r == Rot(s.ring.bufs, s.ring.ntf) && Shape(s, r, l, k, c) && l < k
    ensures Inv(Next(s, Backend))
  {
    var t := Next(s, Backend);
    assert s.pc.next != s.pc.snap;
    RotNext(s.ring.bufs, s.ring.ntf, l);
    FlushShape(s, t, r, l, k, c);
    Conclude(t, l + 1, k, c);
  }

  lemma HandOverRing<B>(g: Ring<B>, k: nat, c: nat)
    requires WellFormed(g) && k <= c < |g.bufs| && |g.bufs| >= 2 && g.cur == Rot(g.bufs, g.ntf)[c]
    ensures var r := Rot(g.bufs, g.ntf);
            && r[k] in g.bufs
            && Turned(r, Rot(g.bufs, r[k]), k) && Distinct(Rot(g.bufs, r[k]))
            && HandOver(g, r[k], r[k]) == g.(cur := Rot(g.bufs, r[k])[if k == c then 1 else c - k], ntf := r[k])
  {
    RotDistinct(g.bufs, g.ntf);
    RotNext(g.bufs, g.ntf, c);
    RotTurned(g.bufs, g.ntf, k);
  }

  lemma HandOverInv<B>(s: System<B>, r: seq<B>, k: nat, c: nat)
    requires !s.dropped && Defined(s, Backend) && s.pc.Flushing?
    requires r == Rot(s.ring.bufs, s.ring.ntf) && Shape(s, r, k, k, c)
    ensures Inv(Next(s, Backend))
  {
    HandOverRing(s.ring, k, c);
    HandOverShape(s, Next(s, Backend), r, Rot(s.ring.bufs, r[k]), k, c);
    Conclude(Next(s, Backend), 0, 0, if k == c then 1 else c - k);
  }

  lemma IdleShape<B>(s: System<B>, t: System<B>, r: seq<B>, c: nat)
    requires (exists k: nat :: Shape(s, r, 0, k, c)) && s.pc.Idle?
    requires t == s.(pc := Snapped(s.ring.cur), seen := s.appended)
    ensures Shape(t, r, 0, c, c)
  {
    assert BackendShape(t, r, 0, c);
  }

  lemma BackendInv<B>(s: System<B>)
    requires Inv(s) && Defined(s, Backend) && !s.pc.Closing?
    ensures Inv(Next(s, Backend))
  {
    var r := Rot(s.ring.bufs, s.ring.ntf);
    var l: nat, k: nat, c: nat :| Shape(s, r, l, k, c);
    match s.pc {
      case Flushed(_) => ReleaseInv(s, r, l, k, c);
      case Flushing(_, _, _) => FlushingInv(s, r, l, k, c);
      case _ => QuietInv(s, r, l, k, c);
    }
  }

  lemma FlushingInv<B>(s: System<B>, r: seq<B>, l: nat, k: nat, c: nat)
    requires !s.dropped && Defined(s, Backend) && s.pc.Flushing?
    requires r == Rot(s.ring.bufs, s.ring.ntf) && Shape(s, r, l, k, c)
    ensures Inv(Next(s, Backend))
  {
    if l < k {
      FlushOneInv(s, r, l, k, c);
    } else {
      HandOverInv(s, r, k, c);
    }
  }

  /** The steps that leave both iterators where they are. */
  lemma QuietInv<B>(s: System<B>, r: seq<B>, l: nat, k: nat, c: nat)
    requires !s.dropped && Defined(s, Backend)
    requires r == Rot(s.ring.bufs, s.ring.ntf) && Shape(s, r, l, k, c)
    requires !s.pc.Flushing? && !s.pc.Flushed? && !s.pc.Closing?
    ensures Inv(Next(s, Backend))
  {
    var t := Next(s, Backend);
    match s.pc {
      case Idle =>
        IdleShape(s, t, r, c);
        Conclude(t, 0, c, c);
      case Snapped(_) =>
        assert BackendShape(t, r, 0, k);
        Conclude(t, 0, k, c);
      case HandedOver(_, _) =>
        HandedFlushShape(s, t, r, c);
        Conclude(t, 1, 1, c);
      case PassDone =>
        assert BackendShape(t, r, 0, k);
        Conclude(t, 0, k, c);
    }
  }
}
