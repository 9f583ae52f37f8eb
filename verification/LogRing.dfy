/** The cyclic list of log buffers of the asynchronous logger, on values.

    A list iterator is modelled by the node it points to, so it survives
    insertions and erasures elsewhere in the list exactly as a std::list
    iterator does.  The node type B is arbitrary: the protocol proof holds for
    every B, and the class in AsyncLogging.dfy takes B to be a heap reference. */
module LogRing {

  /** The shared fields of the logger, and the text already handed to fwrite. */
  datatype Ring<B> = Ring(
    cap: nat,                 // LargeBufferSize
    maxBuffers: int,          // m_max_buffers
    bufs: seq<B>,             // m_buffers, in list order
    n: int,                   // m_buffers_n
    cur: B,                   // m_current_itr
    ntf: B,                   // m_next_to_flush
    mem: map<B, string>,      // the contents of every buffer
    file: string)             // everything written to the file so far

  /** Every element is found exactly where it stands. */
  ghost predicate Distinct<B>(s: seq<B>) {
    forall i :: 0 <= i < |s| ==> IndexOf(s, s[i]) == i
  }

  lemma DistinctMeans<B>(s: seq<B>)
    ensures Distinct(s) <==> forall i, j :: 0 <= i < j < |s| ==> s[i] != s[j]
  {
    if Distinct(s) {
      forall i, j | 0 <= i < j < |s| ensures s[i] != s[j] {
        assert IndexOf(s, s[i]) == i && IndexOf(s, s[j]) == j;
      }
    } else {
      var i :| 0 <= i < |s| && IndexOf(s, s[i]) != i;
      assert s[IndexOf(s, s[i])] == s[i];
    }
  }

  /** What iterator arithmetic needs: both iterators are in the list. */
  ghost predicate WellFormed<B>(r: Ring<B>) {
    && Distinct(r.bufs)
    && r.cur in r.bufs
    && r.ntf in r.bufs
    && Stored(r.mem, r.bufs)
  }

  ghost function IndexOf<B>(s: seq<B>, b: B): (i: nat)
    requires b in s
    ensures i < |s| && s[i] == b
  {
    var i: nat :| i < |s| && s[i] == b;
    i
  }

  /** `++it`, wrapping from end() to begin(). */
  ghost function Succ<B>(s: seq<B>, b: B): (c: B)
    requires b in s
    ensures c in s
  {
    var i := IndexOf(s, b);
    if i + 1 == |s| then s[0] else s[i + 1]
  }

  /** The number of `++it` steps that lead from a to b. */
  ghost function Distance<B>(s: seq<B>, a: B, b: B): (d: nat)
    requires a in s && b in s
    ensures d < |s|
  {
    var i, j := IndexOf(s, a), IndexOf(s, b);
    if i <= j then j - i else j - i + |s|
  }

  /** The list read once round, starting at b. */
  ghost function Rot<B>(s: seq<B>, b: B): (r: seq<B>)
    requires b in s
    ensures |r| == |s| && r[0] == b
  {
    var i := IndexOf(s, b);
    s[i..] + s[..i]
  }

  ghost function InsertBefore<B>(s: seq<B>, b: B, x: B): seq<B>
    requires b in s
  {
    var i := IndexOf(s, b);
    s[..i] + [x] + s[i..]
  }

  ghost function Erase<B>(s: seq<B>, b: B): seq<B>
    requires b in s
  {
    var i := IndexOf(s, b);
    s[..i] + s[i + 1..]
  }

  ghost predicate Stored<B>(mem: map<B, string>, r: seq<B>) {
    forall i :: 0 <= i < |r| ==> r[i] in mem
  }

  /** The text in the buffers r[i..j], in order. */
  ghost function Text<B>(mem: map<B, string>, r: seq<B>, i: nat, j: nat): string
    requires i <= j <= |r| && Stored(mem, r)
    decreases j - i
  {
    if i == j then "" else mem[r[i]] + Text(mem, r, i + 1, j)
  }

  // ---------------------------------------------------------------- sections

  ghost predicate Fits<B>(r: Ring<B>, line: string)
    requires WellFormed(r)
  {
    |r.mem[r.cur]| + |line| <= r.cap
  }

  /** FixedBuffer::append on the current buffer: a line that does not fit is ignored. */
  ghost function Write<B>(r: Ring<B>, line: string): Ring<B>
    requires WellFormed(r)
  {
    if Fits(r, line) then r.(mem := r.mem[r.cur := r.mem[r.cur] + line]) else r
  }

  /** Whether `append` takes its drop branch. */
  ghost predicate Drops<B>(r: Ring<B>, line: string)
    requires WellFormed(r)
  {
    !Fits(r, line) && Succ(r.bufs, r.cur) == r.ntf && r.n >= r.maxBuffers
  }

  /** Whether `append` allocates a buffer. */
  ghost predicate Grows<B>(r: Ring<B>, line: string)
    requires WellFormed(r)
  {
    !Fits(r, line) && Succ(r.bufs, r.cur) == r.ntf && r.n < r.maxBuffers
  }

  /** A frontend call; `node` is the node a new buffer would get. */
  ghost function AppendLine<B>(r: Ring<B>, line: string, node: B): Ring<B>
    requires WellFormed(r) && (Grows(r, line) ==> node !in r.bufs)
  {
    if Fits(r, line) then Write(r, line)
    else
      var nx := Succ(r.bufs, r.cur);
      if nx == r.ntf then
        if r.n < r.maxBuffers then
          InsertWellFormed(r, node);
          Write(Grown(r, node), line)
        else r.(cur := nx)
      else Write(r.(cur := nx), line)
  }

  ghost function Grown<B>(r: Ring<B>, node: B): Ring<B>
    requires WellFormed(r) && node !in r.bufs
  {
    r.(bufs := InsertBefore(r.bufs, r.ntf, node), n := r.n + 1, cur := node, mem := r.mem[node := ""])
  }

  lemma InsertWellFormed<B>(r: Ring<B>, node: B)
    requires WellFormed(r) && node !in r.bufs
    ensures WellFormed(Grown(r, node))
  {
    var i := IndexOf(r.bufs, r.ntf);
    var s := InsertBefore(r.bufs, r.ntf, node);
    assert s[i] == node && s[i + 1] == r.ntf;
    var k := IndexOf(r.bufs, r.cur);
    assert s[if k < i then k else k + 1] == r.cur;
  }

  /** fwrite and reset of one buffer. */
  ghost function Flush<B>(r: Ring<B>, b: B): Ring<B>
    requires b in r.mem
  {
    r.(file := r.file + r.mem[b], mem := r.mem[b := ""])
  }

  /** The hand-over section: the backend's private iterator becomes m_next_to_flush, and the
      frontends are moved on if they are still on the snapshot. */
  ghost function HandOver<B>(r: Ring<B>, snap: B, next: B): Ring<B>
    requires WellFormed(r)
  {
    r.(cur := if snap == r.cur then Succ(r.bufs, r.cur) else r.cur, ntf := next)
  }

  ghost function Erased<B>(r: Ring<B>): Ring<B>
    requires WellFormed(r)
  {
    r.(bufs := Erase(r.bufs, r.ntf), n := r.n - 1, ntf := Succ(r.bufs, r.ntf), mem := r.mem - {r.ntf})
  }

  /** The release section: the flushed buffer is erased or kept, and the iterator moves on. */
  ghost function Release<B>(r: Ring<B>, reduce: bool): Ring<B>
    requires WellFormed(r)
  {
    if reduce && r.n > 4 then Erased(r) else r.(ntf := Succ(r.bufs, r.ntf))
  }

  /** The section after the loop: advance the current iterator, write up to it. */
  ghost function Shutdown<B>(r: Ring<B>): Ring<B>
    requires WellFormed(r)
  {
    var stop := Succ(r.bufs, r.cur);
    RotStored(r.mem, r.bufs, r.ntf);
    r.(cur := stop, ntf := stop,
       file := r.file + Text(r.mem, Rot(r.bufs, r.ntf), 0, Distance(r.bufs, r.ntf, stop)))
  }

  // ------------------------------------------------------- the list as a ring

  lemma IndexUnique<B>(s: seq<B>, k: nat)
    requires Distinct(s) && k < |s|
    ensures IndexOf(s, s[k]) == k
  {
    var i := IndexOf(s, s[k]);
    assert s[i] == s[k];
  }

  lemma RotDistinct<B>(s: seq<B>, b: B)
    requires Distinct(s) && b in s
    ensures Distinct(Rot(s, b))
    ensures forall x :: x in s <==> x in Rot(s, b)
  {
    var i := IndexOf(s, b);
    assert s == s[..i] + s[i..];
  }

  lemma RotStored<B>(mem: map<B, string>, s: seq<B>, b: B)
    requires Stored(mem, s) && b in s
    ensures Stored(mem, Rot(s, b))
  {
  }

  /** Going one step round the list is going one step along the rotation. */
  lemma RotNext<B>(s: seq<B>, b: B, j: nat)
    requires Distinct(s) && b in s && j < |s|
    ensures Rot(s, b)[j] in s
    ensures Succ(s, Rot(s, b)[j]) == Rot(s, b)[if j + 1 == |s| then 0 else j + 1]
  {
    var i := IndexOf(s, b);
    var k := if i + j < |s| then i + j else i + j - |s|;
    assert Rot(s, b)[j] == s[k];
    IndexUnique(s, k);
  }

  lemma RotateTwice<B>(s: seq<B>, i: nat, j: nat)
    requires i <= |s| && j <= |s|
    ensures var r := s[i..] + s[..i];
            var k := if i + j <= |s| then i + j else i + j - |s|;
            r[j..] + r[..j] == s[k..] + s[..k]
  {
    var r := s[i..] + s[..i];
    if i + j <= |s| {
      assert r[j..] == s[i + j..] + s[..i];
      assert r[..j] == s[i..i + j];
    } else {
      var k := i + j - |s|;
      assert r[j..] == s[k..i];
      assert r[..j] == s[i..] + s[..k];
    }
  }

  lemma RotShift<B>(s: seq<B>, b: B, j: nat)
    requires Distinct(s) && b in s && j < |s|
    ensures Rot(s, b)[j] in s
    ensures var r := Rot(s, b); Rot(s, r[j]) == r[j..] + r[..j]
  {
    var i := IndexOf(s, b);
    RotateTwice(s, i, j);
    var k := if i + j < |s| then i + j else i + j - |s|;
    assert Rot(s, b)[j] == s[k];
    IndexUnique(s, k);
    if i + j == |s| {
      assert s[|s|..] + s[..|s|] == s[0..] + s[..0];
    }
  }

  /** r2 is r read from position k on. */
  ghost predicate Turned<B>(r: seq<B>, r2: seq<B>, k: nat) {
    k < |r| && r2 == r[k..] + r[..k]
  }

  lemma RotTurned<B>(s: seq<B>, b: B, j: nat)
    requires Distinct(s) && b in s && j < |s|
    ensures Rot(s, b)[j] in s
    ensures Turned(Rot(s, b), Rot(s, Rot(s, b)[j]), j) && Distinct(Rot(s, Rot(s, b)[j]))
  {
    RotShift(s, b, j);
    RotDistinct(s, Rot(s, b)[j]);
  }

  lemma RotDistance<B>(s: seq<B>, b: B, j: nat)
    requires Distinct(s) && b in s && j < |s|
    ensures Rot(s, b)[j] in s
    ensures Distance(s, b, Rot(s, b)[j]) == j
  {
    var i := IndexOf(s, b);
    var k := if i + j < |s| then i + j else i + j - |s|;
    assert Rot(s, b)[j] == s[k];
    IndexUnique(s, k);
  }

  /** Inserting just before b puts the new node at the far end of the round trip. */
  lemma RotInsert<B>(s: seq<B>, b: B, x: B)
    requires Distinct(s) && b in s && x !in s
    ensures var t := InsertBefore(s, b, x); Distinct(t) && b in t && Rot(t, b) == Rot(s, b) + [x]
  {
    var i := IndexOf(s, b);
    var t := InsertBefore(s, b, x);
    assert t[i + 1] == b;
    IndexUnique(t, i + 1);
  }

  lemma EraseAt<B>(s: seq<B>, b: B, j: nat)
    requires b in s && j < |s| - 1
    ensures Erase(s, b)[j] == s[if j < IndexOf(s, b) then j else j + 1]
  {
  }

  lemma EraseDistinct<B>(s: seq<B>, b: B)
    requires Distinct(s) && b in s
    ensures Distinct(Erase(s, b))
  {
    var t := Erase(s, b);
    DistinctMeans(s);
    forall i, j | 0 <= i < j < |t| ensures t[i] != t[j] {
      EraseAt(s, b, i);
      EraseAt(s, b, j);
    }
    DistinctMeans(t);
  }

  lemma RotErase<B>(s: seq<B>, b: B)
    requires Distinct(s) && b in s && |s| >= 2
    ensures var t := Erase(s, b); Distinct(t) && Succ(s, b) in t && Rot(t, Succ(s, b)) == Rot(s, b)[1..]
  {
    var i := IndexOf(s, b);
    var t := Erase(s, b);
    var k := if i + 1 == |s| then 0 else i;
    EraseAt(s, b, k);
    EraseDistinct(s, b);
    IndexUnique(t, k);
    assert t[k..] + t[..k] == s[i + 1..] + s[..i];
    assert Rot(s, b)[1..] == s[i + 1..] + s[..i];
  }

  // ------------------------------------------------------------ text of a path

  lemma {:induction false} TextSplit<B>(mem: map<B, string>, r: seq<B>, i: nat, k: nat, j: nat)
    requires i <= k <= j <= |r| && Stored(mem, r)
    ensures Text(mem, r, i, j) == Text(mem, r, i, k) + Text(mem, r, k, j)
    decreases k - i
  {
    if i < k {
      TextSplit(mem, r, i + 1, k, j);
      FileGrows(mem[r[i]], Text(mem, r, i + 1, k), Text(mem, r, k, j));
    } else {
      assert "" + Text(mem, r, k, j) == Text(mem, r, k, j);
    }
  }

  lemma TextLast<B>(mem: map<B, string>, r: seq<B>, i: nat, j: nat)
    requires i <= j < |r| && Stored(mem, r)
    ensures Text(mem, r, i, j + 1) == Text(mem, r, i, j) + mem[r[j]]
  {
    TextSplit(mem, r, i, j, j + 1);
    assert Text(mem, r, j + 1, j + 1) == "";
  }

  /** The text depends only on the contents met along the path. */
  lemma {:induction false} TextFrame<B>(m1: map<B, string>, m2: map<B, string>, r: seq<B>, i: nat, j: nat)
    requires i <= j <= |r| && Stored(m1, r) && Stored(m2, r)
    requires forall h :: i <= h < j ==> m1[r[h]] == m2[r[h]]
    ensures Text(m1, r, i, j) == Text(m2, r, i, j)
    decreases j - i
  {
    if i < j {
      TextFrame(m1, m2, r, i + 1, j);
      assert m1[r[i]] == m2[r[i]];
    }
  }

  /** Where on a longer path the buffers stand does not matter. */
  lemma {:induction false} TextSlice<B>(mem: map<B, string>, r1: seq<B>, i1: nat, j1: nat, r2: seq<B>, i2: nat, j2: nat)
    requires i1 <= j1 <= |r1| && i2 <= j2 <= |r2| && Stored(mem, r1) && Stored(mem, r2)
    requires r1[i1..j1] == r2[i2..j2]
    ensures Text(mem, r1, i1, j1) == Text(mem, r2, i2, j2)
    decreases j1 - i1
  {
    if i1 < j1 {
      assert |r1[i1..j1]| == |r2[i2..j2]|;
      assert r1[i1] == r1[i1..j1][0] == r2[i2..j2][0] == r2[i2];
      assert r1[i1 + 1..j1] == r1[i1..j1][1..] == r2[i2..j2][1..] == r2[i2 + 1..j2];
      TextSlice(mem, r1, i1 + 1, j1, r2, i2 + 1, j2);
    } else {
      assert |r1[i1..j1]| == 0;
      assert |r2[i2..j2]| == 0;
    }
  }

  lemma {:induction false} TextAtLeast<B>(mem: map<B, string>, r: seq<B>, i: nat, j: nat, m: nat)
    requires i <= j <= |r| && Stored(mem, r)
    requires forall h :: i <= h < j ==> |mem[r[h]]| >= m
    ensures |Text(mem, r, i, j)| >= (j - i) * m
    decreases j - i
  {
    if i < j {
      TextAtLeast(mem, r, i + 1, j, m);
      assert (j - i) * m == m + (j - (i + 1)) * m;
    }
  }

  /** The flush loop: the first l buffers of a path are written and emptied, one by one. */
  ghost function FlushFirst<B>(r: Ring<B>, path: seq<B>, l: nat): (f: Ring<B>)
    requires l <= |path| && Stored(r.mem, path)
    ensures Stored(f.mem, path) && f == r.(mem := f.mem, file := f.file)
  {
    if l == 0 then r else Flush(FlushFirst(r, path, l - 1), path[l - 1])
  }

  /** One turn of the final loop: written, not emptied, and the shared iterator moves on. */
  ghost function WriteFirst<B>(r: Ring<B>, path: seq<B>, l: nat): Ring<B>
    requires l < |path| && Stored(r.mem, path)
  {
    r.(ntf := path[l], file := r.file + Text(r.mem, path, 0, l))
  }

  lemma WriteFirstSucc<B>(r: Ring<B>, path: seq<B>, l: nat)
    requires l + 1 < |path| && Stored(r.mem, path)
    ensures var w := WriteFirst(r, path, l);
            WriteFirst(r, path, l + 1) == w.(ntf := path[l + 1], file := w.file + r.mem[path[l]])
  {
    TextLast(r.mem, path, 0, l);
    var t := Text(r.mem, path, 0, l);
    assert r.file + (t + r.mem[path[l]]) == (r.file + t) + r.mem[path[l]];
  }

  /** Together they move the text of the path to the file and touch nothing else. */
  lemma {:induction false} FlushFirstMoves<B>(r: Ring<B>, path: seq<B>, l: nat)
    requires l <= |path| && Stored(r.mem, path) && Distinct(path)
    ensures var f := FlushFirst(r, path, l);
            && f.file == r.file + Text(r.mem, path, 0, l)
            && (forall i :: 0 <= i < |path| ==> f.mem[path[i]] == if i < l then "" else r.mem[path[i]])
  {
    if l == 0 {
      assert r.file + "" == r.file;
    } else {
      FlushFirstMoves(r, path, l - 1);
      FileGrows(r.file, Text(r.mem, path, 0, l - 1), r.mem[path[l - 1]]);
      TextLast(r.mem, path, 0, l - 1);
      assert forall i :: 0 <= i < |path| && i != l - 1 ==> path[i] != path[l - 1];
    }
  }

  /** A pass of the backend with nobody interfering, up to the release: it flushes up to the current
      buffer, hands that one over and flushes it too. */
  ghost function PassFlushed<B>(r: Ring<B>): (g: Ring<B>)
    requires WellFormed(r)
    ensures WellFormed(g) && g.bufs == r.bufs && g.n == r.n && g.ntf == r.cur
  {
    RotStored(r.mem, r.bufs, r.ntf);
    var path, d := Rot(r.bufs, r.ntf), Distance(r.bufs, r.ntf, r.cur);
    FlushFirstKeeps(r, path, d);
    Flush(HandOver(FlushFirst(r, path, d), r.cur, r.cur), r.cur)
  }

  /** The whole pass: a buffer is given back if more than two are free. */
  ghost function Pass<B>(r: Ring<B>): Ring<B>
    requires WellFormed(r)
  {
    Release(PassFlushed(r), r.n - Distance(r.bufs, r.ntf, r.cur) > 2)
  }

  lemma {:induction false} FlushFirstKeeps<B>(r: Ring<B>, path: seq<B>, l: nat)
    requires l <= |path| && Stored(r.mem, path)
    ensures FlushFirst(r, path, l).mem.Keys == r.mem.Keys
  {
    if l > 0 {
      FlushFirstKeeps(r, path, l - 1);
    }
  }

  lemma PassPath<B>(r: Ring<B>)
    requires WellFormed(r)
    ensures var path, d := Rot(r.bufs, r.ntf), Distance(r.bufs, r.ntf, r.cur);
            && Stored(r.mem, path) && Distinct(path) && path[d] == r.cur
            && FlushFirst(r, path, d).mem.Keys == r.mem.Keys
  {
    RotStored(r.mem, r.bufs, r.ntf);
    RotDistinct(r.bufs, r.ntf);
    RotEnds(r.bufs, r.ntf, r.cur);
    FlushFirstKeeps(r, Rot(r.bufs, r.ntf), Distance(r.bufs, r.ntf, r.cur));
  }

  lemma PassFlushesAll<B>(r: Ring<B>)
    requires WellFormed(r)
    ensures var g, path, d := PassFlushed(r), Rot(r.bufs, r.ntf), Distance(r.bufs, r.ntf, r.cur);
            && Stored(r.mem, path) && g.file == r.file + Text(r.mem, path, 0, d + 1) && g.cur == Succ(r.bufs, r.cur)
  {
    PassPath(r);
    PathFlushed(r, Rot(r.bufs, r.ntf), Distance(r.bufs, r.ntf, r.cur));
  }

  lemma PassEmpties<B>(r: Ring<B>, i: nat)
    requires WellFormed(r) && i <= Distance(r.bufs, r.ntf, r.cur)
    ensures var b := Rot(r.bufs, r.ntf)[i]; b in PassFlushed(r).mem && PassFlushed(r).mem[b] == ""
  {
    var path, d := Rot(r.bufs, r.ntf), Distance(r.bufs, r.ntf, r.cur);
    PassPath(r);
    PathFlushed(r, path, d);
    if i < d {
      assert FlushFirst(r, path, d).mem[path[i]] == "";
    }
  }

  lemma PathFlushed<B>(r: Ring<B>, path: seq<B>, d: nat)
    requires d < |path| && Stored(r.mem, path) && Distinct(path)
    ensures var f := FlushFirst(r, path, d);
            && f.file + f.mem[path[d]] == r.file + Text(r.mem, path, 0, d + 1)
            && forall i :: 0 <= i < d ==> f.mem[path[i]] == ""
  {
    FlushFirstMoves(r, path, d);
    TextLast(r.mem, path, 0, d);
    FileGrows(r.file, Text(r.mem, path, 0, d), r.mem[path[d]]);
  }

  /** Such a pass writes all that is in memory, in order, and moves the frontends to the next buffer. */
  lemma PassWritesAll<B>(r: Ring<B>)
    requires WellFormed(r)
    ensures var path, d := Rot(r.bufs, r.ntf), Distance(r.bufs, r.ntf, r.cur);
            && Stored(r.mem, path) && Pass(r).file == r.file + Text(r.mem, path, 0, d + 1)
            && Pass(r).cur == Succ(r.bufs, r.cur)
            && (forall i :: 0 <= i <= d && path[i] in Pass(r).mem ==> Pass(r).mem[path[i]] == "")
  {
    PassFlushesAll(r);
    ReleaseKeepsText(PassFlushed(r), r.n - Distance(r.bufs, r.ntf, r.cur) > 2);
    forall i | 0 <= i <= Distance(r.bufs, r.ntf, r.cur) && Rot(r.bufs, r.ntf)[i] in Pass(r).mem
      ensures Pass(r).mem[Rot(r.bufs, r.ntf)[i]] == ""
    {
      PassEmpties(r, i);
    }
  }

  lemma ReleaseKeepsText<B>(g: Ring<B>, reduce: bool)
    requires WellFormed(g)
    ensures var r := Release(g, reduce);
            r.file == g.file && r.cur == g.cur && forall b :: b in r.mem ==> b in g.mem && r.mem[b] == g.mem[b]
  {
  }

  /** A frontend call, in numbers: j is the current buffer's position and k the one behind it.  A buffer is
      added, before m_next_to_flush, exactly if the line does not fit, that buffer comes next and the
      limit is not reached; at the limit the line is dropped. */
  lemma AppendExact<B>(r: Ring<B>, line: string, node: B, j: nat)
    requires WellFormed(r) && node !in r.bufs && j < |r.bufs| && r.bufs[j] == r.cur
    ensures var t, k := AppendLine(r, line, node), if j + 1 == |r.bufs| then 0 else j + 1;
            var next, first := r.bufs[k], if |line| <= r.cap then line else "";
            if |r.mem[r.cur]| + |line| <= r.cap then t == r.(mem := r.mem[r.cur := r.mem[r.cur] + line])
            else if next != r.ntf then
              var text := r.mem[next] + if |r.mem[next]| + |line| <= r.cap then line else "";
              t.mem[next] == text && t == r.(cur := next, mem := t.mem) && t.mem - {next} == r.mem - {next}
            else if r.n < r.maxBuffers then
              t == r.(bufs := r.bufs[..k] + [node] + r.bufs[k..], n := r.n + 1, cur := node, mem := r.mem[node := first])
            else t == r.(cur := next)
  {
    IndexUnique(r.bufs, j);
    IndexUnique(r.bufs, if j + 1 == |r.bufs| then 0 else j + 1);
    assert r.mem[Succ(r.bufs, r.cur)] + "" == r.mem[Succ(r.bufs, r.cur)];
    assert "" + line == line;
  }

  /** Which buffer is released, in numbers: position j of the list, given back or kept. */
  lemma ReleaseExact<B>(r: Ring<B>, reduce: bool, j: nat)
    requires WellFormed(r) && j < |r.bufs| && r.bufs[j] == r.ntf
    ensures var t, gives := Release(r, reduce), reduce && r.n > 4;
            && t.bufs == (if gives then r.bufs[..j] + r.bufs[j + 1..] else r.bufs)
            && t.n == (if gives then r.n - 1 else r.n)
            && (r.ntf !in t.bufs <==> gives)
            && t.ntf == r.bufs[if j + 1 == |r.bufs| then 0 else j + 1]
  {
    IndexUnique(r.bufs, j);
  }

  /** The buffer flushed last is given back if and only if there were more than four, and more than two
      were not waiting to be flushed; what is flushed next begins behind that buffer. */
  ghost predicate GivesBack<B>(bufs: seq<B>, n: int, ntf: B, last: B, bufs2: seq<B>, n2: int, ntf2: B) {
    forall i, j :: 0 <= i < |bufs| && 0 <= j < |bufs| && bufs[i] == ntf && bufs[j] == last ==>
      var steps := if i <= j then j - i else j - i + |bufs|;
      var gives := n > 4 && n - steps > 2;
      && bufs2 == (if gives then bufs[..j] + bufs[j + 1..] else bufs)
      && n2 == (if gives then n - 1 else n)
      && (last !in bufs2 <==> gives)
      && ntf2 == bufs[if j + 1 == |bufs| then 0 else j + 1]
  }

  lemma PassReleases<B>(r: Ring<B>)
    requires WellFormed(r)
    ensures GivesBack(r.bufs, r.n, r.ntf, r.cur, Pass(r).bufs, Pass(r).n, Pass(r).ntf)
  {
    forall i, j | 0 <= i < |r.bufs| && 0 <= j < |r.bufs| && r.bufs[i] == r.ntf && r.bufs[j] == r.cur
      ensures i == IndexOf(r.bufs, r.ntf) && j == IndexOf(r.bufs, r.cur)
    {
      IndexUnique(r.bufs, i);
      IndexUnique(r.bufs, j);
    }
    ReleaseExact(PassFlushed(r), r.n - Distance(r.bufs, r.ntf, r.cur) > 2, IndexOf(r.bufs, r.cur));
  }

  lemma RotEnds<B>(s: seq<B>, a: B, b: B)
    requires Distinct(s) && a in s && b in s
    ensures Rot(s, a)[Distance(s, a, b)] == b
  {
    var i, j := IndexOf(s, a), IndexOf(s, b);
    assert s[i..] + s[..i] == Rot(s, a);
  }

  lemma FileGrows(file: string, text: string, more: string)
    ensures (file + text) + more == file + (text + more)
  {
  }
}
