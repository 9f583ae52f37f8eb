/** The classes behind the log ring.  Each lock section and each single-buffer
    flush is a method proved against the function of the same name in LogRing. */
module AsyncLogger {
  import opened LogRing

  /** A fixed-size buffer; `cur` is the past-the-end position. */
  class FixedBuffer {
    const data: array<char>
    var cur: nat
    var lines: nat

    ghost predicate Valid() reads this { cur <= data.Length }

    ghost function Contents(): string
      reads this, data
      requires Valid()
    {
      data[..cur]
    }

    /** A sound buffer of this size with this text in it. */
    ghost predicate Holds(size: nat, text: string)
      reads this, data
    {
      Valid() && data.Length == size && Contents() == text
    }

    constructor (size: nat)
      ensures Valid() && fresh(data) && data.Length == size
      ensures Contents() == "" && lines == 0
    {
      data := new char[size];
      cur, lines := 0, 0;
    }

    function Avail(): (n: nat)
      reads this
      requires Valid()
      ensures cur + n == data.Length
    {
      data.Length - cur
    }

    predicate Enough(len: nat)
      reads this
      requires Valid()
    {
      Avail() >= len
    }

    method Append(line: string)
      requires Valid()
      modifies this, data
      ensures Valid()
      ensures Contents() == old(Contents()) + if |old(Contents())| + |line| <= data.Length then line else ""
      ensures lines == old(lines) + if |old(Contents())| + |line| <= data.Length then 1 else 0
    {
      if Enough(|line|) {
        forall i | 0 <= i < |line| {
          data[cur + i] := line[i];
        }
        cur := cur + |line|;
        lines := lines + 1;
      }
    }

    method Reset()
      requires Valid()
      modifies this
      ensures Valid() && Contents() == "" && lines == 0
    {
      cur, lines := 0, 0;
    }
  }

  /** Where a node is in the list. */
  method Locate<B(==)>(s: seq<B>, b: B) returns (i: nat)
    requires b in s && Distinct(s)
    ensures i == IndexOf(s, b)
  {
    i := 0;
    while s[i] != b
      invariant i <= IndexOf(s, b)
      decreases IndexOf(s, b) - i
    {
      i := i + 1;
    }
    IndexUnique(s, i);
  }

  /** The buffers share no memory and hold what is said of them. */
  ghost predicate Held(bufs: seq<FixedBuffer>, mem: map<FixedBuffer, string>, cap: nat)
    reads bufs, set b <- bufs :: b.data
  {
    && (forall b :: b in bufs ==> b in mem && b.Holds(cap, mem[b]))
    && (forall b, c :: b in bufs && c in bufs && b != c ==> b.data != c.data)
  }

  method FourBuffers(cap: nat) returns (bs: seq<FixedBuffer>)
    ensures |bs| == 4 && Distinct(bs)
    ensures forall b :: b in bs ==> fresh(b) && fresh(b.data) && b.Holds(cap, "")
    ensures forall b, c :: b in bs && c in bs && b != c ==> b.data != c.data
  {
    var b0 := new FixedBuffer(cap);
    var b1 := new FixedBuffer(cap);
    var b2 := new FixedBuffer(cap);
    var b3 := new FixedBuffer(cap);
    bs := [b0, b1, b2, b3];
    DistinctMeans(bs);
    assert forall b :: b in bs ==> b == b0 || b == b1 || b == b2 || b == b3;
  }

  class AsyncLogging {
    const cap: nat
    const maxBuffers: int
    var buffers: seq<FixedBuffer>
    var buffersN: int
    var current: FixedBuffer
    var nextToFlush: FixedBuffer
    var file: string
    ghost var mem: map<FixedBuffer, string>   // what the buffers hold

    ghost predicate Valid()
      reads this, buffers, Data()
    {
      WellFormed(View()) && Held(buffers, mem, cap)
    }

    ghost function Data(): set<array<char>>
      reads this
    {
      set b | b in buffers :: b.data
    }

    /** The fields as the value LogRing reasons about; an iterator is the buffer it points to. */
    ghost function View(): Ring<FixedBuffer>
      reads this
    {
      Ring(cap, maxBuffers, buffers, buffersN, current, nextToFlush, mem, file)
    }

    /** An initial ring of four buffers; at most 25 however large the setting. */
    constructor (cap: nat, maxBuffers: int)
      ensures Valid() && (forall b :: b in buffers ==> fresh(b) && fresh(b.data))
      ensures var r := View();
              && r.cap == cap && r.maxBuffers == (if maxBuffers < 25 then maxBuffers else 25)
              && |r.bufs| == r.n == 4 && r.cur == r.ntf == r.bufs[0] && r.file == ""
              && forall b :: b in r.bufs ==> r.mem[b] == ""
    {
      var bs := FourBuffers(cap);
      this.cap := cap;
      this.maxBuffers := if maxBuffers < 25 then maxBuffers else 25;
      buffers, buffersN := bs, 4;
      current, nextToFlush := bs[0], bs[0];
      file := "";
      mem := map b | b in bs :: "";
    }

    /** ++it, wrapping at end(). */
    method Advance(it: FixedBuffer) returns (next: FixedBuffer)
      requires Distinct(buffers) && it in buffers
      ensures next == Succ(buffers, it)
    {
      var i := Locate(buffers, it);
      next := if i + 1 == |buffers| then buffers[0] else buffers[i + 1];
    }

    method CalcBufferDistance(nextToFlush: FixedBuffer, curBuf: FixedBuffer) returns (count: nat)
      requires Distinct(buffers) && nextToFlush in buffers && curBuf in buffers
      ensures count == Distance(buffers, nextToFlush, curBuf)
    {
      count := 0;
      var it := nextToFlush;
      while it != curBuf
        invariant it in buffers
        invariant count + Distance(buffers, it, curBuf) == Distance(buffers, nextToFlush, curBuf)
        decreases Distance(buffers, it, curBuf)
      {
        CloserByOne(buffers, it, curBuf);
        it := Advance(it);
        count := count + 1;
      }
    }

    /** The frontend call. */
    method Append(line: string) returns (ghost node: FixedBuffer)
      requires Valid()
      modifies this, buffers, Data()
      ensures Valid()
      ensures if Grows(old(View()), line) then fresh(node) && fresh(node.data) else node in old(buffers)
      ensures View() == AppendLine(old(View()), line, node)
    {
      node := current;
      if current.Enough(|line|) {
        WriteCurrent(line);
      } else {
        var dropped;
        dropped, node := MoveOn(line);
        if !dropped {
          WriteCurrent(line);
        }
      }
    }

    /** The part of `append` that looks for the next buffer. */
    method MoveOn(ghost line: string) returns (dropped: bool, ghost node: FixedBuffer)
      requires Valid() && !Fits(View(), line)
      modifies this
      ensures Valid()
      ensures if Grows(old(View()), line) then fresh(node) && fresh(node.data) else node in old(buffers)
      ensures dropped == Drops(old(View()), line)
      ensures View() == if Grows(old(View()), line) then Grown(old(View()), node)
                        else old(View()).(cur := Succ(old(buffers), old(current)))
    {
      dropped, node := false, current;
      current := Advance(current);
      if current == nextToFlush {
        if buffersN < maxBuffers {
          node := InsertBuffer();
        } else {
          dropped := true;
        }
      }
    }

    /** FixedBuffer::append on the current buffer, seen from the ring. */
    method WriteCurrent(line: string)
      requires Valid()
      modifies this`mem, current, current.data
      ensures Valid() && View() == Write(old(View()), line)
    {
      if Fits(View(), line) {
        mem := mem[current := mem[current] + line];
      }
      current.Append(line);
      assert old(current.Contents()) + "" == old(current.Contents());
    }

    /** m_buffers.insert(m_current_itr, new Buffer) with the iterator on m_next_to_flush. */
    method InsertBuffer() returns (node: FixedBuffer)
      requires Valid() && current == nextToFlush
      modifies this
      ensures Valid() && fresh(node) && fresh(node.data) && View() == Grown(old(View()), node)
    {
      node := new FixedBuffer(cap);
      ghost var r := View();
      InsertWellFormed(r, node);
      InsertMembers(buffers, current, node);
      var i := Locate(buffers, current);
      buffers, buffersN, current := buffers[..i] + [node] + buffers[i..], buffersN + 1, node;
      mem := Grown(r, node).mem;
      assert View() == Grown(r, node);
    }

    /** fwrite and reset of one buffer; what the handed-over buffer and every buffer of the flush
        loop go through. */
    method FlushOne(b: FixedBuffer) returns (next: FixedBuffer)
      requires Valid() && b in buffers
      modifies this`file, this`mem, b
      ensures Valid() && View() == Flush(old(View()), b) && next == Succ(buffers, b)
    {
      ghost var r := View();
      next := Advance(b);
      file := file + b.data[..b.cur];
      b.Reset();
      mem := mem[b := ""];
      assert View() == Flush(r, b);
    }

    /** The flush loop with nobody interfering: what it does is FlushFirst. */
    method FlushUpTo(cur: FixedBuffer) returns (next: FixedBuffer)
      requires Valid() && cur in buffers
      modifies this, buffers
      ensures Valid() && next == cur
      ensures var r := old(View());
              var path, d := Rot(r.bufs, r.ntf), Distance(r.bufs, r.ntf, cur);
              Stored(r.mem, path) && View() == FlushFirst(r, path, d)
    {
      next := nextToFlush;
      ghost var r := View();
      ghost var path, l := Rot(r.bufs, r.ntf), 0;
      RotStored(r.mem, r.bufs, r.ntf);
      while next != cur
        invariant Valid() && l < |path| && next == path[l] && l <= Distance(r.bufs, r.ntf, cur)
        invariant View() == FlushFirst(r, path, l)
        decreases |path| - l
      {
        StepToward(r.bufs, r.ntf, cur, l);
        next := FlushOne(next);
        l := l + 1;
      }
      Arrived(r.bufs, r.ntf, cur, l);
    }

    /** The hand-over section. */
    method HandOverTo(cur: FixedBuffer, next: FixedBuffer)
      requires Valid() && next in buffers
      modifies this`current, this`nextToFlush
      ensures Valid() && View() == HandOver(old(View()), cur, next)
    {
      if cur == current {
        current := Advance(current);
      }
      nextToFlush := next;
    }

    /** The release section. */
    method ReleaseBuffer(reduce: bool)
      requires Valid() && |buffers| >= 2 && nextToFlush != current
      modifies this
      ensures Valid() && View() == Release(old(View()), reduce)
      ensures old(nextToFlush) !in buffers <==> reduce && old(buffersN) > 4
      ensures buffersN == if reduce && old(buffersN) > 4 then old(buffersN) - 1 else old(buffersN)
    {
      ReleaseExact(View(), reduce, IndexOf(buffers, nextToFlush));
      if reduce && buffersN > 4 {
        EraseBuffer();
      } else {
        nextToFlush := Advance(nextToFlush);
      }
    }

    /** One turn of the backend's loop up to its fflush, with nobody interfering. */
    method BackendPass()
      requires Valid() && |buffers| >= 2
      modifies this, buffers
      ensures Valid() && View() == Pass(old(View()))
      ensures GivesBack(old(buffers), old(buffersN), old(nextToFlush), old(current), buffers, buffersN, nextToFlush)
    {
      ghost var r := View();
      FlushAndRelease();
      PassReleases(r);
    }

    method FlushAndRelease()
      requires Valid() && |buffers| >= 2
      modifies this, buffers
      ensures Valid() && View() == Pass(old(View()))
    {
      var snap := current;
      var count := CalcBufferDistance(nextToFlush, snap);
      var reduce := buffersN - count > 2;
      var next := FlushUpTo(snap);
      HandOverTo(snap, next);
      SuccIsAnother(buffers, snap);
      next := FlushOne(nextToFlush);
      ReleaseBuffer(reduce);
    }

    lemma ErasedSound()
      requires Valid() && |buffers| >= 2 && nextToFlush != current
      ensures var e := Erased(View());
              WellFormed(e) && Held(e.bufs, e.mem, cap)
    {
      ErasedKeeps(View());
    }

    /** m_next_to_flush = m_buffers.erase(m_next_to_flush), wrapping at end(). */
    method EraseBuffer()
      requires Valid() && |buffers| >= 2 && nextToFlush != current
      modifies this
      ensures Valid() && View() == Erased(old(View()))
    {
      ghost var e := Erased(View());
      ErasedSound();
      var i := Locate(buffers, nextToFlush);
      var next := Advance(nextToFlush);
      var rest := buffers[..i] + buffers[i + 1..];
      assert e == Ring(cap, maxBuffers, rest, buffersN - 1, current, next, e.mem, file);
      SetList(rest, buffersN - 1, next, e.mem);
    }

    method SetList(bs: seq<FixedBuffer>, n: int, next: FixedBuffer, ghost m: map<FixedBuffer, string>)
      requires WellFormed(Ring(cap, maxBuffers, bs, n, current, next, m, file)) && Held(bs, m, cap)
      modifies this`buffers, this`buffersN, this`nextToFlush, this`mem
      ensures Valid() && View() == Ring(cap, maxBuffers, bs, n, current, next, m, file)
    {
      buffers, buffersN, nextToFlush, mem := bs, n, next, m;
    }

    /** The section after the loop, under the lock. */
    method Finish()
      requires Valid()
      modifies this`current, this`nextToFlush, this`file
      ensures Valid() && View() == Shutdown(old(View()))
    {
      current := Advance(current);
      ghost var r := View();
      ghost var path, l := Rot(r.bufs, r.ntf), 0;
      RotStored(r.mem, r.bufs, r.ntf);
      while nextToFlush != current
        invariant Valid() && l < |path| && nextToFlush == path[l] && l <= Distance(r.bufs, r.ntf, r.cur)
        invariant View() == WriteFirst(r, path, l)
        decreases |path| - l
      {
        StepToward(r.bufs, r.ntf, r.cur, l);
        WriteFirstSucc(r, path, l);
        FinishOne();
        l := l + 1;
      }
      Arrived(r.bufs, r.ntf, r.cur, l);
    }

    /** The body of the final loop: written, not reset. */
    method FinishOne()
      requires Valid()
      modifies this`file, this`nextToFlush
      ensures Valid()
      ensures View() == old(View()).(ntf := Succ(buffers, old(nextToFlush)), file := old(file) + mem[old(nextToFlush)])
    {
      file := file + nextToFlush.data[..nextToFlush.cur];
      nextToFlush := Advance(nextToFlush);
    }
  }

  lemma ErasedKeeps<B>(r: Ring<B>)
    requires WellFormed(r) && |r.bufs| >= 2 && r.ntf != r.cur
    ensures WellFormed(Erased(r))
    ensures forall b :: b in Erased(r).bufs ==> b in r.bufs && b in r.mem && Erased(r).mem[b] == r.mem[b]
  {
    ErasedWellFormed(r);
    EraseMembers(r.bufs, r.ntf);
  }

  lemma ErasedWellFormed<B>(r: Ring<B>)
    requires WellFormed(r) && |r.bufs| >= 2 && r.ntf != r.cur
    ensures WellFormed(Erased(r))
  {
    var t := Erase(r.bufs, r.ntf);
    RotErase(r.bufs, r.ntf);
    EraseMembers(r.bufs, r.ntf);
    forall i | 0 <= i < |t| ensures t[i] in r.mem - {r.ntf} {
      var j := IndexOf(r.bufs, t[i]);
    }
  }

  lemma StepToward<B>(s: seq<B>, a: B, b: B, l: nat)
    requires Distinct(s) && a in s && b in s && l <= Distance(s, a, b) && Rot(s, a)[l] != b
    ensures l < Distance(s, a, b) && Rot(s, a)[l] in s && Succ(s, Rot(s, a)[l]) == Rot(s, a)[l + 1]
  {
    RotEnd(s, a, b);
    RotNext(s, a, l);
  }

  lemma Arrived<B>(s: seq<B>, a: B, b: B, l: nat)
    requires Distinct(s) && a in s && b in s && l < |s| && Rot(s, a)[l] == b
    ensures l == Distance(s, a, b)
  {
    RotEnd(s, a, b);
  }

  lemma RotEnd<B>(s: seq<B>, a: B, b: B)
    requires Distinct(s) && a in s && b in s
    ensures Rot(s, a)[Distance(s, a, b)] == b && Distinct(Rot(s, a))
  {
    RotDistinct(s, a);
  }

  lemma EraseMembers<B>(s: seq<B>, b: B)
    requires b in s && Distinct(s)
    ensures forall c :: c in Erase(s, b) <==> c in s && c != b
  {
    var i := IndexOf(s, b);
    assert s == s[..i] + [b] + s[i + 1..];
    forall c | c in Erase(s, b) ensures c != b {
      var j :| 0 <= j < |s| - 1 && Erase(s, b)[j] == c;
      assert c == s[if j < i then j else j + 1];
    }
  }

  lemma InsertMembers<B>(s: seq<B>, b: B, x: B)
    requires b in s
    ensures forall c :: c in InsertBefore(s, b, x) <==> c in s || c == x
  {
    var i := IndexOf(s, b);
    assert s == s[..i] + s[i..];
  }

  lemma SuccIsAnother<B>(s: seq<B>, b: B)
    requires Distinct(s) && b in s && |s| >= 2
    ensures Succ(s, b) != b
  {
  }

  lemma CloserByOne<B>(s: seq<B>, a: B, b: B)
    requires Distinct(s) && a in s && b in s && a != b
    ensures Distance(s, a, b) == Distance(s, Succ(s, a), b) + 1
  {
    var i := IndexOf(s, a);
    IndexUnique(s, if i + 1 == |s| then 0 else i + 1);
  }
}
