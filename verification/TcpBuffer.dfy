/** The connection buffer: a byte string with a start index, compacted now and then. */
module TcpBuffers {
  import opened Words

  // ------------------------------------------------------ the representation

  datatype Rep = Rep(data: seq<Byte>, start: nat) {
    /** Dead bytes never exceed a third of the string. */
    ghost predicate Valid() { 3 * start <= |data| }

    ghost function Contents(): seq<Byte>
      requires start <= |data|
    {
      data[start..]
    }

    ghost function Shrunk(): Rep
      requires start <= |data|
    {
      Rep(data[start..], 0)
    }
  }

  datatype Op =
    | Append(bytes: seq<Byte>)
    | Forward(n: nat)
    | AddString(bytes: seq<Byte>)
    | AddChar(c: Byte)
    | CStr
    | Clear

  ghost predicate Allowed(r: Rep, op: Op)
    requires r.Valid()
  {
    op.Forward? ==> op.n <= |r.Contents()|
  }

  ghost function Do(r: Rep, op: Op): (s: Rep)
    requires r.Valid() && Allowed(r, op)
    ensures s.Valid()
  {
    match op
    case Append(bytes) => Rep(r.data + bytes, r.start)
    case Forward(n) =>
      var f := Rep(r.data, r.start + n);
      if 3 * f.start > |f.data| then f.Shrunk() else f
    case AddString(bytes) => Rep(r.Shrunk().data + bytes, 0)
    case AddChar(c) => Rep(r.data + [c], r.start)
    case CStr => r.Shrunk()
    case Clear => Rep([], 0)
  }

  /** The bytes an operation moves: those that are neither consumed nor new, if they begin elsewhere
      afterwards than before. */
  ghost function Moved(r: Rep, op: Op): nat
    requires r.Valid() && Allowed(r, op)
  {
    var kept := if op.Clear? then |r.data| else if op.Forward? then r.start + op.n else r.start;
    if Do(r, op).start == kept then 0 else |r.data| - kept
  }

  /** They are the same bytes, and end where those that an operation adds begin. */
  lemma MovedBytes(r: Rep, op: Op)
    requires r.Valid() && Allowed(r, op) && !op.Clear?
    ensures var s, kept := Do(r, op), if op.Forward? then r.start + op.n else r.start;
            s.start + (|r.data| - kept) <= |s.data| && s.data[s.start..][..|r.data| - kept] == r.data[kept..]
  {
  }

  // ------------------------------------------------------------ the contract

  /** A plain byte queue. */
  ghost function Queue(q: seq<Byte>, op: Op): seq<Byte>
    requires op.Forward? ==> op.n <= |q|
  {
    match op
    case Append(bytes) => q + bytes
    case Forward(n) => q[n..]
    case AddString(bytes) => q + bytes
    case AddChar(c) => q + [c]
    case CStr => q
    case Clear => []
  }

  ghost predicate RunAllowed(r: Rep, ops: seq<Op>)
    requires r.Valid()
    decreases |ops|
  {
    ops != [] ==> Allowed(r, ops[0]) && RunAllowed(Do(r, ops[0]), ops[1..])
  }

  ghost function DoAll(r: Rep, ops: seq<Op>): (s: Rep)
    requires r.Valid() && RunAllowed(r, ops)
    ensures s.Valid()
    decreases |ops|
  {
    if ops == [] then r else DoAll(Do(r, ops[0]), ops[1..])
  }

  ghost predicate QueueAllowed(q: seq<Byte>, ops: seq<Op>)
    decreases |ops|
  {
    ops != [] ==> (ops[0].Forward? ==> ops[0].n <= |q|) && QueueAllowed(Queue(q, ops[0]), ops[1..])
  }

  ghost function QueueAll(q: seq<Byte>, ops: seq<Op>): seq<Byte>
    requires QueueAllowed(q, ops)
    decreases |ops|
  {
    if ops == [] then q else QueueAll(Queue(q, ops[0]), ops[1..])
  }

  lemma DoRefinesQueue(r: Rep, op: Op)
    requires r.Valid() && (op.Forward? ==> op.n <= |r.Contents()|)
    ensures Do(r, op).Contents() == Queue(r.Contents(), op)
  {
    if op.Forward? {
      assert r.data[r.start..][op.n..] == r.data[r.start + op.n..];
    }
  }

  /** Over any sequence of operations the buffer is a byte queue, and no compaction is ever
      missed: the dead prefix stays within a third. */
  lemma {:induction false} RunRefinesQueue(r: Rep, ops: seq<Op>)
    requires r.Valid()
    ensures RunAllowed(r, ops) <==> QueueAllowed(r.Contents(), ops)
    ensures RunAllowed(r, ops) ==>
              DoAll(r, ops).Contents() == QueueAll(r.Contents(), ops) && 3 * DoAll(r, ops).start <= |DoAll(r, ops).data|
    decreases |ops|
  {
    if ops != [] && Allowed(r, ops[0]) {
      DoRefinesQueue(r, ops[0]);
      RunRefinesQueue(Do(r, ops[0]), ops[1..]);
    }
  }

  // ------------------------------------------------------ cost of compaction

  ghost function MovedAll(r: Rep, ops: seq<Op>): nat
    requires r.Valid() && RunAllowed(r, ops)
    decreases |ops|
  {
    if ops == [] then 0 else Moved(r, ops[0]) + MovedAll(Do(r, ops[0]), ops[1..])
  }

  ghost function Consumed(ops: seq<Op>): nat {
    if ops == [] then 0 else (if ops[0].Forward? then ops[0].n else 0) + Consumed(ops[1..])
  }

  /** The two operations that compact whenever anything is dead. */
  predicate AlwaysShrinks(op: Op) { op.AddString? || op.CStr? }

  /** What one operation moves is paid for by what it consumes and by the potential, twice the start index. */
  ghost predicate Pays(r: Rep, op: Op)
    requires r.Valid() && Allowed(r, op)
  {
    Moved(r, op) + 2 * Do(r, op).start <= 2 * Consumed([op]) + 2 * r.start
  }

  /** Exactly the other operations pay for what they move, whatever the buffer. */
  lemma PaysIff(op: Op)
    ensures (forall r: Rep :: r.Valid() && Allowed(r, op) ==> Pays(r, op)) <==> !AlwaysShrinks(op)
  {
    ConsumedOne(op);
    if AlwaysShrinks(op) {
      assert !Pays(Rep(seq(9, i => 0), 1), op);
    }
  }

  lemma ConsumedOne(op: Op)
    ensures Consumed([op]) == if op.Forward? then op.n else 0
  {
    assert [op][1..] == [];
  }

  /** Amortised cost: starting empty, all compactions together move at most twice the bytes consumed, in
      any run of the operations that pay; the receive buffer's, appending and forwarding, are among them. */
  lemma {:induction false} CompactionIsAmortised(r: Rep, ops: seq<Op>)
    requires r.Valid() && RunAllowed(r, ops) && forall i :: 0 <= i < |ops| ==> !AlwaysShrinks(ops[i])
    ensures MovedAll(r, ops) + 2 * DoAll(r, ops).start <= 2 * Consumed(ops) + 2 * r.start
    decreases |ops|
  {
    if ops != [] {
      CompactionIsAmortised(Do(r, ops[0]), ops[1..]);
    }
  }

  /** One use of an operation that always compacts can break the bound by any amount. */
  lemma ShrinkingMovesMore(op: Op, n: nat)
    requires AlwaysShrinks(op) && n > 3
    ensures var r, ops := Rep(seq(n, i => 0), 0), [Forward(1), op];
            RunAllowed(r, ops) && Consumed(ops) == 1 && MovedAll(r, ops) == n - 1
  {
    var r, ops := Rep(seq(n, i => 0), 0), [Forward(1), op];
    var f := Do(r, ops[0]);
    assert ops[1..] == [op];
    assert f == Rep(r.data, 1);
    var g := Do(f, op);
    assert ops[1..][1..] == [];
    assert RunAllowed(g, []) && MovedAll(g, []) == 0;
    assert Consumed(ops[1..]) == 0 + Consumed(ops[1..][1..]) && Consumed(ops[1..][1..]) == 0;
  }

  // -------------------------------------------------------------- the class

  class TcpBuffer {
    var buffer: seq<Byte>
    var startIndex: nat

    ghost function View(): Rep
      reads this
    {
      Rep(buffer, startIndex)
    }

    ghost predicate Valid()
      reads this
    {
      View().Valid()
    }

    ghost function Contents(): seq<Byte>
      reads this
      requires Valid()
    {
      View().Contents()
    }

    constructor ()
      ensures Valid() && Contents() == []
    {
      buffer, startIndex := [], 0;
    }

    function Size(): (n: nat)
      reads this
      requires Valid()
      ensures n == |Contents()|
    {
      |buffer| - startIndex
    }

    predicate Empty()
      reads this
      requires Valid()
      ensures Empty() <==> Contents() == []
    {
      startIndex >= |buffer|
    }

    function At(index: nat): (b: Byte)
      reads this
      requires Valid() && index < |Contents()|
      ensures b == Contents()[index]
    {
      buffer[startIndex + index]
    }

    /** std::string::substr clamps at the end; n == 0 stands for the whole rest. */
    function Substr(pos: nat, n: nat): (s: seq<Byte>)
      reads this
      requires Valid() && pos <= |Contents()|
      ensures n == 0 ==> s == Contents()[pos..]
      ensures n != 0 && pos + n <= |Contents()| ==> s == Contents()[pos..pos + n]
      ensures n != 0 && pos + n > |Contents()| ==> s == Contents()[pos..]
    {
      var from := startIndex + pos;
      if n != 0 && from + n <= |buffer| then buffer[from..from + n] else buffer[from..]
    }

    method Append(p: seq<Byte>)
      requires Valid()
      modifies this
      ensures View() == Do(old(View()), Op.Append(p))
      ensures Valid() && Contents() == old(Contents()) + p
    {
      buffer := buffer + p;
    }

    method AddString(s: seq<Byte>)
      requires Valid()
      modifies this
      ensures View() == Do(old(View()), Op.AddString(s))
      ensures Valid() && Contents() == old(Contents()) + s
    {
      Shrink();
      buffer := buffer + s;
    }

    method AddChar(c: Byte)
      requires Valid()
      modifies this
      ensures View() == Do(old(View()), Op.AddChar(c))
      ensures Valid() && Contents() == old(Contents()) + [c]
    {
      buffer := buffer + [c];
    }

    method Clear()
      modifies this
      ensures View() == Rep([], 0) && Valid() && Contents() == []
    {
      buffer, startIndex := [], 0;
    }

    method CStr() returns (p: seq<Byte>)
      requires Valid()
      modifies this
      ensures View() == Do(old(View()), Op.CStr)
      ensures Valid() && Contents() == old(Contents()) == p
    {
      Shrink();
      p := buffer;
    }

    method MoveForward(size: nat)
      requires Valid() && size <= |Contents()|
      modifies this
      ensures View() == Do(old(View()), Op.Forward(size))
      ensures Valid() && Contents() == old(Contents())[size..]
    {
      startIndex := startIndex + size;
      if startIndex * 3 > |buffer| {
        Shrink();
      }
    }

    method Shrink()
      requires startIndex <= |buffer|
      modifies this
      ensures View() == old(View()).Shrunk()
    {
      if startIndex > 0 {
        buffer := buffer[startIndex..];
        startIndex := 0;
      }
    }
  }

  method Swap(a: TcpBuffer, b: TcpBuffer)
    requires a.Valid() && b.Valid()
    modifies a, b
    ensures a.View() == old(b.View()) && b.View() == old(a.View())
  {
    a.buffer, b.buffer := b.buffer, a.buffer;
    a.startIndex, b.startIndex := b.startIndex, a.startIndex;
  }
}
