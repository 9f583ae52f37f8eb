/** A connection: reads fill the in-buffer, requests are executed, replies leave the out-buffer. */
module TcpConnections {
  import opened Words
  import opened TcpBuffers
  import opened RpcFrames
  import opened RpcCodec
  import opened RpcStream
  import opened RpcServer
  import opened RpcProtocols
  import opened RpcServices
  import opened MsgIds

  datatype ConnectionType = ByServer | ByClient
  datatype TcpState = NotConnected | Connected | HalfClosing | Closed
  /** What the socket is registered for. */
  datatype Interest = Nothing | Readable | Writable

  /** What one call of recv or send returns; past the end of a list of results the socket would block. */
  datatype Recv = Received(data: seq<Byte>) | ReadBlocks | ReadInterrupted | ReadFails | PeerCloses
  datatype Send = Sent(n: nat) | WriteBlocks | WriteInterrupted | WriteFails

  /** How a reading pass ends. */
  function ReadEnds(rs: seq<Recv>): Recv {
    if rs == [] then ReadBlocks
    else if rs[0].Received? || rs[0].ReadInterrupted? then ReadEnds(rs[1..])
    else rs[0]
  }

  /** The bytes a reading pass takes from the socket. */
  function Taken(rs: seq<Recv>): seq<Byte> {
    if rs == [] then []
    else if rs[0].Received? then rs[0].data + Taken(rs[1..])
    else if rs[0].ReadInterrupted? then Taken(rs[1..])
    else []
  }

  lemma {:induction false} ReadEndsHow(rs: seq<Recv>)
    ensures ReadEnds(rs) in {ReadBlocks, ReadFails, PeerCloses}
  {
    if rs != [] {
      ReadEndsHow(rs[1..]);
    }
  }

  /** A reading pass goes on after data and after an interruption, and after nothing else. */
  predicate ReadsOn(r: Recv) { r.Received? || r.ReadInterrupted? }

  /** It takes all that is received, block after block, and then the socket blocks. */
  lemma {:induction false} TakesAll(chunks: seq<seq<Byte>>)
    ensures var rs := seq(|chunks|, i requires 0 <= i < |chunks| => Received(chunks[i]));
            Taken(rs) == Concat(chunks) && ReadEnds(rs) == ReadBlocks
  {
    if chunks != [] {
      TakesAll(chunks[1..]);
      var rs := seq(|chunks|, i requires 0 <= i < |chunks| => Received(chunks[i]));
      assert rs[1..] == seq(|chunks[1..]|, i requires 0 <= i < |chunks[1..]| => Received(chunks[1..][i]));
    }
  }

  /** Being interrupted makes no difference, wherever it happens. */
  lemma {:induction false} InterruptedRead(a: seq<Recv>, b: seq<Recv>)
    ensures Taken(a + [ReadInterrupted] + b) == Taken(a + b)
    ensures ReadEnds(a + [ReadInterrupted] + b) == ReadEnds(a + b)
  {
    if a == [] {
      assert ([ReadInterrupted] + b)[1..] == b;
      assert [] + [ReadInterrupted] + b == [ReadInterrupted] + b && [] + b == b;
    } else {
      InterruptedRead(a[1..], b);
      assert (a + [ReadInterrupted] + b)[1..] == a[1..] + [ReadInterrupted] + b && (a + b)[1..] == a[1..] + b;
    }
  }

  /** The first other result ends the pass: what is behind it makes no difference. */
  lemma {:induction false} ReadStops(a: seq<Recv>, end: Recv, b: seq<Recv>)
    requires !ReadsOn(end) && forall i :: 0 <= i < |a| ==> ReadsOn(a[i])
    ensures Taken(a + [end] + b) == Taken(a) && ReadEnds(a + [end] + b) == end
  {
    if a == [] {
      assert [] + [end] + b == [end] + b;
    } else {
      ReadStops(a[1..], end, b);
      assert (a + [end] + b)[1..] == a[1..] + [end] + b;
    }
  }

  /** What executing does: a server drains its buffer, a client decodes once. */
  function Executed(kind: ConnectionType, d: Decoder): Drained {
    if kind.ByServer? then Drain(d) else Drained(RpcFrames.Decode(d), [])
  }

  /** What the socket is registered for after executing: a server writes when there is something to
      write, a client reads on until it has its reply. */
  function InterestAfter(kind: ConnectionType, was: Interest, decoder: State, nothingToWrite: bool): Interest {
    match kind
    case ByServer => if nothingToWrite then Readable else Writable
    case ByClient => if Finished(decoder) then was else Readable
  }

  /** The decoder after a reading pass, and the requests answered in it. */
  function AfterRead(kind: ConnectionType, state: TcpState, d: Decoder, rs: seq<Recv>): Drained {
    if state.HalfClosing? then Drained(d, [])
    else if ReadEnds(rs).ReadBlocks? then Executed(kind, Feed(d, Taken(rs)))
    else Drained(Feed(d, Taken(rs)), [])
  }

  function StateAfterRead(kind: ConnectionType, state: TcpState, rs: seq<Recv>): TcpState {
    if state.HalfClosing? || ReadEnds(rs).PeerCloses? then (if kind.ByServer? then Closed else state)
    else if ReadEnds(rs).ReadFails? && state.Connected? then HalfClosing
    else state
  }

  /** The result at which a writing pass that cannot finish stops. */
  function SendEnds(rs: seq<Send>): Send { EndsFrom(rs, 0) }

  function EndsFrom(rs: seq<Send>, i: nat): Send
    decreases |rs| - i
  {
    if i >= |rs| then WriteBlocks
    else if rs[i].Sent? || rs[i].WriteInterrupted? then EndsFrom(rs, i + 1)
    else rs[i]
  }

  /** How many bytes the socket takes before it blocks or fails. */
  function Accepts(rs: seq<Send>): nat { AcceptsFrom(rs, 0) }

  function AcceptsFrom(rs: seq<Send>, i: nat): nat
    decreases |rs| - i
  {
    if i >= |rs| then 0
    else match rs[i]
         case Sent(n) => n + AcceptsFrom(rs, i + 1)
         case WriteInterrupted => AcceptsFrom(rs, i + 1)
         case _ => 0
  }

  // ------------------------------------------------------- a run of events

  datatype Event = Reads(received: seq<Recv>) | Writes(sent: seq<Send>)

  /** A server's connection, and the bytes it has sent. */
  datatype Side = Side(state: TcpState, decoder: Decoder, queued: seq<Byte>, interest: Interest, wire: seq<Byte>)

  /** Whether a readable event executes what it read. */
  predicate Executes(state: TcpState, rs: seq<Recv>) { !state.HalfClosing? && ReadEnds(rs).ReadBlocks? }

  function AfterReads(reg: Registry, s: Side, rs: seq<Recv>): Side {
    var r := AfterRead(ByServer, s.state, s.decoder, rs);
    var queued := s.queued + Replies(reg, r.frames);
    var interest := if Executes(s.state, rs) then (if queued == [] then Readable else Writable)
                    else if !s.state.HalfClosing? && ReadEnds(rs).ReadFails? then Readable
                    else s.interest;
    Side(StateAfterRead(ByServer, s.state, rs), r.decoder, queued, interest, s.wire)
  }

  function AfterWrites(s: Side, rs: seq<Send>): Side {
    var n := if Accepts(rs) < |s.queued| then Accepts(rs) else |s.queued|;
    Side(if n < |s.queued| && SendEnds(rs).WriteFails? && s.state.Connected? then HalfClosing else s.state,
         s.decoder, s.queued[n..], Readable, s.wire + s.queued[..n])
  }

  function AfterEvent(reg: Registry, s: Side, e: Event): Side {
    match e
    case Reads(rs) => AfterReads(reg, s, rs)
    case Writes(rs) => AfterWrites(s, rs)
  }

  /** Registrations are for one event: it comes if the socket is registered for it, and none after a FIN. */
  predicate Allowed(s: Side, e: Event) {
    !s.state.Closed? && s.interest == if e.Reads? then Readable else Writable
  }

  function AfterAll(reg: Registry, s: Side, events: seq<Event>): Side {
    if events == [] then s else AfterEvent(reg, AfterAll(reg, s, events[..|events| - 1]), events[|events| - 1])
  }

  predicate Possible(reg: Registry, s: Side, events: seq<Event>) {
    events != [] ==>
      && Possible(reg, s, events[..|events| - 1])
      && Allowed(AfterAll(reg, s, events[..|events| - 1]), events[|events| - 1])
  }

  /** What the events that execute have read. */
  function Chunks(reg: Registry, s: Side, events: seq<Event>): seq<seq<Byte>> {
    if events == [] then []
    else
      var before, e := events[..|events| - 1], events[|events| - 1];
      Chunks(reg, s, before) +
      if e.Reads? && Executes(AfterAll(reg, s, before).state, e.received) then [Taken(e.received)] else []
  }

  function Input(e: Event): seq<Byte> { if e.Reads? then Taken(e.received) else [] }

  function Ingested(events: seq<Event>, i: nat): nat
    decreases |events| - i
  {
    if i >= |events| then 0 else |Input(events[i])| + Ingested(events, i + 1)
  }

  lemma AllButLast(reg: Registry, s: Side, events: seq<Event>, i: nat)
    requires i < |events|
    ensures AfterAll(reg, s, events[..i + 1]) == AfterEvent(reg, AfterAll(reg, s, events[..i]), events[i])
  {
    assert events[..i + 1][..i] == events[..i];
  }

  lemma EventInput(reg: Registry, s: Side, e: Event)
    ensures |AfterEvent(reg, s, e).decoder.input| <= |s.decoder.input| + |Input(e)|
  {
    if e.Reads? {
      DrainShrinks(Feed(s.decoder, Taken(e.received)));
    }
  }

  lemma SentPart(queued: seq<Byte>, part: seq<Byte>, left: seq<Byte>, rs: seq<Send>)
    requires part + left == queued && (left == [] <==> Accepts(rs) >= |queued|) && (left != [] ==> |part| == Accepts(rs))
    ensures var n := if Accepts(rs) < |queued| then Accepts(rs) else |queued|; part == queued[..n] && left == queued[n..]
  {
  }

  /** In any run what was queued, and the replies to all requests in what was read and executed, are on the
      wire or still queued, in this order; and while the connection stands it decodes those chunks. */
  lemma {:induction false} NothingLost(reg: Registry, s: Side, events: seq<Event>)
    requires !s.state.NotConnected? && Possible(reg, s, events)
    ensures Kept(reg, s, AfterAll(reg, s, events), DrainEach(s.decoder, Chunks(reg, s, events)))
  {
    if events == [] {
      assert (s.wire + s.queued) + [] == s.wire + s.queued;
    } else {
      var before, e := events[..|events| - 1], events[|events| - 1];
      NothingLost(reg, s, before);
      var p, cut := AfterAll(reg, s, before), DrainEach(s.decoder, Chunks(reg, s, before));
      match e
      case Reads(rs) =>
        ReadKeeps(reg, s, p, cut, Chunks(reg, s, before), rs);
        assert Chunks(reg, s, before) + [] == Chunks(reg, s, before);
      case Writes(rs) =>
        assert Chunks(reg, s, before) + [] == Chunks(reg, s, before);
        WritesKeep(p, rs);
    }
  }

  /** After some chunks have been executed: what has been sent and queued, and the decoder. */
  ghost predicate Kept(reg: Registry, s: Side, t: Side, cut: Drained) {
    && t.wire + t.queued == (s.wire + s.queued) + Replies(reg, cut.frames)
    && (t.state.Connected? ==> t.decoder == cut.decoder)
    && !t.state.NotConnected?
  }

  lemma ReadKeeps(reg: Registry, s: Side, p: Side, cut: Drained, chunks: seq<seq<Byte>>, rs: seq<Recv>)
    requires Kept(reg, s, p, cut) && cut == DrainEach(s.decoder, chunks) && !p.state.Closed?
    ensures Kept(reg, s, AfterReads(reg, p, rs), DrainEach(s.decoder, chunks + if Executes(p.state, rs) then [Taken(rs)] else []))
  {
    var r := AfterRead(ByServer, p.state, p.decoder, rs);
    Associate(p.wire, p.queued, Replies(reg, r.frames));
    ReadEndsHow(rs);
    if Executes(p.state, rs) {
      DrainEachSnoc(s.decoder, chunks, Taken(rs));
      RepliesConcat(reg, cut.frames, r.frames);
      Associate(s.wire + s.queued, Replies(reg, cut.frames), Replies(reg, r.frames));
    } else {
      assert chunks + [] == chunks && p.queued + [] == p.queued;
    }
  }

  lemma WritesKeep(s: Side, rs: seq<Send>)
    ensures AfterWrites(s, rs).wire + AfterWrites(s, rs).queued == s.wire + s.queued
  {
    var n := if Accepts(rs) < |s.queued| then Accepts(rs) else |s.queued|;
    assert s.queued[..n] + s.queued[n..] == s.queued;
    Associate(s.wire, s.queued[..n], s.queued[n..]);
  }

  /** A server that receives a stream of requests, with the beginning of another behind them, through any
      reading and writing events that can come, sends or still holds the replies to exactly those
      requests, in order; the partial one waits. */
  lemma RequestsAnswered(reg: Registry, s: Side, events: seq<Event>, requests: seq<Frame>, p: seq<Byte>)
    requires s.state.Connected? && s.decoder == Fresh([], s.decoder.remainLen) && Possible(reg, s, events)
    requires forall i :: 0 <= i < |requests| ==> Consistent(requests[i]) && Steady(requests[i])
    requires PartialFrame(p) && Concat(Chunks(reg, s, events)) == EncodeAll(requests) + p
    ensures var t := AfterAll(reg, s, events);
            && t.wire + t.queued == (s.wire + s.queued) + Replies(reg, requests)
            && (t.state.Connected? ==> !Finished(t.decoder.state))
  {
    NothingLost(reg, s, events);
    var chunks := Chunks(reg, s, events);
    if chunks != [] {
      EveryCuttingSameReplies(reg, requests, p, chunks, s.decoder.remainLen);
    }
  }

  /** A writing pass leaves bytes behind exactly when the socket takes fewer than there are; then it has
      registered for reading, and until a reading event comes no event can write them. */
  lemma PartialWriteStrands(reg: Registry, s: Side, rs: seq<Send>, e: Event)
    ensures var t := AfterEvent(reg, s, Writes(rs));
            && (t.queued != [] <==> Accepts(rs) < |s.queued|)
            && (Allowed(t, e) ==> e.Reads?)
    ensures forall a, b :: s.queued == [a, b] ==> var t := AfterEvent(reg, s, Writes([Sent(1), WriteBlocks]));
            t == Side(s.state, s.decoder, [b], Readable, s.wire + [a])
  {
    assert Accepts([Sent(1), WriteBlocks]) == 1 + AcceptsFrom([Sent(1), WriteBlocks], 1);
    assert SendEnds([Sent(1), WriteBlocks]) == EndsFrom([Sent(1), WriteBlocks], 1);
  }

  /** Midway through the writing loop: what has been sent of what was queued, and what is left. */
  ghost predicate Sending(queued: seq<Byte>, wire: seq<Byte>, left: seq<Byte>, taken: nat) {
    wire + left == queued && |wire| <= taken && (left != [] ==> |wire| == taken)
  }

  /** The same, read from the front. */
  lemma {:induction false} SendsFrom(rs: seq<Send>, i: nat, j: nat)
    requires i + j <= |rs|
    ensures AcceptsFrom(rs[i..], j) == AcceptsFrom(rs, i + j) && EndsFrom(rs[i..], j) == EndsFrom(rs, i + j)
    decreases |rs| - j
  {
    if i + j < |rs| {
      SendsFrom(rs, i, j + 1);
    }
  }

  lemma FirstSend(rs: seq<Send>)
    requires rs != []
    ensures var rest := rs[1..];
            && Accepts(rs) == (match rs[0] case Sent(n) => n + Accepts(rest) case WriteInterrupted => Accepts(rest) case _ => 0)
            && SendEnds(rs) == (if rs[0].Sent? || rs[0].WriteInterrupted? then SendEnds(rest) else rs[0])
  {
    SendsFrom(rs, 1, 0);
  }

  predicate WritesOn(r: Send) { r.Sent? || r.WriteInterrupted? }

  /** The socket accepts the sum of what its calls of send take, and then blocks. */
  lemma {:induction false} AcceptsSum(a: seq<Send>, n: nat)
    requires forall i :: 0 <= i < |a| ==> WritesOn(a[i])
    ensures Accepts([]) == 0 && SendEnds([]) == WriteBlocks
    ensures Accepts(a + [Sent(n)]) == Accepts(a) + n && SendEnds(a + [Sent(n)]) == WriteBlocks
  {
    FirstSend(a + [Sent(n)]);
    if a == [] {
      assert (a + [Sent(n)])[1..] == [];
    } else {
      FirstSend(a);
      AcceptsSum(a[1..], n);
      assert (a + [Sent(n)])[1..] == a[1..] + [Sent(n)];
    }
  }

  /** An interrupted send neither ends the pass nor counts. */
  lemma {:induction false} InterruptedWrite(a: seq<Send>, b: seq<Send>)
    ensures Accepts(a + [WriteInterrupted] + b) == Accepts(a + b)
    ensures SendEnds(a + [WriteInterrupted] + b) == SendEnds(a + b)
  {
    var with := a + [WriteInterrupted] + b;
    FirstSend(with);
    if a == [] {
      assert with[1..] == b == a + b;
    } else {
      FirstSend(a + b);
      InterruptedWrite(a[1..], b);
      assert with[1..] == a[1..] + [WriteInterrupted] + b && (a + b)[1..] == a[1..] + b;
    }
  }

  /** The first blocking or failing send ends it: what is behind makes no difference. */
  lemma {:induction false} WriteStops(a: seq<Send>, end: Send, b: seq<Send>)
    requires !WritesOn(end) && forall i :: 0 <= i < |a| ==> WritesOn(a[i])
    ensures Accepts(a + [end] + b) == Accepts(a) && SendEnds(a + [end] + b) == end
  {
    var whole := a + [end] + b;
    FirstSend(whole);
    if a != [] {
      FirstSend(a);
      WriteStops(a[1..], end, b);
      assert whole[1..] == a[1..] + [end] + b;
    }
  }

  lemma {:induction false} RepliesSnoc(reg: Registry, fs: seq<Frame>, f: Frame)
    ensures Replies(reg, fs + [f]) == Replies(reg, fs) + Reply(reg, f)
  {
    if fs == [] {
      assert fs + [f] == [f] && [f][1..] == [];
      assert Replies(reg, [f]) == Reply(reg, f) + Replies(reg, []);
    } else {
      assert (fs + [f])[1..] == fs[1..] + [f];
      RepliesSnoc(reg, fs[1..], f);
      Associate(Reply(reg, fs[0]), Replies(reg, fs[1..]), Reply(reg, f));
    }
  }

  class TcpConnection {
    const kind: ConnectionType
    const inBuffer: TcpBuffer
    const outBuffer: TcpBuffer
    const decoder: RpcDecoder
    var state: TcpState
    var interest: Interest
    var stopped: bool
    var rspProtocol: RpcProtocol?

    ghost predicate Valid()
      reads this, decoder, decoder.req, inBuffer, outBuffer, decoder.inBuffer
    {
      && decoder.inBuffer == inBuffer && inBuffer != outBuffer
      && outBuffer.Valid() && decoder.Valid()
    }

    constructor (kind: ConnectionType, state: TcpState)
      ensures Valid() && this.kind == kind && this.state == state && !stopped && rspProtocol == null
      ensures fresh(inBuffer) && fresh(outBuffer) && fresh(decoder) && fresh(decoder.req)
      ensures decoder.View() == Fresh([], 0) && outBuffer.Contents() == []
      ensures interest == if kind.ByServer? then Readable else Nothing
    {
      var b := new TcpBuffer();
      var o := new TcpBuffer();
      var d := new RpcDecoder(b);
      this.kind, this.state, inBuffer, outBuffer, decoder := kind, state, b, o, d;
      interest := if kind.ByServer? then Readable else Nothing;
      stopped, rspProtocol := false, null;
    }

    /** Midway through server_execute: the frames done are answered, the decoder has returned again. */
    ghost predicate Answering(reg: Registry, whole: Drained, sent: seq<Byte>, done: seq<Frame>)
      reads this, decoder, decoder.req, inBuffer, outBuffer, decoder.inBuffer
    {
      Valid() && whole == Ahead(done, decoder.View()) && outBuffer.Contents() == sent + Replies(reg, done)
    }

    method Answer(service: RpcService, rsp: RpcProtocol)
      requires Valid() && rsp != decoder.req
      modifies rsp, outBuffer
      ensures Valid() && decoder.View() == old(decoder.View())
      ensures outBuffer.Contents() == old(outBuffer.Contents()) + Reply(service.serviceMap, decoder.req.View())
    {
      service.Process(decoder.req, rsp, outBuffer);
      rsp.Clear();
    }

    /** One turn of the loop: the request at hand is processed and the next one asked for. */
    method Turn(service: RpcService, rsp: RpcProtocol) returns (req: RpcProtocol?)
      requires Valid() && rsp != decoder.req
      modifies rsp, decoder, decoder.req, inBuffer, outBuffer
      ensures Valid() && decoder.View() == RpcFrames.Decode(old(decoder.View()))
      ensures outBuffer.Contents() == old(outBuffer.Contents()) + Reply(service.serviceMap, old(decoder.View()).frame)
      ensures req == if decoder.state.ParseSuccess? then decoder.req else null
    {
      Answer(service, rsp);
      req := decoder.Decode();
    }

    method AnswerOne(service: RpcService, rsp: RpcProtocol,
                     ghost whole: Drained, ghost sent: seq<Byte>, ghost done: seq<Frame>)
      returns (req: RpcProtocol?, ghost now: seq<Frame>)
      requires Answering(service.serviceMap, whole, sent, done) && decoder.state.ParseSuccess? && rsp != decoder.req
      modifies rsp, decoder, decoder.req, inBuffer, outBuffer
      ensures Answering(service.serviceMap, whole, sent, now)
      ensures req == if decoder.state.ParseSuccess? then decoder.req else null
      ensures |inBuffer.Contents()| <= old(|inBuffer.Contents()|)
      ensures req != null ==> |inBuffer.Contents()| < old(|inBuffer.Contents()|)
    {
      AnswerSteps(service.serviceMap, sent, done, decoder.View());
      now := done + [decoder.View().frame];
      req := Turn(service, rsp);
    }

    /** All whole requests in the in-buffer are answered, in order, behind what is still unsent. */
    method ServerExecute(service: RpcService)
      requires Valid() && kind.ByServer?
      modifies this`interest, decoder, decoder.req, inBuffer, outBuffer
      ensures Valid()
      ensures var drained := Drain(old(decoder.View()));
              && decoder.View() == drained.decoder
              && outBuffer.Contents() == old(outBuffer.Contents()) + Replies(service.serviceMap, drained.frames)
      ensures interest == if outBuffer.Contents() == [] then Readable else Writable
    {
      ghost var sent, whole, done := outBuffer.Contents(), Drain(decoder.View()), [];
      AheadStarts(decoder.View());
      assert sent + [] == sent;
      var rsp := new RpcProtocol();
      var req := decoder.Decode();
      while req != null
        invariant Answering(service.serviceMap, whole, sent, done) && rsp != decoder.req && fresh(rsp)
        invariant req == if decoder.state.ParseSuccess? then decoder.req else null
        decreases |inBuffer.Contents()|, req != null
      {
        req, done := AnswerOne(service, rsp, whole, sent, done);
      }
      AheadEnds(done, decoder.View());
      if !outBuffer.Empty() {
        interest := Writable;
      } else {
        interest := Readable;
      }
    }

    /** The client takes one reply: it stops waiting when that is whole, or malformed. */
    method ClientExecute()
      requires Valid() && kind.ByClient?
      modifies this`interest, this`stopped, this`rspProtocol, decoder, decoder.req, inBuffer
      ensures Valid() && decoder.View() == RpcFrames.Decode(old(decoder.View()))
      ensures rspProtocol == if decoder.state.ParseSuccess? then decoder.req else null
      ensures stopped == (old(stopped) || Finished(decoder.state))
      ensures interest == if Finished(decoder.state) then old(interest) else Readable
    {
      rspProtocol := decoder.Decode();
      if decoder.IsFailed() {
        rspProtocol := null;
        stopped := true;
        return;
      }
      if rspProtocol != null {
        stopped := true;
      } else {
        interest := Readable;
      }
    }

    method Shutdown()
      modifies this`state
      ensures state == if old(state) in {Closed, NotConnected} then old(state) else HalfClosing
    {
      if state == Closed || state == NotConnected {
        return;
      }
      state := HalfClosing;
    }

    /** The reading loop: every byte received goes to the in-buffer, in order. */
    method Receive(results: seq<Recv>) returns (end: Recv)
      requires Valid() && |inBuffer.Contents()| + |Taken(results)| < TWO_64 / 2
      modifies inBuffer
      ensures Valid() && decoder.View() == Feed(old(decoder.View()), Taken(results))
      ensures end == ReadEnds(results)
    {
      ghost var before := decoder.View();
      assert before.input + [] == before.input;
      ghost var got: seq<Byte> := [];
      var i := 0;
      while i < |results|
        invariant i <= |results|
        invariant Valid() && decoder.View() == Feed(before, got)
        invariant got + Taken(results[i..]) == Taken(results) && ReadEnds(results[i..]) == ReadEnds(results)
      {
        assert results[i..][1..] == results[i + 1..];
        match results[i] {
          case Received(data) =>
            assert got + (data + Taken(results[i + 1..])) == (got + data) + Taken(results[i + 1..]);
            FeedTwice(before, got, data);
            inBuffer.Append(data);
            got := got + data;
          case ReadInterrupted =>
          case _ =>
            assert got + [] == got;
            return results[i];
        }
        i := i + 1;
      }
      assert got + [] == got;
      return ReadBlocks;
    }

    method Execute(service: RpcService)
      requires Valid()
      modifies this`interest, this`stopped, this`rspProtocol, decoder, decoder.req, inBuffer, outBuffer
      ensures Valid()
      ensures var r := Executed(kind, old(decoder.View()));
              && decoder.View() == r.decoder
              && outBuffer.Contents() == old(outBuffer.Contents()) + Replies(service.serviceMap, r.frames)
      ensures interest == InterestAfter(kind, old(interest), decoder.state, outBuffer.Contents() == [])
      ensures stopped == (old(stopped) || (kind.ByClient? && Finished(decoder.state)))
      ensures kind.ByClient? ==> rspProtocol == if decoder.state.ParseSuccess? then decoder.req else null
    {
      if kind.ByServer? {
        ServerExecute(service);
      } else {
        assert outBuffer.Contents() + [] == outBuffer.Contents();
        ClientExecute();
      }
    }

    /** A readable event.  What came with an error or a FIN is kept unread: nothing is executed. */
    method TcpRead(results: seq<Recv>, service: RpcService)
      requires Valid() && |inBuffer.Contents()| + |Taken(results)| < TWO_64 / 2
      modifies this, decoder, decoder.req, inBuffer, outBuffer
      ensures Valid()
      ensures var r := AfterRead(kind, old(state), old(decoder.View()), results);
              && decoder.View() == r.decoder
              && outBuffer.Contents() == old(outBuffer.Contents()) + Replies(service.serviceMap, r.frames)
      ensures var executes := !old(state).HalfClosing? && ReadEnds(results).ReadBlocks?;
              var fed := Feed(old(decoder.View()), Taken(results));
              && (executes && kind.ByServer? ==>
                    outBuffer.Contents() == old(outBuffer.Contents()) + Replies(service.serviceMap, Drain(fed).frames))
              && (executes && kind.ByClient? ==> decoder.View() == RpcFrames.Decode(fed))
              && (!executes || kind.ByClient? ==> outBuffer.Contents() == old(outBuffer.Contents()))
              && (!executes ==> decoder.state == old(decoder.state) && decoder.req.View() == old(decoder.req.View()))
      ensures state == StateAfterRead(kind, old(state), results)
      ensures state == if old(state).HalfClosing? || ReadEnds(results).PeerCloses?
                       then (if kind.ByServer? then Closed else old(state))
                       else if ReadEnds(results).ReadFails? && old(state) !in {NotConnected, Closed} then HalfClosing
                       else old(state)
      ensures var end := if old(state).HalfClosing? then PeerCloses else ReadEnds(results);
              && interest == (match end
                              case ReadBlocks => InterestAfter(kind, old(interest), decoder.state, outBuffer.Contents() == [])
                              case ReadFails => Readable
                              case _ => old(interest))
              && stopped == (old(stopped) || (kind.ByClient? &&
                             (end.PeerCloses? || (end.ReadBlocks? && Finished(decoder.state)))))
    {
      assert outBuffer.Contents() + [] == outBuffer.Contents();
      ReadEndsHow(results);
      if state == HalfClosing {
        PeerClosed();
        return;
      }
      var end := Receive(results);
      if end.ReadFails? {
        Shutdown();
        interest := Readable;
      } else if end.PeerCloses? {
        PeerClosed();
      } else {
        Execute(service);
      }
    }

    method PeerClosed()
      modifies this`state, this`stopped
      ensures state == if kind.ByServer? then Closed else old(state)
      ensures stopped == (old(stopped) || kind.ByClient?)
    {
      if kind.ByServer? {
        state := Closed;
      } else {
        stopped := true;
      }
    }

    /** The kernel accepts at most what it is given. */
    method SendPart(n: nat) returns (ghost part: seq<Byte>)
      requires outBuffer.Valid()
      modifies outBuffer
      ensures outBuffer.Valid() && part + outBuffer.Contents() == old(outBuffer.Contents())
      ensures |part| <= n && (|part| == n || outBuffer.Contents() == [])
    {
      var p := outBuffer.CStr();
      var len := if n <= |p| then n else |p|;
      part := p[..len];
      SplitAt(p, len);
      outBuffer.MoveForward(len);
    }

    method SendMore(n: nat, ghost queued: seq<Byte>, ghost wire: seq<Byte>, ghost taken: nat)
      returns (ghost more: seq<Byte>)
      requires outBuffer.Valid() && Sending(queued, wire, outBuffer.Contents(), taken) && outBuffer.Contents() != []
      modifies outBuffer
      ensures outBuffer.Valid() && Sending(queued, more, outBuffer.Contents(), taken + n)
    {
      ghost var part := SendPart(n);
      Associate(wire, part, outBuffer.Contents());
      more := wire + part;
    }

    /** The writing loop. */
    method SendAll(results: seq<Send>) returns (ghost wire: seq<Byte>, failed: bool)
      requires outBuffer.Valid()
      modifies outBuffer
      ensures outBuffer.Valid() && Sending(old(outBuffer.Contents()), wire, outBuffer.Contents(), Accepts(results))
      ensures outBuffer.Contents() == [] <==> Accepts(results) >= |old(outBuffer.Contents())|
      ensures failed <==> outBuffer.Contents() != [] && SendEnds(results).WriteFails?
    {
      ghost var before, taken := outBuffer.Contents(), 0;
      wire := [];
      failed := false;
      var i := 0;
      while !outBuffer.Empty() && i < |results|
        invariant i <= |results| && !failed && outBuffer.Valid() && Sending(before, wire, outBuffer.Contents(), taken)
        invariant EndsFrom(results, i) == SendEnds(results) && taken + AcceptsFrom(results, i) == Accepts(results)
      {
        match results[i] {
          case Sent(n) =>
            wire := SendMore(n, before, wire, taken);
            taken := taken + n;
          case WriteInterrupted =>
          case WriteBlocks =>
            break;
          case WriteFails =>
            failed := true;
            break;
        }
        i := i + 1;
      }
    }

    /** A writable event.  The bytes sent and the bytes still in the buffer are the bytes that were
        there; some are left exactly when the socket takes fewer than there are, and even then the
        connection registers for reading, not for writing. */
    method TcpWrite(results: seq<Send>) returns (ghost wire: seq<Byte>, complete: bool)
      requires Valid()
      modifies this`state, this`interest, outBuffer
      ensures Valid() && wire + outBuffer.Contents() == old(outBuffer.Contents())
      ensures complete <==> outBuffer.Contents() == []
      ensures complete <==> Accepts(results) >= |old(outBuffer.Contents())|
      ensures !complete ==> |wire| == Accepts(results)
      ensures interest == Readable
      ensures state == if !complete && SendEnds(results).WriteFails? && old(state).Connected? then HalfClosing
                       else old(state)
    {
      var failed;
      wire, failed := SendAll(results);
      if failed {
        Shutdown();
      }
      interest := Readable;
      complete := outBuffer.Empty();
    }

    /** The connection as the runs of events see it. */
    ghost function Seen(wire: seq<Byte>): Side
      requires Valid()
      reads this, decoder, decoder.req, inBuffer, outBuffer, decoder.inBuffer
    {
      Side(state, decoder.View(), outBuffer.Contents(), interest, wire)
    }

    method ServeEvent(e: Event, service: RpcService, ghost wire: seq<Byte>) returns (ghost more: seq<Byte>)
      requires Valid() && kind.ByServer? && |inBuffer.Contents()| + |Input(e)| < TWO_64 / 2
      modifies this, decoder, decoder.req, inBuffer, outBuffer
      ensures Valid() && Seen(more) == AfterEvent(service.serviceMap, old(Seen(wire)), e)
    {
      match e {
        case Reads(results) =>
          TcpRead(results, service);
          more := wire;
        case Writes(results) =>
          ghost var part, queued := [], outBuffer.Contents();
          var complete;
          part, complete := TcpWrite(results);
          SentPart(queued, part, outBuffer.Contents(), results);
          more := wire + part;
      }
    }

    /** The events of a connection, in the order they come, take it through the run that AfterAll
        describes; nothing queued before or in it is lost: it is on the wire or still queued, in order. */
    method ServeEvents(events: seq<Event>, service: RpcService) returns (ghost wire: seq<Byte>)
      requires Valid() && kind.ByServer? && !state.NotConnected?
      requires Possible(service.serviceMap, Seen([]), events) && |inBuffer.Contents()| + Ingested(events, 0) < TWO_64 / 2
      modifies this, decoder, decoder.req, inBuffer, outBuffer
      ensures Valid() && Seen(wire) == AfterAll(service.serviceMap, old(Seen([])), events)
      ensures wire + outBuffer.Contents() == old(outBuffer.Contents()) + Replies(service.serviceMap,
                DrainEach(old(decoder.View()), Chunks(service.serviceMap, old(Seen([])), events)).frames)
    {
      ghost var start, reg := Seen([]), service.serviceMap;
      wire := [];
      for i := 0 to |events|
        invariant Serving(reg, start, events, i, wire)
      {
        wire := ServeNext(events, i, service, wire, start);
      }
      assert events[..|events|] == events;
      NothingLost(reg, start, events);
      assert [] + start.queued == start.queued;
    }

    /** The first i events have been served. */
    ghost predicate Serving(reg: Registry, start: Side, events: seq<Event>, i: nat, wire: seq<Byte>)
      reads this, decoder, decoder.req, inBuffer, outBuffer, decoder.inBuffer
    {
      && Valid() && i <= |events| && Seen(wire) == AfterAll(reg, start, events[..i])
      && |inBuffer.Contents()| + Ingested(events, i) < TWO_64 / 2
    }

    method ServeNext(events: seq<Event>, i: nat, service: RpcService, ghost wire: seq<Byte>, ghost start: Side)
      returns (ghost more: seq<Byte>)
      requires kind.ByServer? && i < |events| && Serving(service.serviceMap, start, events, i, wire)
      modifies this, decoder, decoder.req, inBuffer, outBuffer
      ensures Serving(service.serviceMap, start, events, i + 1, more)
    {
      ghost var s := Seen(wire);
      AllButLast(service.serviceMap, start, events, i);
      EventInput(service.serviceMap, s, events[i]);
      more := ServeEvent(events[i], service, wire);
    }

    /** The client queues one request frame and waits to write it. */
    method Prepare(data: seq<Byte>, fullName: seq<Byte>, ids: Generator)
      requires Valid() && kind.ByClient? && ids.Valid()
      modifies this`interest, outBuffer, ids
      ensures Valid() && ids.Valid() && ids.calls == old(ids.calls) + 1
      ensures outBuffer.Contents() == old(outBuffer.Contents()) + Encode(Request(IdOfCall(ids.calls), fullName, data))
      ensures interest == Writable
    {
      var p := new RpcProtocol();
      var id := ids.GenerateMsgID();
      FillRequest(p, id, fullName, data);
      EncodeLength(p.View());
      RpcEncoder(p, outBuffer);
      if !outBuffer.Empty() {
        interest := Writable;
      }
    }
  }

  method FillRequest(p: RpcProtocol, id: seq<Byte>, fullName: seq<Byte>, data: seq<Byte>)
    modifies p
    ensures p.View() == Request(id, fullName, data)
  {
    p.msgId := id;
    p.msgIdLen := ToInt32(|p.msgId|);
    p.methodName := fullName;
    p.methodNameLen := ToInt32(|fullName|);
    SetProtocolError(p, ERROR_NONE, []);
    SmallInt32(p.errorInfoLen, 0);
    p.rpcData := data;
    p.pkLen := ToInt32(1 + 4 + 4 + p.msgIdLen + 4 + p.methodNameLen + 4 + 4 + p.errorInfoLen + |p.rpcData| + 4 + 1);
    FillCheckSum(p);
  }

  lemma {:induction false} DrainEachSnoc(d: Decoder, chunks: seq<seq<Byte>>, c: seq<Byte>)
    ensures var cut := DrainEach(d, chunks);
            var last := Drain(Feed(cut.decoder, c));
            DrainEach(d, chunks + [c]) == Drained(last.decoder, cut.frames + last.frames)
    decreases |chunks|
  {
    if chunks == [] {
      assert (chunks + [c])[1..] == [];
      var last := Drain(Feed(d, c));
      assert last.frames + [] == last.frames && [] + last.frames == last.frames;
    } else {
      var first := Drain(Feed(d, chunks[0]));
      assert (chunks + [c])[1..] == chunks[1..] + [c];
      DrainEachSnoc(first.decoder, chunks[1..], c);
      var cut := DrainEach(first.decoder, chunks[1..]);
      var last := Drain(Feed(cut.decoder, c));
      assert first.frames + (cut.frames + last.frames) == (first.frames + cut.frames) + last.frames;
    }
  }

  lemma {:induction false} RepliesConcat(reg: Registry, a: seq<Frame>, b: seq<Frame>)
    ensures Replies(reg, a + b) == Replies(reg, a) + Replies(reg, b)
    decreases |b|
  {
    if b == [] {
      assert a + b == a;
    } else {
      var h := b[..|b| - 1];
      assert a + b == (a + h) + [b[|b| - 1]] && b == h + [b[|b| - 1]];
      RepliesSnoc(reg, a + h, b[|b| - 1]);
      RepliesSnoc(reg, h, b[|b| - 1]);
      RepliesConcat(reg, a, h);
      Associate(Replies(reg, a), Replies(reg, h), Reply(reg, b[|b| - 1]));
    }
  }

  lemma {:induction false} DrainShrinks(d: Decoder)
    ensures |Drain(d).decoder.input| <= |d.input|
    decreases |d.input|, if Finished(d.state) then 0 else 1
  {
    DecodeProgress(d);
    if RpcFrames.Decode(d).state.ParseSuccess? {
      DrainShrinks(RpcFrames.Decode(d));
    }
  }

  /** What a drain gives in all, once the frames done have been dealt with and the decoder has returned
      in the state of d. */
  ghost function Ahead(done: seq<Frame>, d: Decoder): Drained {
    if d.state.ParseSuccess? then
      var rest := Drain(d);
      Drained(rest.decoder, done + [d.frame] + rest.frames)
    else Drained(d, done)
  }

  lemma AheadStarts(d: Decoder)
    ensures Drain(d) == Ahead([], Decode(d))
  {
  }

  lemma AnswerSteps(reg: Registry, sent: seq<Byte>, done: seq<Frame>, d: Decoder)
    requires d.state.ParseSuccess?
    ensures Ahead(done, d) == Ahead(done + [d.frame], RpcFrames.Decode(d))
    ensures (sent + Replies(reg, done)) + Reply(reg, d.frame) == sent + Replies(reg, done + [d.frame])
    ensures var e := RpcFrames.Decode(d); |e.input| <= |d.input| && (e.state.ParseSuccess? ==> |e.input| < |d.input|)
  {
    AheadSteps(done, d);
    DecodeProgress(d);
    RepliesSnoc(reg, done, d.frame);
    Associate(sent, Replies(reg, done), Reply(reg, d.frame));
  }

  lemma SplitAt(s: seq<Byte>, n: nat)
    requires n <= |s|
    ensures s[..n] + s[n..] == s && |s[..n]| == n && (s[n..] == [] <==> n == |s|)
  {
  }

  lemma Associate(a: seq<Byte>, b: seq<Byte>, c: seq<Byte>)
    ensures (a + b) + c == a + (b + c)
  {
  }

  lemma AheadEnds(done: seq<Frame>, d: Decoder)
    requires !d.state.ParseSuccess?
    ensures Ahead(done, d) == Drained(d, done)
  {
  }

  lemma AheadSteps(done: seq<Frame>, d: Decoder)
    requires d.state.ParseSuccess?
    ensures Ahead(done, d) == Ahead(done + [d.frame], Decode(d))
  {
  }
}
