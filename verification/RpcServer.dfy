/** From a stream of requests to the stream of replies, and back to the client. */
module RpcServer {
  import opened Options
  import opened Words
  import opened RpcFrames
  import opened RpcCodec
  import opened RpcStream

  // ----------------------------------------------------------- error codes

  const ERROR_NONE: Int32 := 0
  const ERROR_PARSE_METHOD_NAME: Int32 := 1
  const ERROR_SERVICE_NOT_FOUND: Int32 := 2
  const ERROR_SERIALIZE_FAILED: Int32 := 3
  const ERROR_DESERIALIZE_FAILED: Int32 := 4

  const DOT: Byte := 0x2E

  function Ascii(s: string): (r: seq<Byte>)
    ensures |r| == |s| && forall i :: 0 <= i < |s| && s[i] as int < 256 ==> r[i] == s[i] as int
  {
    seq(|s|, i requires 0 <= i < |s| => s[i] as int % 256)
  }

  /** The numbers that peers agree on. */
  lemma ErrorCodes()
    ensures ERROR_NONE == 0 && ERROR_PARSE_METHOD_NAME == 1 && ERROR_SERVICE_NOT_FOUND == 2
    ensures ERROR_SERIALIZE_FAILED == 3 && ERROR_DESERIALIZE_FAILED == 4
    ensures DOT == '.' as int
  {
  }

  // --------------------------------------------------------------- services

  /** A registered method: whether it can parse its argument, and the serialised response, or None
      when serialising fails. */
  datatype Method = Method(parses: seq<Byte> -> bool, respond: seq<Byte> -> Option<seq<Byte>>)
  type Service = map<seq<Byte>, Method>
  type Registry = map<seq<Byte>, Service>

  /** The position of the first '.', if any. */
  function FirstDot(name: seq<Byte>): (r: Option<nat>)
    ensures r.Some? ==> r.value < |name| && name[r.value] == DOT && forall i :: 0 <= i < r.value ==> name[i] != DOT
    ensures r.None? ==> DOT !in name
  {
    if name == [] then None
    else if name[0] == DOT then Some(0)
    else match FirstDot(name[1..]) case None => None case Some(p) => Some(p + 1)
  }

  /** The method a full name of the form service.method leads to. */
  function Lookup(reg: Registry, name: seq<Byte>): Option<Method> {
    match FirstDot(name)
    case None => None
    case Some(p) =>
      if name[..p] in reg && name[p + 1..] in reg[name[..p]] then Some(reg[name[..p]][name[p + 1..]]) else None
  }

  /** A request that is dispatched: its method exists and accepts its data. */
  predicate Dispatched(reg: Registry, f: Frame) {
    Lookup(reg, f.methodName).Some? && Lookup(reg, f.methodName).value.parses(f.rpcData)
  }

  /** The reply frame of a dispatched request. */
  function ReplyFrame(reg: Registry, f: Frame): Frame
    requires Dispatched(reg, f)
  {
    var response := Lookup(reg, f.methodName).value.respond(f.rpcData);
    var (code, info, data) :=
      if response.Some? then (ERROR_NONE, [], response.value) else (ERROR_SERIALIZE_FAILED, Ascii("serialize error"), []);
    Frame(ToInt32(26 + f.msgIdLen + f.methodNameLen + |info| + |data|), f.msgIdLen, f.msgId,
          f.methodNameLen, f.methodName, code, |info|, info, data, 0)
  }

  /** What `process` appends to the out buffer: one frame, or nothing on its error paths. */
  function Reply(reg: Registry, f: Frame): seq<Byte> {
    if Dispatched(reg, f) then Encode(ReplyFrame(reg, f)) else []
  }

  function Replies(reg: Registry, fs: seq<Frame>): seq<Byte> {
    if fs == [] then [] else Reply(reg, fs[0]) + Replies(reg, fs[1..])
  }

  /** Request by request, in order. */
  lemma {:induction false} RepliesAre(reg: Registry, fs: seq<Frame>)
    ensures Replies(reg, fs) == Concat(seq(|fs|, i requires 0 <= i < |fs| => Reply(reg, fs[i])))
  {
    if fs != [] {
      RepliesAre(reg, fs[1..]);
      var all := seq(|fs|, i requires 0 <= i < |fs| => Reply(reg, fs[i]));
      assert all[1..] == seq(|fs[1..]|, i requires 0 <= i < |fs[1..]| => Reply(reg, fs[1..][i]));
    }
  }

  /** No string that the reply depends on was declared empty: a method name without a dot leads to no
      method, so that only the name matters. */
  predicate Steady(f: Frame) {
    f.methodNameLen != 0 && (DOT in f.methodName ==> f.msgIdLen != 0 && DataLen(f) != 0)
  }

  lemma NoDot(name: seq<Byte>)
    requires DOT !in name
    ensures FirstDot(name).None?
  {
  }

  /** Replies do not depend on what the other zero-length strings were filled with. */
  lemma ReplyOfClean(reg: Registry, f: Frame)
    requires Steady(f)
    ensures Reply(reg, Clean(f)) == Reply(reg, f)
  {
    if DOT !in f.methodName {
      NoDot(f.methodName);
    }
  }

  lemma {:induction false} RepliesOfClean(reg: Registry, fs: seq<Frame>)
    requires forall i :: 0 <= i < |fs| ==> Steady(fs[i])
    ensures Replies(reg, CleanAll(fs)) == Replies(reg, fs)
  {
    if fs != [] {
      ReplyOfClean(reg, fs[0]);
      RepliesOfClean(reg, fs[1..]);
      assert CleanAll(fs)[1..] == CleanAll(fs[1..]);
    }
  }

  lemma {:induction false} CleanAllAt(fs: seq<Frame>, i: nat)
    requires i < |fs|
    ensures CleanAll(fs)[i] == Clean(fs[i])
  {
    if i > 0 {
      CleanAllAt(fs[1..], i - 1);
    }
  }

  lemma SteadyClean(f: Frame)
    ensures Steady(Clean(f)) <==> Steady(f)
  {
  }

  lemma SteadyOfClean(fs: seq<Frame>, clean: seq<Frame>)
    requires CleanAll(fs) == clean && forall i :: 0 <= i < |clean| ==> Steady(clean[i])
    ensures forall i :: 0 <= i < |fs| ==> Steady(fs[i])
  {
    forall i | 0 <= i < |fs|
      ensures Steady(fs[i])
    {
      CleanAllAt(fs, i);
      SteadyClean(fs[i]);
    }
  }

  // -------------------------------------------------- streams of whole frames

  function EncodeAll(fs: seq<Frame>): seq<Byte> {
    if fs == [] then [] else Encode(fs[0]) + EncodeAll(fs[1..])
  }

  /** The beginning of some frame, not the whole of it. */
  ghost predicate PartialFrame(p: seq<Byte>) {
    p == [] || exists g: Frame :: Consistent(g) && p < Encode(g)
  }

  lemma FinishedStays(d: Decoder)
    requires Finished(d.state)
    ensures Run(d) == d
  {
  }

  lemma AlikeInput(a: Decoder, b: Decoder)
    requires Alike(a, b)
    ensures a.state == b.state && a.input == b.input
  {
  }

  /** Once a frame is finished, later bytes stay unread. */
  lemma FinishedLeavesRest(d: Decoder, x: seq<Byte>)
    requires Sound(d) && Finished(Run(d).state)
    ensures Run(Feed(d, x)).input == Run(d).input + x
  {
    var r := Run(d);
    RunFeeds(d, x);
    FinishedStays(Feed(r, x));
    AlikeInput(Run(Feed(d, x)), Run(Feed(r, x)));
  }

  /** A proper prefix of input the decoder takes up entirely does not finish a frame. */
  lemma PrefixWaits(p: seq<Byte>, x: seq<Byte>, remainLen: nat)
    requires x != [] && Run(Fresh(p + x, remainLen)).input == []
    ensures !Finished(Run(Fresh(p, remainLen)).state)
  {
    var d := Fresh(p, remainLen);
    if Finished(Run(d).state) {
      FreshIsSound(p, remainLen);
      FinishedLeavesRest(d, x);
    }
  }

  /** A partial frame makes the decoder wait: neither a failure nor a frame. */
  lemma PartialWaits(p: seq<Byte>, remainLen: nat)
    requires PartialFrame(p)
    ensures !Finished(Run(Fresh(p, remainLen)).state)
  {
    if p != [] {
      var g: Frame :| Consistent(g) && p < Encode(g);
      PrintThenParse(g, [], remainLen);
      assert p + Encode(g)[|p|..] == Encode(g) + [];
      PrefixWaits(p, Encode(g)[|p|..], remainLen);
    }
  }

  /** A stream of frames and a partial one is decoded into exactly those frames, and what remains
      waits for more. */
  lemma {:induction false} DrainFrames(fs: seq<Frame>, p: seq<Byte>, d: Decoder)
    requires forall i :: 0 <= i < |fs| ==> Consistent(fs[i])
    requires PartialFrame(p)
    requires Ready(d) == Fresh(EncodeAll(fs) + p, d.remainLen)
    ensures CleanAll(Drain(d).frames) == fs && !Finished(Drain(d).decoder.state)
    decreases |fs|
  {
    if fs == [] {
      assert [] + p == p;
      PartialWaits(p, d.remainLen);
    } else {
      FirstFrame(fs, p, d);
      DrainFrames(fs[1..], p, Decode(d));
      DrainOne(d, Decode(d));
      assert fs == [fs[0]] + fs[1..];
    }
  }

  lemma FirstFrame(fs: seq<Frame>, p: seq<Byte>, d: Decoder)
    requires fs != [] && Consistent(fs[0])
    requires Ready(d) == Fresh(EncodeAll(fs) + p, d.remainLen)
    ensures var e := Decode(d);
            && e.state.ParseSuccess? && Clean(e.frame) == fs[0]
            && Ready(e) == Fresh(EncodeAll(fs[1..]) + p, e.remainLen)
  {
    var rest := EncodeAll(fs[1..]) + p;
    assert (Encode(fs[0]) + EncodeAll(fs[1..])) + p == Encode(fs[0]) + rest;
    PrintThenParse(fs[0], rest, d.remainLen);
  }

  /** Request streams.  Whatever way a stream of requests and a partial one is cut into reads, the
      server's out buffer receives the replies to the requests, in order: one frame for each that is
      dispatched and nothing for the others. */
  lemma EveryCuttingSameReplies(reg: Registry, requests: seq<Frame>, p: seq<Byte>, chunks: seq<seq<Byte>>, remainLen: nat)
    requires forall i :: 0 <= i < |requests| ==> Consistent(requests[i]) && Steady(requests[i])
    requires PartialFrame(p) && chunks != [] && Concat(chunks) == EncodeAll(requests) + p
    ensures var cut := DrainEach(Fresh([], remainLen), chunks);
            && Replies(reg, cut.frames) == Replies(reg, requests)
            && CleanAll(cut.frames) == requests
            && !Finished(cut.decoder.state)
  {
    var d := Fresh([], remainLen);
    var whole := Feed(d, Concat(chunks));
    assert [] + Concat(chunks) == Concat(chunks);
    FreshIsSound([], remainLen);
    DrainFrames(requests, p, whole);
    EveryCuttingAlike(d, chunks);
    var cut := DrainEach(d, chunks);
    SteadyOfClean(cut.frames, requests);
    RepliesOfClean(reg, cut.frames);
  }

  // --------------------------------------------- when the cutting matters

  /** A registry in which one full name leads to a method that returns its data. */
  ghost function Echoing(name: seq<Byte>): Registry
    requires FirstDot(name).Some?
  {
    var p := FirstDot(name).value;
    map[name[..p] := map[name[p + 1..] := Method(_ => true, data => Some(data))]]
  }

  lemma EchoReply(name: seq<Byte>, f: Frame)
    requires FirstDot(name).Some?
    ensures f.methodName == name ==> |Reply(Echoing(name), f)| == 26 + |f.msgId| + |name| + |f.rpcData|
    ensures |f.methodName| != |name| && (FirstDot(f.methodName).Some? ==> FirstDot(f.methodName) == FirstDot(name)) ==>
              Reply(Echoing(name), f) == []
  {
    if f.methodName == name {
      EncodeLength(ReplyFrame(Echoing(name), f));
    }
  }

  lemma {:induction false} DotBehind(name: seq<Byte>, x: seq<Byte>)
    requires DOT in x
    ensures FirstDot(name + x).Some?
    ensures FirstDot(name).Some? ==> FirstDot(name) == FirstDot(name + x)
  {
    if name == [] {
      assert name + x == x;
    } else {
      assert (name + x)[1..] == name[1..] + x;
      DotBehind(name[1..], x);
    }
  }

  /** The beginning of a frame of 46 bytes, which is a dot's code. */
  const DOTTED: seq<Byte> := [START_FLAG, 0, 0, 0, DOT]

  lemma DottedIsPartial()
    ensures PartialFrame(DOTTED)
  {
    var g := Frame(46, 0, [], 0, [], 0, 0, [], seq(20, i => 0), 0);
    var p := Pieces(g);
    ConcatSnoc(p, 0);
    ConcatSnoc(p, 1);
    assert p[0..] == p && Encode(g) == p[0] + (p[1] + Concat(p[2..]));
    assert Consistent(g) && DOTTED < Encode(g);
  }

  /** Otherwise what is behind the frame shows in some method's reply. */
  lemma ReplyDiffers(f: Frame, x: seq<Byte>)
    requires Consistent(f) && !Steady(f) && DOT in x
    ensures exists reg: Registry :: Reply(reg, Filled(f, x)) != Reply(reg, Filled(f, []))
  {
    var g, h := Filled(f, x), Filled(f, []);
    DeclaredData(f);
    FilledMore(f, x);
    if f.methodName == [] {
      DotBehind(h.methodName, x);
    } else {
      DotBehind([], f.methodName);
      assert [] + f.methodName == f.methodName;
    }
    var reg := Echoing(g.methodName);
    EchoReply(g.methodName, g);
    EchoReply(g.methodName, h);
    assert |Reply(reg, g)| != |Reply(reg, h)|;
  }

  lemma FilledMore(f: Frame, x: seq<Byte>)
    ensures var g, h := Filled(f, x), Filled(f, []);
            && g.msgId == (if f.msgId == [] then h.msgId + x else h.msgId)
            && g.methodName == (if f.methodName == [] then h.methodName + x else h.methodName)
            && g.rpcData == (if f.rpcData == [] then h.rpcData + x else h.rpcData)
  {
    forall k | k in {4, 6, 10}
      ensures Behind(f, x, k) == Behind(f, [], k) + x
    {
    }
  }

  /** A cutting shows in the replies to a request exactly when it is not steady: if it is steady, all
      cuttings of it with a partial frame behind it give the same replies, whatever is registered; if
      not, two cuttings of such a stream do not, for some registry. */
  lemma CuttingIndependentIff(f: Frame)
    requires Consistent(f)
    ensures (forall reg: Registry, p: seq<Byte>, a: seq<seq<Byte>>, b: seq<seq<Byte>> ::
               SameStream(f, p, a, b) ==> RepliesTo(reg, a) == RepliesTo(reg, b))
            <==> Steady(f)
  {
    if Steady(f) {
      forall reg: Registry, p: seq<Byte>, a: seq<seq<Byte>>, b: seq<seq<Byte>> | SameStream(f, p, a, b)
        ensures RepliesTo(reg, a) == RepliesTo(reg, b)
      {
        SteadyReply(reg, f, p, a);
        SteadyReply(reg, f, p, b);
      }
    } else {
      var reg := UnsteadyReply(f);
      assert !(SameStream(f, DOTTED, [Encode(f) + DOTTED], [Encode(f), DOTTED])
               ==> RepliesTo(reg, [Encode(f) + DOTTED]) == RepliesTo(reg, [Encode(f), DOTTED]));
    }
  }

  lemma UnsteadyReply(f: Frame) returns (reg: Registry)
    requires Consistent(f) && !Steady(f)
    ensures SameStream(f, DOTTED, [Encode(f) + DOTTED], [Encode(f), DOTTED])
    ensures RepliesTo(reg, [Encode(f) + DOTTED]) != RepliesTo(reg, [Encode(f), DOTTED])
  {
    DottedIsPartial();
    assert DOTTED[4] == DOT;
    ReplyDiffers(f, DOTTED);
    reg :| Reply(reg, Filled(f, DOTTED)) != Reply(reg, Filled(f, []));
    InOneChunk(reg, f, DOTTED);
    InTwoChunks(reg, f, DOTTED);
  }

  /** What a server that reads these chunks queues. */
  ghost function RepliesTo(reg: Registry, chunks: seq<seq<Byte>>): seq<Byte> {
    Replies(reg, DrainEach(Fresh([], 0), chunks).frames)
  }

  lemma SteadyReply(reg: Registry, f: Frame, p: seq<Byte>, chunks: seq<seq<Byte>>)
    requires Consistent(f) && Steady(f) && PartialFrame(p) && chunks != [] && Concat(chunks) == Encode(f) + p
    ensures RepliesTo(reg, chunks) == Replies(reg, [f])
  {
    assert [f][1..] == [] && Encode(f) + [] == Encode(f);
    assert EncodeAll([f]) == Encode(f);
    EveryCuttingSameReplies(reg, [f], p, chunks, 0);
  }

  /** A partial frame in the same chunk fills the empty strings of the request before it. */
  lemma InOneChunk(reg: Registry, f: Frame, p: seq<Byte>)
    requires Consistent(f) && PartialFrame(p)
    ensures RepliesTo(reg, [Encode(f) + p]) == Reply(reg, Filled(f, p)) && Concat([Encode(f) + p]) == Encode(f) + p
  {
    var c: seq<Byte> := Encode(f) + p;
    DrainOneFrame(f, p);
    var one: seq<seq<Byte>> := [c];
    assert [] + c == c && one[1..] == [] && c + [] == c;
    assert DrainEach(Fresh([], 0), one).frames == [Filled(f, p)] + [];
    RepliesOne(reg, Filled(f, p));
  }

  /** One in a chunk of its own does not. */
  lemma InTwoChunks(reg: Registry, f: Frame, p: seq<Byte>)
    requires Consistent(f) && PartialFrame(p)
    ensures RepliesTo(reg, [Encode(f), p]) == Reply(reg, Filled(f, [])) && Concat([Encode(f), p]) == Encode(f) + p
  {
    var c := Encode(f);
    DrainOneFrame(f, []);
    assert [] + c == c && [c, p][1..] == [p] && [p][1..] == [] && c + [] == c && p + [] == p;
    var first := Drain(Fresh(c, 0));
    ThenPartial(first.decoder, p);
    assert Concat([c, p]) == c + Concat([p]) && Concat([p]) == p + Concat([]);
    assert DrainEach(Fresh([], 0), [c, p]).frames == first.frames + DrainEach(first.decoder, [p]).frames;
    RepliesOne(reg, Filled(f, []));
  }

  lemma ThenPartial(d: Decoder, p: seq<Byte>)
    requires d == Fresh([], d.remainLen) && PartialFrame(p)
    ensures DrainEach(d, [p]).frames == []
  {
    assert [] + p == p && [p][1..] == [];
    DrainFrames([], p, Feed(d, p));
  }

  lemma RepliesOne(reg: Registry, f: Frame)
    ensures Replies(reg, [f]) == Reply(reg, f)
  {
    assert [f][1..] == [] && Replies(reg, []) == [];
  }

  /** Two cuttings of a request with a partial frame behind it. */
  ghost predicate SameStream(f: Frame, p: seq<Byte>, a: seq<seq<Byte>>, b: seq<seq<Byte>>) {
    PartialFrame(p) && a != [] && b != [] && Concat(a) == Concat(b) == Encode(f) + p
  }

  lemma DrainOneFrame(f: Frame, p: seq<Byte>)
    requires Consistent(f) && PartialFrame(p)
    ensures var r := Drain(Fresh(Encode(f) + p, 0));
            r.frames == [Filled(f, p)] && (p == [] ==> r.decoder == Fresh([], r.decoder.remainLen))
  {
    DecodesTo(f, p, 0);
    var d := Fresh(Encode(f) + p, 0);
    var e := Decode(d);
    DrainFrames([], p, e);
    DrainOne(d, e);
    assert [Filled(f, p)] + [] == [Filled(f, p)];
  }

  // -------------------------------------------------------------- replies

  lemma ReplyLengths(reg: Registry, f: Frame)
    requires Consistent(f) && Dispatched(reg, f)
    ensures var r := ReplyFrame(reg, f);
            && r.msgId == f.msgId && r.methodName == f.methodName
            && (26 + |r.msgId| + |r.methodName| + |r.errorInfo| + |r.rpcData| < 0x8000_0000 ==> Consistent(r))
  {
  }

  /** A reply echoes the request's id and method; short of 2^31 bytes it is a consistent frame. */
  lemma ReplyIsConsistent(reg: Registry, f: Frame)
    requires Consistent(f) && Dispatched(reg, f)
    ensures var r := ReplyFrame(reg, f);
            && r.msgId == f.msgId && r.methodName == f.methodName
            && (|Encode(r)| < 0x8000_0000 ==> Consistent(r))
  {
    var r := ReplyFrame(reg, f);
    ReplyLengths(reg, f);
    EncodeLength(r);
  }

  // --------------------------------------------------------------- a call

  /** The request `prepare` builds. */
  function Request(msgId: seq<Byte>, fullName: seq<Byte>, data: seq<Byte>): Frame {
    var idLen, nameLen := ToInt32(|msgId|), ToInt32(|fullName|);
    Frame(ToInt32(26 + idLen + nameLen + |data|), idLen, msgId, nameLen, fullName, ERROR_NONE, 0, [], data, 0)
  }

  lemma RequestIsConsistent(msgId: seq<Byte>, fullName: seq<Byte>, data: seq<Byte>)
    requires 26 + |msgId| + |fullName| + |data| < 0x8000_0000
    ensures Consistent(Request(msgId, fullName, data))
    ensures var q := Request(msgId, fullName, data);
            && q.msgId == msgId && q.methodName == fullName && q.rpcData == data
            && q.errorCode == 0 && q.errorInfo == [] && q.checkSum == 0
    ensures Steady(Request(msgId, fullName, data)) <==> fullName != [] && (DOT in fullName ==> msgId != [] && data != [])
  {
    DeclaredData(Request(msgId, fullName, data));
  }

  /** Short of its last bytes a frame is never taken for finished. */
  lemma {:induction false} WholeFrameWaits(d: Decoder, chunks: seq<seq<Byte>>)
    requires Sound(d) && !Finished(d.state) && chunks != [] && chunks[|chunks| - 1] != []
    requires var w := Decode(Feed(d, Concat(chunks))); w.state.ParseSuccess? && w.input == []
    ensures Unfinished(d, chunks)
    decreases |chunks|
  {
    if |chunks| > 1 {
      FeedKeepsSound(d, chunks[0]);
      DecodeKeepsSound(Feed(d, chunks[0]));
      LastShows(chunks[1..]);
      FirstWaits(d, chunks[0], Concat(chunks[1..]));
      WholeFrameWaits(Decode(Feed(d, chunks[0])), chunks[1..]);
    }
  }

  /** A read that is not the last leaves the frame unfinished, and what follows finishes it. */
  lemma FirstWaits(d: Decoder, c: seq<Byte>, x: seq<Byte>)
    requires Sound(d) && !Finished(d.state) && x != []
    requires var w := Decode(Feed(d, c + x)); w.state.ParseSuccess? && w.input == []
    ensures var e := Decode(Feed(d, c));
            && !Finished(e.state)
            && var w := Decode(Feed(e, x)); w.state.ParseSuccess? && w.input == []
  {
    var e := Decode(Feed(d, c));
    FeedKeepsSound(d, c);
    DecodeFeeds(Feed(d, c), x);
    FeedTwice(d, c, x);
    AlikeInput(Decode(Feed(d, c + x)), Run(Feed(e, x)));
    if Finished(e.state) {
      FinishedStays(Feed(e, x));
    }
  }

  lemma {:induction false} LastShows(chunks: seq<seq<Byte>>)
    requires chunks != [] && chunks[|chunks| - 1] != []
    ensures Concat(chunks) != []
  {
    if |chunks| > 1 {
      LastShows(chunks[1..]);
    }
  }

  lemma WholeArrives(f: Frame, chunks: seq<seq<Byte>>, d: Decoder)
    requires Consistent(f) && d == Fresh([], d.remainLen) && Concat(chunks) == Encode(f)
    ensures Sound(d)
    ensures var w := Decode(Feed(d, Concat(chunks))); w.state.ParseSuccess? && w.input == [] && Clean(w.frame) == f
  {
    FreshIsSound([], d.remainLen);
    PrintThenParse(f, [], d.remainLen);
    assert [] + Encode(f) == Encode(f) + [];
  }

  lemma CutAsWhole(d: Decoder, chunks: seq<seq<Byte>>)
    requires Sound(d) && !Finished(d.state) && chunks != [] && chunks[|chunks| - 1] != []
    requires var w := Decode(Feed(d, Concat(chunks))); w.state.ParseSuccess? && w.input == []
    ensures var w, r := Decode(Feed(d, Concat(chunks))), DecodeEach(d, chunks);
            Unfinished(d, chunks) && r.state.ParseSuccess? && r.input == [] && Clean(r.frame) == Clean(w.frame)
  {
    WholeFrameWaits(d, chunks);
    ChunksAsWhole(d, chunks);
    AlikeArrives(Decode(Feed(d, Concat(chunks))), DecodeEach(d, chunks));
  }

  /** A frame that arrives at the client in any pieces is decoded by the last of them. */
  lemma AnyCuttingArrives(f: Frame, chunks: seq<seq<Byte>>, d: Decoder)
    requires Consistent(f) && chunks != [] && chunks[|chunks| - 1] != [] && Concat(chunks) == Encode(f)
    requires d == Fresh([], d.remainLen)
    ensures var r := DecodeEach(d, chunks);
            Unfinished(d, chunks) && r.state.ParseSuccess? && r.input == [] && Clean(r.frame) == f
  {
    WholeArrives(f, chunks, d);
    CutAsWhole(d, chunks);
  }

  lemma AlikeArrives(a: Decoder, b: Decoder)
    requires Alike(a, b) && a.state.ParseSuccess?
    ensures b.state.ParseSuccess? && a.input == b.input && Clean(a.frame) == Clean(b.frame)
  {
    AlikeInput(a, b);
    AlikeFrames(a, b);
  }

  /** A remote call.  However the request is cut on its way to the server and the reply on its way
      back, the client ends with one reply frame, which carries its own message id and the method's
      response, or the serialisation error. */
  lemma RemoteCall(reg: Registry, msgId: seq<Byte>, fullName: seq<Byte>, data: seq<Byte>,
                   toServer: seq<seq<Byte>>, toClient: seq<seq<Byte>>)
    requires msgId != [] && fullName != [] && data != [] && 26 + |msgId| + |fullName| + |data| < 0x8000_0000
    requires Dispatched(reg, Request(msgId, fullName, data))
    requires toServer != [] && Concat(toServer) == Encode(Request(msgId, fullName, data))
    requires toClient != [] && toClient[|toClient| - 1] != []
    requires Concat(toClient) == Replies(reg, DrainEach(Fresh([], 0), toServer).frames)
    requires |Concat(toClient)| < 0x8000_0000
    ensures var r := DecodeEach(Fresh([], 0), toClient);
            && r.state.ParseSuccess? && r.input == []
            && r.frame.msgId == msgId && r.frame.methodName == fullName
            && var sent := r.frame.pkLen - 26 - r.frame.msgIdLen - r.frame.methodNameLen - r.frame.errorInfoLen;
               match Lookup(reg, fullName).value.respond(data)
               case Some(response) =>
                 && r.frame.errorCode == 0 && r.frame.errorInfoLen == 0
                 && sent == |response| && (response != [] ==> r.frame.rpcData == response)
               case None =>
                 && r.frame.errorCode == 3 && r.frame.errorInfo == Ascii("serialize error")
                 && r.frame.errorInfoLen == 15 && sent == 0
  {
    var q := Request(msgId, fullName, data);
    RequestIsConsistent(msgId, fullName, data);
    assert Encode(q) == EncodeAll([q]) + [] by {
      assert [q][1..] == [] && EncodeAll([q]) == Encode(q) + EncodeAll([]);
    }
    EveryCuttingSameReplies(reg, [q], [], toServer, 0);
    OneReply(reg, q);
    ReplyIsConsistent(reg, q);
    AnyCuttingArrives(ReplyFrame(reg, q), toClient, Fresh([], 0));
    DeclaredData(ReplyFrame(reg, q));
    FieldsOfClean(DecodeEach(Fresh([], 0), toClient).frame, ReplyFrame(reg, q));
  }

  /** In particular when nothing is cut. */
  lemma RemoteCallUncut(reg: Registry, msgId: seq<Byte>, fullName: seq<Byte>, data: seq<Byte>)
    requires msgId != [] && fullName != [] && data != [] && 26 + |msgId| + |fullName| + |data| < 0x8000_0000
    requires Dispatched(reg, Request(msgId, fullName, data))
    requires |Encode(ReplyFrame(reg, Request(msgId, fullName, data)))| < 0x8000_0000
    ensures var sent := Encode(Request(msgId, fullName, data));
            var got := Replies(reg, DrainEach(Fresh([], 0), [sent]).frames);
            var r := DecodeEach(Fresh([], 0), [got]);
            r.state.ParseSuccess? && r.input == [] && r.frame.msgId == msgId
  {
    var q := Request(msgId, fullName, data);
    var sent := Encode(q);
    var got := Replies(reg, DrainEach(Fresh([], 0), [sent]).frames);
    OneChunk([sent]);
    OneChunk([got]);
    RequestIsConsistent(msgId, fullName, data);
    assert Encode(q) == EncodeAll([q]) + [] by {
      assert [q][1..] == [] && EncodeAll([q]) == Encode(q) + EncodeAll([]);
    }
    EveryCuttingSameReplies(reg, [q], [], [sent], 0);
    OneReply(reg, q);
    EncodeLength(ReplyFrame(reg, q));
    RemoteCall(reg, msgId, fullName, data, [sent], [got]);
  }

  lemma OneReply(reg: Registry, f: Frame)
    requires Dispatched(reg, f)
    ensures Replies(reg, [f]) == Encode(ReplyFrame(reg, f))
  {
    assert [f][1..] == [] && Replies(reg, [f]) == Reply(reg, f) + Replies(reg, []);
  }

  lemma FieldsOfClean(g: Frame, f: Frame)
    requires Clean(g) == f && Consistent(f)
    ensures g.errorCode == f.errorCode && g.pkLen == f.pkLen && g.msgIdLen == |f.msgId|
    ensures g.methodNameLen == |f.methodName| && g.errorInfoLen == |f.errorInfo|
    ensures g.pkLen - 26 - g.msgIdLen - g.methodNameLen - g.errorInfoLen == |f.rpcData|
    ensures f.msgId != [] ==> g.msgId == f.msgId
    ensures f.methodName != [] ==> g.methodName == f.methodName
    ensures f.errorInfo != [] ==> g.errorInfo == f.errorInfo
    ensures f.rpcData != [] ==> g.rpcData == f.rpcData
  {
  }
}
