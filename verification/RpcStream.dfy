/** The decoder over a byte stream that arrives in pieces: every cutting decodes alike. */
module RpcStream {
  import opened Words
  import opened RpcFrames
  import opened RpcCodec

  /** How many pieces of the frame have been stored; after a failure none counts, the next call
      clears them. */
  function Known(s: State): nat { if s.ParseFailed? then 0 else Rank(s) }

  /** The stored part of a frame, zero-length fields blank; what is not stored yet does not show. */
  function Seen(f: Frame, k: nat): Frame {
    Frame(
      if k > 1 then f.pkLen else 0,
      if k > 2 then f.msgIdLen else 0,
      if k > 3 && f.msgIdLen != 0 then f.msgId else [],
      if k > 4 then f.methodNameLen else 0,
      if k > 5 && f.methodNameLen != 0 then f.methodName else [],
      if k > 6 then f.errorCode else 0,
      if k > 7 then f.errorInfoLen else 0,
      if k > 8 && f.errorInfoLen != 0 then f.errorInfo else [],
      if k > 9 && DataLen(f) != 0 then f.rpcData else [],
      if k > 10 then f.checkSum else 0)
  }

  /** The decoder with everything hidden that does not show. */
  function Shown(d: Decoder): Decoder { d.(frame := Seen(d.frame, Known(d.state))) }

  /** Same state, same count, same unread bytes, same stored fields but for zero-length ones. */
  ghost predicate Alike(a: Decoder, b: Decoder) { Shown(a) == Shown(b) }

  /** A step depends only on what shows. */
  lemma StepOfShown(d: Decoder)
    requires CanStep(d) && Sound(d)
    ensures CanStep(Shown(d)) && Alike(Step(d), Step(Shown(d)))
  {
    var k := Rank(d.state);
    if k in {1, 2, 4, 6, 7, 10} {
      if k < 4 { IntOfShown(d); } else if k < 7 { LaterIntOfShown(d); } else { LastIntOfShown(d); }
    } else if k == 9 {
      RemainingIsDeclared(d);
      DataOfShown(d);
    } else if k in {3, 5, 8} {
      FieldOfShown(d);
    } else {
      FlagOfShown(d);
    }
  }

  lemma IntOfShown(d: Decoder)
    requires CanStep(d) && (d.state.ParsePkLen? || d.state.ParseMsgIdLen?)
    ensures CanStep(Shown(d)) && Shown(Step(d)) == Shown(Step(Shown(d)))
  {
  }

  lemma LaterIntOfShown(d: Decoder)
    requires CanStep(d) && (d.state.ParseMethodNameLen? || d.state.ParseErrorCode?)
    ensures CanStep(Shown(d)) && Shown(Step(d)) == Shown(Step(Shown(d)))
  {
  }

  lemma LastIntOfShown(d: Decoder)
    requires CanStep(d) && (d.state.ParseErrorInfoLen? || d.state.ParseCheckSum?)
    ensures CanStep(Shown(d)) && Shown(Step(d)) == Shown(Step(Shown(d)))
  {
    if d.state.ParseCheckSum? {
      CheckSumOfShown(d);
    }
  }

  lemma CheckSumOfShown(d: Decoder)
    requires CanStep(d) && d.state.ParseCheckSum?
    ensures CanStep(Shown(d)) && Shown(Step(d)) == Shown(Step(Shown(d)))
  {
    assert DataLen(Shown(d).frame) == DataLen(d.frame);
  }

  lemma FieldOfShown(d: Decoder)
    requires CanStep(d) && Rank(d.state) in {3, 5, 8}
    ensures CanStep(Shown(d)) && Shown(Step(d)) == Shown(Step(Shown(d)))
  {
    if d.state.ParseMsgId? {
      MsgIdOfShown(d);
    } else if d.state.ParseMethodName? {
      MethodNameOfShown(d);
    } else {
      ErrorInfoOfShown(d);
    }
  }

  lemma MsgIdOfShown(d: Decoder)
    requires CanStep(d) && d.state.ParseMsgId?
    ensures CanStep(Shown(d)) && Shown(Step(d)) == Shown(Step(Shown(d)))
  {
  }

  lemma MethodNameOfShown(d: Decoder)
    requires CanStep(d) && d.state.ParseMethodName?
    ensures CanStep(Shown(d)) && Shown(Step(d)) == Shown(Step(Shown(d)))
  {
  }

  lemma ErrorInfoOfShown(d: Decoder)
    requires CanStep(d) && d.state.ParseErrorInfo?
    ensures CanStep(Shown(d)) && Shown(Step(d)) == Shown(Step(Shown(d)))
  {
  }

  lemma DataOfShown(d: Decoder)
    requires CanStep(d) && d.state.ParseRpcData? && RemainingData(d) == DataLen(d.frame)
    ensures CanStep(Shown(d)) && Shown(Step(d)) == Shown(Step(Shown(d)))
  {
  }

  lemma FlagOfShown(d: Decoder)
    requires CanStep(d) && (d.state.WaitingStartFlag? || d.state.WaitingEndFlag? || d.state.ValidCheckSum?)
    ensures CanStep(Shown(d)) && Shown(Step(d)) == Shown(Step(Shown(d)))
  {
  }

  lemma StepAlike(a: Decoder, b: Decoder)
    requires Alike(a, b) && CanStep(a) && Sound(a) && Sound(b)
    ensures CanStep(b) && Alike(Step(a), Step(b))
  {
    StepOfShown(a);
    CanStepShown(b);
    StepOfShown(b);
  }

  lemma CanStepShown(d: Decoder)
    requires CanStep(Shown(d))
    ensures CanStep(d)
  {
  }

  /** Bytes that arrive later do not change what a step does with the bytes at hand. */
  lemma StepFeeds(d: Decoder, x: seq<Byte>)
    requires CanStep(d) && Sound(d)
    ensures CanStep(Feed(d, x)) && Alike(Step(Feed(d, x)), Feed(Step(d), x))
  {
    var k := Rank(d.state);
    if k in {1, 2, 4, 6, 7, 10} {
      IntFeeds(d, x);
    } else if k == 9 {
      RemainingIsDeclared(d);
      DataFeeds(d, x);
    } else if k in {3, 5, 8} {
      FieldFeeds(d, x);
    } else {
      FlagFeeds(d, x);
    }
  }

  lemma Sliced(s: seq<Byte>, x: seq<Byte>, n: nat)
    requires n <= |s|
    ensures (s + x)[..n] == s[..n] && (s + x)[n..] == s[n..] + x
  {
  }

  lemma IntFeeds(d: Decoder, x: seq<Byte>)
    requires CanStep(d) && Rank(d.state) in {1, 2, 4, 6, 7, 10}
    ensures CanStep(Feed(d, x)) && Step(Feed(d, x)) == Feed(Step(d), x)
  {
    Sliced(d.input, x, 4);
  }

  lemma FlagFeeds(d: Decoder, x: seq<Byte>)
    requires CanStep(d) && (d.state.WaitingStartFlag? || d.state.WaitingEndFlag? || d.state.ValidCheckSum?)
    ensures CanStep(Feed(d, x)) && Step(Feed(d, x)) == Feed(Step(d), x)
  {
    if !d.state.ValidCheckSum? {
      Sliced(d.input, x, 1);
    }
  }

  lemma FieldFeeds(d: Decoder, x: seq<Byte>)
    requires CanStep(d) && Rank(d.state) in {3, 5, 8}
    ensures CanStep(Feed(d, x)) && Shown(Step(Feed(d, x))) == Shown(Feed(Step(d), x))
  {
    Sliced(d.input, x, Need(d));
  }

  lemma DataFeeds(d: Decoder, x: seq<Byte>)
    requires CanStep(d) && d.state.ParseRpcData? && RemainingData(d) == DataLen(d.frame)
    ensures CanStep(Feed(d, x)) && Shown(Step(Feed(d, x))) == Shown(Feed(Step(d), x))
  {
    Sliced(d.input, x, Need(d));
  }

  lemma {:induction false} RunAlike(a: Decoder, b: Decoder)
    requires Alike(a, b) && Sound(a) && Sound(b)
    ensures Alike(Run(a), Run(b))
    decreases 14 - Rank(a.state)
  {
    if CanStep(a) {
      StepRanks(a);
      StepAlike(a, b);
      StepKeepsSound(a);
      StepKeepsSound(b);
      RunAlike(Step(a), Step(b));
    } else if CanStep(b) {
      StepAlike(b, a);
    }
  }

  lemma FirstStepFeeds(d: Decoder, x: seq<Byte>)
    requires CanStep(d) && Sound(d)
    ensures Rank(d.state) < Rank(Step(d).state) <= 14
    ensures Sound(Step(d)) && Run(d) == Run(Step(d)) && Alike(Run(Feed(d, x)), Run(Feed(Step(d), x)))
  {
    StepRanks(d);
    StepFeeds(d, x);
    StepKeepsSound(d);
    FeedKeepsSound(d, x);
    FeedKeepsSound(Step(d), x);
    StepKeepsSound(Feed(d, x));
    RunAlike(Step(Feed(d, x)), Feed(Step(d), x));
    RunOneStep(d);
    RunOneStep(Feed(d, x));
  }

  /** Running, waiting for more bytes and running again is running on all the bytes. */
  lemma {:induction false} RunFeeds(d: Decoder, x: seq<Byte>)
    requires Sound(d)
    ensures Alike(Run(Feed(d, x)), Run(Feed(Run(d), x)))
    decreases 14 - Rank(d.state)
  {
    if CanStep(d) {
      FirstStepFeeds(d, x);
      RunFeeds(Step(d), x);
    }
  }

  lemma FreshIsSound(input: seq<Byte>, remainLen: nat)
    ensures Sound(Fresh(input, remainLen))
  {
  }

  lemma FeedKeepsSound(d: Decoder, x: seq<Byte>)
    requires Sound(d)
    ensures Sound(Feed(d, x))
  {
  }

  lemma DecodeKeepsSound(d: Decoder)
    requires Sound(d)
    ensures Sound(Decode(d))
  {
    RunKeepsSound(Ready(d));
  }

  lemma FeedTwice(d: Decoder, x: seq<Byte>, y: seq<Byte>)
    ensures Feed(Feed(d, x), y) == Feed(d, x + y)
  {
    assert (d.input + x) + y == d.input + (x + y);
  }

  // ----------------------------------------------------- one frame in chunks

  /** Reads arrive and `decode` is called after each. */
  function DecodeEach(d: Decoder, chunks: seq<seq<Byte>>): Decoder
    decreases |chunks|
  {
    if chunks == [] then d else DecodeEach(Decode(Feed(d, chunks[0])), chunks[1..])
  }

  /** Only the last of the calls finishes the frame, or none does. */
  ghost predicate Unfinished(d: Decoder, chunks: seq<seq<Byte>>)
    decreases |chunks|
  {
    |chunks| > 1 ==> var e := Decode(Feed(d, chunks[0])); !Finished(e.state) && Unfinished(e, chunks[1..])
  }

  /** The resumable decoder refines the one-shot one: from any state it can be in, however the bytes
      are cut, it ends in the same state with the same unread bytes and the same stored fields, save
      for what it put into zero-length ones. */
  lemma {:induction false} ChunksAsWhole(d: Decoder, chunks: seq<seq<Byte>>)
    requires Sound(d) && chunks != [] && Unfinished(d, chunks)
    ensures Alike(DecodeEach(d, chunks), Decode(Feed(d, Concat(chunks))))
    decreases |chunks|
  {
    var c, e := chunks[0], Decode(Feed(d, chunks[0]));
    if |chunks| == 1 {
      OneChunk(chunks);
    } else {
      var x := Concat(chunks[1..]);
      DecodeKeepsSound(Feed(d, c));
      ChunksAsWhole(e, chunks[1..]);
      DecodeFeeds(Feed(d, c), x);
      FeedTwice(d, c, x);
      assert Ready(Feed(e, x)) == Feed(e, x);
    }
  }

  lemma OneChunk(chunks: seq<seq<Byte>>)
    requires |chunks| == 1
    ensures chunks[1..] == [] && Concat(chunks) == chunks[0]
  {
    assert Concat(chunks) == chunks[0] + Concat([]);
  }

  lemma DecodeFeeds(d: Decoder, x: seq<Byte>)
    requires Sound(d)
    ensures Alike(Decode(Feed(d, x)), Run(Feed(Decode(d), x)))
  {
    assert Ready(Feed(d, x)) == Feed(Ready(d), x);
    RunFeeds(Ready(d), x);
  }

  /** Waiting loses nothing: however many reads it took, as long as the frame is not finished the bytes
      that came are those stored in the frame, in order, and then the unread ones. */
  lemma WaitingLosesNothing(chunks: seq<seq<Byte>>, remainLen: nat)
    requires Unfinished(Fresh([], remainLen), chunks) && !Finished(DecodeEach(Fresh([], remainLen), chunks).state)
    ensures var r := DecodeEach(Fresh([], remainLen), chunks);
            Concat(chunks) == Concat(Pieces(Clean(r.frame))[..Min12(Rank(r.state))]) + r.input
  {
    var d := Fresh([], remainLen);
    assert Concat(Pieces(Clean(d.frame))[..0]) == [];
    EachKeepsConsumed([], d, chunks);
    assert [] + Concat(chunks) == Concat(chunks);
  }

  lemma {:induction false} EachKeepsConsumed(start: seq<Byte>, d: Decoder, chunks: seq<seq<Byte>>)
    requires Consumed(start, d) && !Finished(d.state) && Unfinished(d, chunks) && !Finished(DecodeEach(d, chunks).state)
    ensures Consumed(start + Concat(chunks), DecodeEach(d, chunks))
    decreases |chunks|
  {
    if chunks == [] {
      assert start + [] == start;
    } else {
      var c, e := chunks[0], Decode(Feed(d, chunks[0]));
      StillWaiting(d, chunks);
      ReadConsumed(start, d, c);
      EachKeepsConsumed(start + c, e, chunks[1..]);
      FirstChunk(start, chunks);
    }
  }

  lemma FirstChunk(start: seq<Byte>, chunks: seq<seq<Byte>>)
    requires chunks != []
    ensures (start + chunks[0]) + Concat(chunks[1..]) == start + Concat(chunks)
  {
  }

  lemma ReadConsumed(start: seq<Byte>, d: Decoder, c: seq<Byte>)
    requires Consumed(start, d) && !Finished(d.state) && !Finished(Decode(Feed(d, c)).state)
    ensures Consumed(start + c, Decode(Feed(d, c)))
  {
    FeedConsumed(start, d, c);
    RunKeepsConsumed(start + c, Feed(d, c));
  }

  lemma FeedConsumed(start: seq<Byte>, d: Decoder, x: seq<Byte>)
    requires Consumed(start, d)
    ensures Consumed(start + x, Feed(d, x))
  {
    var p := Concat(Pieces(Clean(d.frame))[..Min12(Rank(d.state))]);
    assert (p + d.input) + x == p + (d.input + x);
  }

  lemma StillWaiting(d: Decoder, chunks: seq<seq<Byte>>)
    requires chunks != [] && Unfinished(d, chunks) && !Finished(DecodeEach(d, chunks).state)
    ensures var e := Decode(Feed(d, chunks[0]));
            && !Finished(e.state) && Unfinished(e, chunks[1..])
            && DecodeEach(d, chunks) == DecodeEach(e, chunks[1..])
  {
    if |chunks| == 1 {
      assert chunks[1..] == [];
    }
  }

  // ------------------------------------------------------ many frames, drained

  lemma DecodeProgress(d: Decoder)
    ensures var e := Decode(d);
            |e.input| <= |d.input| && (Finished(d.state) && e.state.ParseSuccess? ==> |e.input| + 26 <= |d.input|)
  {
    RunShrinks(Ready(d));
    if Finished(d.state) && Decode(d).state.ParseSuccess? {
      SuccessConsumes(d);
    }
  }

  datatype Drained = Drained(decoder: Decoder, frames: seq<Frame>)

  /** The loop of server_execute: decode until it returns null. */
  function Drain(d: Decoder): Drained
    decreases |d.input|, if Finished(d.state) then 0 else 1
  {
    DecodeProgress(d);
    var e := Decode(d);
    if e.state.ParseSuccess? then
      var rest := Drain(e);
      Drained(rest.decoder, [e.frame] + rest.frames)
    else Drained(e, [])
  }

  function CleanAll(fs: seq<Frame>): (r: seq<Frame>)
    ensures |r| == |fs|
  {
    if fs == [] then [] else [Clean(fs[0])] + CleanAll(fs[1..])
  }

  lemma {:induction false} CleanAllConcat(a: seq<Frame>, b: seq<Frame>)
    ensures CleanAll(a + b) == CleanAll(a) + CleanAll(b)
  {
    if a == [] {
      assert a + b == b;
    } else {
      assert (a + b)[1..] == a[1..] + b;
      CleanAllConcat(a[1..], b);
    }
  }

  ghost predicate SameDrain(a: Drained, b: Drained) {
    Alike(a.decoder, b.decoder) && CleanAll(a.frames) == CleanAll(b.frames)
  }

  lemma AlikeFrames(a: Decoder, b: Decoder)
    requires Alike(a, b) && a.state.ParseSuccess?
    ensures Clean(a.frame) == Clean(b.frame)
  {
    assert Seen(a.frame, 13) == Clean(a.frame) && Seen(b.frame, 13) == Clean(b.frame);
  }

  lemma {:induction false} DrainAlike(a: Decoder, b: Decoder)
    requires Alike(a, b) && Sound(a) && Sound(b)
    ensures SameDrain(Drain(a), Drain(b))
    decreases |a.input|, if Finished(a.state) then 0 else 1
  {
    RunAlike(Ready(a), Ready(b));
    DecodeKeepsSound(a);
    DecodeKeepsSound(b);
    DecodeProgress(a);
    var e, f := Decode(a), Decode(b);
    if e.state.ParseSuccess? {
      AlikeFrames(e, f);
      DrainAlike(e, f);
      CleanAllConcat([e.frame], Drain(e).frames);
      CleanAllConcat([f.frame], Drain(f).frames);
    }
  }

  lemma {:induction false} DrainKeepsSound(d: Decoder)
    requires Sound(d)
    ensures Sound(Drain(d).decoder) && !Drain(d).decoder.state.ParseSuccess?
    decreases |d.input|, if Finished(d.state) then 0 else 1
  {
    DecodeKeepsSound(d);
    DecodeProgress(d);
    if Decode(d).state.ParseSuccess? {
      DrainKeepsSound(Decode(d));
    }
  }

  /** The drain of all is the drain of the first part and of what it left with x behind it. */
  ghost predicate Continues(first: Drained, all: Drained, x: seq<Byte>) {
    if first.decoder.state.ParseFailed? then SameDrain(all, Drained(Feed(first.decoder, x), first.frames))
    else var second := Drain(Feed(first.decoder, x));
         SameDrain(all, Drained(second.decoder, first.frames + second.frames))
  }

  /** Draining, waiting for more bytes and draining again is draining all the bytes, unless the first
      part already failed. */
  ghost predicate DrainsOn(d: Decoder, x: seq<Byte>) { Continues(Drain(d), Drain(Feed(d, x)), x) }

  lemma {:induction false} DrainFeeds(d: Decoder, x: seq<Byte>)
    requires Sound(d)
    ensures DrainsOn(d, x)
    decreases |d.input|, if Finished(d.state) then 0 else 1
  {
    var e := Decode(d);
    DecodeFeeds(d, x);
    DecodeKeepsSound(d);
    FeedKeepsSound(d, x);
    DecodeKeepsSound(Feed(d, x));
    DecodeProgress(d);
    var g := Decode(Feed(d, x));
    if e.state.ParseSuccess? {
      assert Run(Feed(e, x)) == Feed(e, x);
      AlikeFrames(g, Feed(e, x));
      DrainAlike(g, Feed(e, x));
      DrainFeeds(e, x);
      DrainAfterSuccess(d, e, g, x);
    } else if e.state.ParseFailed? {
      assert Run(Feed(e, x)) == Feed(e, x);
    } else {
      DrainWaiting(d, e, g, x);
    }
  }

  ghost function Put(f: Frame, r: Drained): Drained { Drained(r.decoder, [f] + r.frames) }

  lemma PutSame(f: Frame, g: Frame, a: Drained, b: Drained)
    requires Clean(f) == Clean(g) && SameDrain(a, b)
    ensures SameDrain(Put(f, a), Put(g, b))
  {
    CleanAllConcat([f], a.frames);
    CleanAllConcat([g], b.frames);
  }

  lemma DrainAfterSuccess(d: Decoder, e: Decoder, g: Decoder, x: seq<Byte>)
    requires e == Decode(d) && g == Decode(Feed(d, x)) && e.state.ParseSuccess? && g.state.ParseSuccess?
    requires Clean(g.frame) == Clean(e.frame) && SameDrain(Drain(g), Drain(Feed(e, x))) && DrainsOn(e, x)
    ensures DrainsOn(d, x)
  {
    DrainOne(d, e);
    DrainOne(Feed(d, x), g);
    PutDrained(e.frame, g.frame, Drain(e), Drain(g), Drain(Feed(e, x)), x);
  }

  lemma DrainOne(d: Decoder, e: Decoder)
    requires e == Decode(d) && e.state.ParseSuccess?
    ensures Drain(d) == Put(e.frame, Drain(e))
  {
  }

  lemma PutDrained(f: Frame, g: Frame, first: Drained, all: Drained, mid: Drained, x: seq<Byte>)
    requires Clean(f) == Clean(g) && SameDrain(all, mid) && Continues(first, mid, x)
    ensures Continues(Put(f, first), Put(g, all), x)
  {
    PutSame(g, f, all, mid);
    if first.decoder.state.ParseFailed? {
      PutSame(f, f, mid, Drained(Feed(first.decoder, x), first.frames));
    } else {
      PutConcat(f, mid, first.frames, Drain(Feed(first.decoder, x)));
    }
  }

  lemma PutConcat(f: Frame, mid: Drained, frames: seq<Frame>, second: Drained)
    requires SameDrain(mid, Drained(second.decoder, frames + second.frames))
    ensures SameDrain(Put(f, mid), Drained(second.decoder, ([f] + frames) + second.frames))
  {
    PutSame(f, f, mid, Drained(second.decoder, frames + second.frames));
    assert [f] + (frames + second.frames) == ([f] + frames) + second.frames;
  }

  lemma DrainWaiting(d: Decoder, e: Decoder, g: Decoder, x: seq<Byte>)
    requires Sound(d) && Sound(e) && Sound(g)
    requires e == Decode(d) && g == Decode(Feed(d, x)) && !Finished(e.state) && Alike(g, Decode(Feed(e, x)))
    ensures DrainsOn(d, x)
  {
    var h := Decode(Feed(e, x));
    DecodeKeepsSound(Feed(e, x));
    assert Drain(d) == Drained(e, []);
    if g.state.ParseSuccess? {
      AlikeFrames(g, h);
      DrainAlike(g, h);
      CleanAllConcat([g.frame], Drain(g).frames);
      CleanAllConcat([h.frame], Drain(h).frames);
    }
    assert [] + Drain(Feed(e, x)).frames == Drain(Feed(e, x)).frames;
  }

  // ------------------------------------------------- every cutting of a stream

  /** A connection reads the chunks one after the other and drains after each. */
  function DrainEach(d: Decoder, chunks: seq<seq<Byte>>): Drained
    decreases |chunks|
  {
    if chunks == [] then Drained(d, [])
    else
      var first := Drain(Feed(d, chunks[0]));
      var rest := DrainEach(first.decoder, chunks[1..]);
      Drained(rest.decoder, first.frames + rest.frames)
  }

  /** However a stream is cut, the frames decoded from the whole come first, in order; and if the
      whole does not fail, nothing else comes and the decoder ends in the same state. */
  lemma {:induction false} EveryCuttingAlike(d: Decoder, chunks: seq<seq<Byte>>)
    requires Sound(d) && chunks != []
    ensures var whole, cut := Drain(Feed(d, Concat(chunks))), DrainEach(d, chunks);
            && CleanAll(whole.frames) <= CleanAll(cut.frames)
            && (!whole.decoder.state.ParseFailed? ==> SameDrain(cut, whole))
    decreases |chunks|
  {
    var c, x := chunks[0], Concat(chunks[1..]);
    var first := Drain(Feed(d, c));
    var rest := DrainEach(first.decoder, chunks[1..]);
    if |chunks| == 1 {
      OneChunk(chunks);
      assert first.frames + [] == first.frames;
    } else {
      DrainKeepsSound(Feed(d, c));
      DrainFeeds(Feed(d, c), x);
      FeedTwice(d, c, x);
      CleanAllConcat(first.frames, rest.frames);
      if !first.decoder.state.ParseFailed? {
        EveryCuttingAlike(first.decoder, chunks[1..]);
        JoinDrains(Drain(Feed(d, Concat(chunks))), first, Drain(Feed(first.decoder, x)), rest);
      }
    }
  }

  lemma JoinDrains(whole: Drained, first: Drained, second: Drained, rest: Drained)
    requires SameDrain(whole, Drained(second.decoder, first.frames + second.frames))
    requires CleanAll(second.frames) <= CleanAll(rest.frames)
    ensures CleanAll(whole.frames) <= CleanAll(first.frames + rest.frames)
    ensures SameDrain(rest, second) ==> SameDrain(Drained(rest.decoder, first.frames + rest.frames), whole)
  {
    CleanAllConcat(first.frames, second.frames);
    CleanAllConcat(first.frames, rest.frames);
  }
}
