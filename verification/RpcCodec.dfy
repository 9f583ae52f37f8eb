/** Encoding and decoding are inverse to each other, up to what zero-length fields are filled with. */
module RpcCodec {
  import opened Words
  import opened RpcFrames

  ghost predicate Congruent(a: int, b: int) { (a - b) % TWO_32 == 0 }

  lemma MultipleOf32(q: int)
    ensures (q * TWO_64) % TWO_32 == 0
  {
    assert q * TWO_64 == (q * TWO_32) * TWO_32;
  }

  lemma LessCongruent(remainLen: nat, n: int)
    ensures Congruent(Less(remainLen, n), remainLen - n)
  {
    var x := remainLen - n;
    MultipleOf32(-(x / TWO_64));
    assert x % TWO_64 - x == -(x / TWO_64) * TWO_64;
  }

  lemma CongruentStep(remainLen: nat, n: int, total: int)
    requires Congruent(remainLen, total)
    ensures Congruent(Less(remainLen, n), total - n)
  {
    LessCongruent(remainLen, n);
  }

  function Min12(k: nat): nat { if k < 12 then k else 12 }

  // ------------------------------------------------------- parse, then print

  /** The string fields read before piece k have the lengths that were declared for them. */
  ghost predicate Measured(f: Frame, k: nat) {
    && (k > 3 ==> f.msgIdLen == |Clean(f).msgId|)
    && (k > 5 ==> f.methodNameLen == |Clean(f).methodName|)
    && (k > 8 ==> f.errorInfoLen == |Clean(f).errorInfo|)
    && (k > 9 ==> DataLen(f) == |Clean(f).rpcData|)
  }

  /** The bytes consumed since `start` are the encoding of what has been stored, and the running
      count is the declared packet length less the bytes consumed, modulo 2^32. */
  ghost predicate Consumed(start: seq<Byte>, d: Decoder) {
    Sound(d) && start == Concat(Pieces(Clean(d.frame))[..Min12(Rank(d.state))]) + d.input
  }

  /** The state's share of that, which every decoder in use satisfies. */
  ghost predicate Sound(d: Decoder) {
    var k := Min12(Rank(d.state));
    d.state.ParseFailed?
    || (&& Measured(d.frame, k)
        && (2 <= k < 12 ==> Congruent(d.remainLen, d.frame.pkLen - Offset(Clean(d.frame), k))))
  }

  lemma ToInt32Congruent(a: int, b: int)
    requires Congruent(a, b)
    ensures ToInt32(a) == ToInt32(b)
  {
  }

  /** By the time the data is due, the running count gives its declared length. */
  lemma RemainingIsDeclared(d: Decoder)
    requires Sound(d) && d.state.ParseRpcData?
    ensures RemainingData(d) == DataLen(d.frame)
  {
    var f := d.frame;
    assert Offset(Clean(f), 9) == 21 + f.msgIdLen + f.methodNameLen + f.errorInfoLen;
    ToInt32Congruent(d.remainLen - 5, f.pkLen - 26 - f.msgIdLen - f.methodNameLen - f.errorInfoLen);
  }

  /** One step consumes exactly the piece it is about. */
  lemma StepConsumesPiece(d: Decoder)
    requires CanStep(d) && Rank(d.state) < 12 && !Step(d).state.ParseFailed?
    requires d.state.ParseRpcData? ==> RemainingData(d) == DataLen(d.frame)
    ensures d.input == Pieces(Clean(Step(d).frame))[Rank(d.state)] + Step(d).input
  {
    var k := Rank(d.state);
    if k in {1, 2, 4, 6, 7, 10} {
      ConsumesInt(d);
    } else if k in {3, 5, 8, 9} {
      ConsumesField(d);
    }
  }

  lemma ConsumesInt(d: Decoder)
    requires CanStep(d) && Rank(d.state) in {1, 2, 4, 6, 7, 10}
    ensures d.input == Pieces(Clean(Step(d).frame))[Rank(d.state)] + Step(d).input
  {
    FromNetBytesRoundTrip(d.input[..4]);
    assert d.input == d.input[..4] + d.input[4..];
  }

  lemma ConsumesField(d: Decoder)
    requires CanStep(d) && Rank(d.state) in {3, 5, 8, 9}
    requires d.state.ParseRpcData? ==> RemainingData(d) == DataLen(d.frame)
    ensures d.input == Pieces(Clean(Step(d).frame))[Rank(d.state)] + Step(d).input
  {
    var n := Need(d);
    assert d.input == d.input[..n] + d.input[n..];
  }

  /** It leaves the earlier integers and strings alone. */
  lemma StepKeepsInts(d: Decoder)
    requires CanStep(d) && Rank(d.state) < 12
    ensures var f, g, k := d.frame, Step(d).frame, Rank(d.state);
            && (k > 1 ==> f.pkLen == g.pkLen) && (k > 2 ==> f.msgIdLen == g.msgIdLen)
            && (k > 4 ==> f.methodNameLen == g.methodNameLen) && (k > 6 ==> f.errorCode == g.errorCode)
            && (k > 7 ==> f.errorInfoLen == g.errorInfoLen) && (k > 10 ==> f.checkSum == g.checkSum)
  {
  }

  lemma StepKeepsStrings(d: Decoder)
    requires CanStep(d) && Rank(d.state) < 12
    ensures var f, g, k := Clean(d.frame), Clean(Step(d).frame), Rank(d.state);
            && (k > 3 ==> f.msgId == g.msgId) && (k > 5 ==> f.methodName == g.methodName)
            && (k > 8 ==> f.errorInfo == g.errorInfo) && (k > 9 ==> f.rpcData == g.rpcData)
  {
    StepKeepsInts(d);
  }

  lemma StepKeepsPieces(d: Decoder)
    requires CanStep(d) && Rank(d.state) < 12 && !Step(d).state.ParseFailed?
    ensures Pieces(Clean(Step(d).frame))[..Rank(d.state)] == Pieces(Clean(d.frame))[..Rank(d.state)]
  {
    StepKeepsInts(d);
    StepKeepsStrings(d);
    SamePieces(Clean(d.frame), Clean(Step(d).frame), Rank(d.state));
  }

  lemma SamePieces(f: Frame, g: Frame, k: nat)
    requires k < 12
    requires k > 1 ==> f.pkLen == g.pkLen
    requires k > 2 ==> f.msgIdLen == g.msgIdLen
    requires k > 3 ==> f.msgId == g.msgId
    requires k > 4 ==> f.methodNameLen == g.methodNameLen
    requires k > 5 ==> f.methodName == g.methodName
    requires k > 6 ==> f.errorCode == g.errorCode
    requires k > 7 ==> f.errorInfoLen == g.errorInfoLen
    requires k > 8 ==> f.errorInfo == g.errorInfo
    requires k > 9 ==> f.rpcData == g.rpcData
    requires k > 10 ==> f.checkSum == g.checkSum
    ensures Pieces(f)[..k] == Pieces(g)[..k]
  {
    assert forall i :: 0 <= i < k ==> Pieces(f)[i] == Pieces(g)[i];
  }

  lemma StepMeasures(d: Decoder)
    requires CanStep(d) && Rank(d.state) < 12 && !Step(d).state.ParseFailed?
    requires d.state.ParseRpcData? ==> RemainingData(d) == DataLen(d.frame)
    requires Measured(d.frame, Rank(d.state))
    ensures Measured(Step(d).frame, Rank(d.state) + 1)
  {
  }

  /** How many bytes the current state consumes. */
  ghost function Need(d: Decoder): int {
    match d.state
    case ParseMsgId => d.frame.msgIdLen
    case ParseMethodName => d.frame.methodNameLen
    case ParseErrorInfo => d.frame.errorInfoLen
    case ParseRpcData => RemainingData(d)
    case WaitingStartFlag => 1
    case WaitingEndFlag => 1
    case _ => 4
  }

  lemma OffsetGrows(d: Decoder)
    requires CanStep(d) && Rank(d.state) < 12 && !Step(d).state.ParseFailed?
    requires d.state.ParseRpcData? ==> RemainingData(d) == DataLen(d.frame)
    requires Measured(d.frame, Rank(d.state))
    ensures Offset(Clean(Step(d).frame), Rank(d.state) + 1) == Offset(Clean(d.frame), Rank(d.state)) + Need(d)
  {
    var k := Rank(d.state);
    if k in {1, 2, 4, 6, 7, 10} {
      IntOffset(d);
    } else if k in {3, 5, 8} {
      FieldOffset(d);
    } else if k == 9 {
      DataOffset(d);
    } else {
      FlagOffset(d);
    }
  }

  lemma IntOffset(d: Decoder)
    requires CanStep(d) && Rank(d.state) in {1, 2, 4, 6, 7, 10}
    ensures Offset(Clean(Step(d).frame), Rank(d.state) + 1) == Offset(Clean(d.frame), Rank(d.state)) + 4
  {
    StepKeepsStrings(d);
  }

  lemma FieldOffset(d: Decoder)
    requires CanStep(d) && Rank(d.state) in {3, 5, 8} && Measured(d.frame, Rank(d.state))
    ensures Offset(Clean(Step(d).frame), Rank(d.state) + 1) == Offset(Clean(d.frame), Rank(d.state)) + Need(d)
  {
    StepKeepsStrings(d);
  }

  lemma DataOffset(d: Decoder)
    requires CanStep(d) && d.state.ParseRpcData? && RemainingData(d) == DataLen(d.frame)
    ensures Offset(Clean(Step(d).frame), 10) == Offset(Clean(d.frame), 9) + Need(d)
  {
    StepKeepsStrings(d);
  }

  lemma FlagOffset(d: Decoder)
    requires CanStep(d) && (d.state.WaitingStartFlag? || d.state.WaitingEndFlag?) && !Step(d).state.ParseFailed?
    ensures Offset(Clean(Step(d).frame), Rank(d.state) + 1) == Offset(Clean(d.frame), Rank(d.state)) + 1
  {
  }

  lemma FirstCount(v: Int32)
    ensures Congruent(ToSizeT(ToInt32(v - 5)), v - 5)
  {
    LessCongruent(TWO_64, TWO_64 - ToInt32(v - 5));
  }

  lemma StepCounts(d: Decoder)
    requires CanStep(d) && 1 <= Rank(d.state) < 11
    requires Rank(d.state) >= 2 ==> Congruent(d.remainLen, d.frame.pkLen - Offset(Clean(d.frame), Rank(d.state)))
    ensures var e := Step(d);
            Congruent(e.remainLen, e.frame.pkLen - (Offset(Clean(d.frame), Rank(d.state)) + Need(d)))
  {
    if d.state.ParsePkLen? {
      FirstCount(Step(d).frame.pkLen);
    } else {
      CongruentStep(d.remainLen, Need(d), d.frame.pkLen - Offset(Clean(d.frame), Rank(d.state)));
    }
  }

  lemma AppendPiece(start: seq<Byte>, p: seq<seq<Byte>>, q: seq<seq<Byte>>, k: nat, before: seq<Byte>, after: seq<Byte>)
    requires k < |q| && |p| == |q| && p[..k] == q[..k]
    requires start == Concat(p[..k]) + before && before == q[k] + after
    ensures start == Concat(q[..k + 1]) + after
  {
    ConcatSnoc(q, k);
  }

  lemma StepKeepsBytes(start: seq<Byte>, d: Decoder)
    requires CanStep(d) && Rank(d.state) < 12 && !Step(d).state.ParseFailed?
    requires d.state.ParseRpcData? ==> RemainingData(d) == DataLen(d.frame)
    requires start == Concat(Pieces(Clean(d.frame))[..Rank(d.state)]) + d.input
    ensures start == Concat(Pieces(Clean(Step(d).frame))[..Rank(d.state) + 1]) + Step(d).input
  {
    StepConsumesPiece(d);
    StepKeepsPieces(d);
    AppendPiece(start, Pieces(Clean(d.frame)), Pieces(Clean(Step(d).frame)), Rank(d.state), d.input, Step(d).input);
  }

  /** The count after a step. */
  lemma StepKeepsCount(d: Decoder)
    requires CanStep(d) && 1 <= Rank(d.state) < 11 && Measured(d.frame, Rank(d.state))
    requires Rank(d.state) >= 2 ==> Congruent(d.remainLen, d.frame.pkLen - Offset(Clean(d.frame), Rank(d.state)))
    requires d.state.ParseRpcData? ==> RemainingData(d) == DataLen(d.frame)
    ensures var e := Step(d);
            Congruent(e.remainLen, e.frame.pkLen - Offset(Clean(e.frame), Rank(d.state) + 1))
  {
    OffsetGrows(d);
    StepCounts(d);
  }

  lemma SoundMeans(d: Decoder)
    requires Rank(d.state) < 12
    ensures Sound(d) <==>
              Measured(d.frame, Rank(d.state))
              && (2 <= Rank(d.state) ==> Congruent(d.remainLen, d.frame.pkLen - Offset(Clean(d.frame), Rank(d.state))))
  {
  }

  lemma StepKeepsSound(d: Decoder)
    requires CanStep(d) && Sound(d)
    ensures Sound(Step(d))
  {
    StepRanks(d);
    if Rank(d.state) < 12 && !Step(d).state.ParseFailed? {
      if d.state.ParseRpcData? {
        RemainingIsDeclared(d);
      }
      SoundMeans(d);
      SoundStep(d);
    }
  }

  lemma SoundStep(d: Decoder)
    requires CanStep(d) && Rank(d.state) < 12 && Rank(Step(d).state) == Rank(d.state) + 1
    requires Measured(d.frame, Rank(d.state))
    requires Rank(d.state) >= 2 ==> Congruent(d.remainLen, d.frame.pkLen - Offset(Clean(d.frame), Rank(d.state)))
    requires d.state.ParseRpcData? ==> RemainingData(d) == DataLen(d.frame)
    ensures Sound(Step(d))
  {
    StepMeasures(d);
    if 1 <= Rank(d.state) < 11 {
      StepKeepsCount(d);
      SoundMeans(Step(d));
    }
  }

  lemma StepKeepsConsumed(start: seq<Byte>, d: Decoder)
    requires CanStep(d) && Consumed(start, d) && !Step(d).state.ParseFailed?
    ensures Consumed(start, Step(d))
  {
    StepRanks(d);
    StepKeepsSound(d);
    if Rank(d.state) < 12 {
      if d.state.ParseRpcData? {
        RemainingIsDeclared(d);
      }
      StepKeepsBytes(start, d);
    }
  }

  lemma {:induction false} RunKeepsSound(d: Decoder)
    requires Sound(d)
    ensures Sound(Run(d))
    decreases 14 - Rank(d.state)
  {
    if CanStep(d) {
      StepRanks(d);
      StepKeepsSound(d);
      RunKeepsSound(Step(d));
    }
  }

  lemma {:induction false} RunKeepsConsumed(start: seq<Byte>, d: Decoder)
    requires Consumed(start, d)
    ensures !Run(d).state.ParseFailed? ==> Consumed(start, Run(d))
    decreases 14 - Rank(d.state)
  {
    if CanStep(d) {
      StepRanks(d);
      if !Step(d).state.ParseFailed? {
        StepKeepsConsumed(start, d);
        RunKeepsConsumed(start, Step(d));
      }
    }
  }

  /** Parse then print.  Whenever decoding from a fresh start succeeds, on any bytes whatever, the
      bytes consumed are the encoding of the frame with its zero-length fields blank; they number 26
      plus the declared lengths, and the declared packet length agrees modulo 2^32. */
  lemma ParseThenPrint(input: seq<Byte>, remainLen: nat)
    requires Run(Fresh(input, remainLen)).state.ParseSuccess?
    ensures var r := Run(Fresh(input, remainLen));
            var f, consumed := r.frame, |input| - |r.input|;
            && input == Encode(Clean(f)) + r.input
            && f.msgIdLen >= 0 && f.methodNameLen >= 0 && f.errorInfoLen >= 0 && DataLen(f) >= 0
            && consumed == 26 + f.msgIdLen + f.methodNameLen + f.errorInfoLen + DataLen(f)
            && Congruent(consumed, f.pkLen)
            && (consumed < 0x8000_0000 ==> consumed == f.pkLen)
  {
    var d := Fresh(input, remainLen);
    assert Concat(Pieces(Clean(d.frame))[..0]) == [];
    RunKeepsConsumed(input, d);
    ConsumedAll(input, Run(d));
    DeclaredCongruent(Run(d).frame);
  }

  lemma ConsumedAll(input: seq<Byte>, r: Decoder)
    requires Consumed(input, r) && r.state.ParseSuccess?
    ensures var f := r.frame;
            && input == Encode(Clean(f)) + r.input
            && f.msgIdLen >= 0 && f.methodNameLen >= 0 && f.errorInfoLen >= 0 && DataLen(f) >= 0
            && |input| - |r.input| == 26 + f.msgIdLen + f.methodNameLen + f.errorInfoLen + DataLen(f)
  {
    assert Pieces(Clean(r.frame))[..12] == Pieces(Clean(r.frame));
    EncodeLength(Clean(r.frame));
  }

  lemma DeclaredCongruent(f: Frame)
    ensures var n := 26 + f.msgIdLen + f.methodNameLen + f.errorInfoLen + DataLen(f);
            Congruent(n, f.pkLen) && (0 <= n < 0x8000_0000 ==> n == f.pkLen)
  {
    var n := 26 + f.msgIdLen + f.methodNameLen + f.errorInfoLen + DataLen(f);
    if 0 <= n < 0x8000_0000 {
      Int32Unique(n, f.pkLen);
    }
  }

  /** A zero-length field already stored is no shorter than the unread input, and longer once the end
      flag has been read. */
  ghost predicate Fills(d: Decoder) {
    var f, k := d.frame, Rank(d.state);
    var n := |d.input| + if k >= 12 then 1 else 0;
    d.state.ParseFailed?
    || (&& (k > 3 && f.msgIdLen == 0 ==> |f.msgId| >= n)
        && (k > 5 && f.methodNameLen == 0 ==> |f.methodName| >= n)
        && (k > 8 && f.errorInfoLen == 0 ==> |f.errorInfo| >= n)
        && (k > 9 && DataLen(f) == 0 ==> |f.rpcData| >= n))
  }

  lemma IntKeepsFills(d: Decoder)
    requires CanStep(d) && Fills(d) && Rank(d.state) in {1, 2, 4, 6, 7, 10}
    ensures Fills(Step(d))
  {
  }

  lemma FieldKeepsFills(d: Decoder)
    requires CanStep(d) && Fills(d) && Rank(d.state) in {3, 5, 8}
    ensures Fills(Step(d))
  {
  }

  lemma DataKeepsFills(d: Decoder)
    requires CanStep(d) && Fills(d) && d.state.ParseRpcData? && RemainingData(d) == DataLen(d.frame)
    ensures Fills(Step(d))
  {
  }

  lemma StepKeepsFills(d: Decoder)
    requires CanStep(d) && Fills(d) && Sound(d)
    ensures Fills(Step(d))
  {
    var k := Rank(d.state);
    if k in {1, 2, 4, 6, 7, 10} {
      IntKeepsFills(d);
    } else if k in {3, 5, 8} {
      FieldKeepsFills(d);
    } else if k == 9 {
      RemainingIsDeclared(d);
      DataKeepsFills(d);
    }
  }

  lemma {:induction false} RunKeepsFills(d: Decoder)
    requires Fills(d) && Sound(d)
    ensures Fills(Run(d))
    decreases 14 - Rank(d.state)
  {
    if CanStep(d) {
      StepRanks(d);
      StepKeepsFills(d);
      StepKeepsSound(d);
      RunKeepsFills(Step(d));
    }
  }

  /** All four strings were declared non-empty. */
  predicate NoneEmpty(f: Frame) {
    f.msgIdLen != 0 && f.methodNameLen != 0 && f.errorInfoLen != 0 && DataLen(f) != 0
  }

  lemma FilledIsNotClean(d: Decoder)
    requires d.state.ParseSuccess? && Fills(d)
    ensures d.frame == Clean(d.frame) <==> NoneEmpty(d.frame)
  {
  }

  /** Whatever the bytes, once decoding succeeds the encoder reproduces the bytes consumed if and only if
      none of the four declared lengths is zero. */
  lemma PrintsBackIff(input: seq<Byte>, remainLen: nat)
    requires Run(Fresh(input, remainLen)).state.ParseSuccess?
    ensures var r := Run(Fresh(input, remainLen));
            input == Encode(r.frame) + r.input <==> NoneEmpty(r.frame)
  {
    var r := Run(Fresh(input, remainLen));
    RunKeepsFills(Fresh(input, remainLen));
    FilledIsNotClean(r);
    ParseThenPrint(input, remainLen);
    SameLength(input, r.frame, Clean(r.frame), r.input);
  }

  lemma SameLength(input: seq<Byte>, f: Frame, g: Frame, rest: seq<Byte>)
    requires g == Clean(f) && input == Encode(g) + rest
    ensures input == Encode(f) + rest <==> f == g
  {
    EncodeLength(f);
    EncodeLength(g);
    if input == Encode(f) + rest {
      assert |Encode(f)| == |Encode(g)|;
    }
  }

  /** From a fresh start every success consumes at least 26 bytes. */
  lemma SuccessConsumes(d: Decoder)
    requires Finished(d.state) && Decode(d).state.ParseSuccess?
    ensures |Decode(d).input| + 26 <= |d.input|
  {
    ParseThenPrint(d.input, d.remainLen);
  }

  lemma {:induction false} RunShrinks(d: Decoder)
    ensures |Run(d).input| <= |d.input|
    decreases 14 - Rank(d.state)
  {
    if CanStep(d) {
      StepRanks(d);
      RunShrinks(Step(d));
    }
  }

  /** What is left of the input is its end. */
  ghost predicate EndOf(rest: seq<Byte>, input: seq<Byte>) {
    |rest| <= |input| && rest == input[|input| - |rest|..]
  }

  lemma IntLeavesEnd(d: Decoder)
    requires CanStep(d) && Rank(d.state) in {1, 2, 4, 6, 7, 10}
    ensures Step(d).input == d.input[4..]
  {
  }

  lemma FieldLeavesEnd(d: Decoder)
    requires CanStep(d) && Rank(d.state) in {3, 5, 8, 9}
    ensures 0 <= Need(d) <= |d.input| && Step(d).input == d.input[Need(d)..]
  {
  }

  lemma FlagLeavesEnd(d: Decoder)
    requires CanStep(d) && Rank(d.state) in {0, 11, 12}
    ensures Step(d).input == d.input || Step(d).input == d.input[1..]
  {
  }

  lemma StepLeavesEnd(d: Decoder)
    requires CanStep(d)
    ensures EndOf(Step(d).input, d.input)
  {
    var k := Rank(d.state);
    if k in {1, 2, 4, 6, 7, 10} {
      IntLeavesEnd(d);
    } else if k in {3, 5, 8, 9} {
      FieldLeavesEnd(d);
    } else {
      FlagLeavesEnd(d);
    }
  }

  lemma EndOfEnd(a: seq<Byte>, b: seq<Byte>, c: seq<Byte>)
    requires EndOf(a, b) && EndOf(b, c)
    ensures EndOf(a, c)
  {
  }

  lemma FailsHere(d: Decoder)
    requires CanStep(d) && !d.state.ParseFailed? && Step(d).state.ParseFailed?
    ensures Run(d) == Step(d) && Step(d).input == d.input != []
    ensures (d.state.WaitingStartFlag? && d.input[0] != 0x02) || (d.state.WaitingEndFlag? && d.input[0] != 0x03)
  {
    assert Run(Step(d)) == Step(d);
  }

  lemma FailsLater(d: Decoder)
    requires CanStep(d) && !Step(d).state.ParseFailed?
    ensures !Step(d).state.WaitingStartFlag? && EndOf(Step(d).input, d.input) && Run(d) == Run(Step(d))
    ensures d.state.WaitingStartFlag? ==> d.input[0] == 0x02
  {
    StepRanks(d);
    StepLeavesEnd(d);
  }

  /** A failure leaves the byte that is not the flag due, and all behind it, unread. */
  lemma {:induction false} FailureKeepsByte(d: Decoder)
    requires !d.state.ParseFailed? && Run(d).state.ParseFailed?
    ensures var r := Run(d);
            && EndOf(r.input, d.input) && r.input != []
            && if d.state.WaitingStartFlag? && d.input[0] != 0x02 then r.input == d.input else r.input[0] != 0x03
    decreases 14 - Rank(d.state)
  {
    assert CanStep(d);
    if Step(d).state.ParseFailed? {
      FailsHere(d);
    } else {
      FailsLater(d);
      StepRanks(d);
      FailureKeepsByte(Step(d));
      EndOfEnd(Run(Step(d)).input, Step(d).input, d.input);
    }
  }

  /** Decoding again fails again at once, on the same bytes, exactly if that byte is not the start flag. */
  lemma FailsAgainIff(d: Decoder)
    requires d.state.ParseFailed? && d.input != []
    ensures Decode(d).state.ParseFailed? && Decode(d).input == d.input <==> d.input[0] != 0x02
  {
    var e := Fresh(d.input, d.remainLen);
    if d.input[0] == 0x02 {
      RunShrinks(Step(e));
    } else {
      assert Run(Step(e)) == Step(e);
    }
  }

  // ------------------------------------------------------- print, then parse

  /** What comes behind the first k pieces of a frame in the buffer. */
  ghost function Behind(f: Frame, trailing: seq<Byte>, k: nat): seq<Byte>
    requires k <= 12
  {
    Concat(Pieces(f)[k..]) + trailing
  }

  /** The frame a decoder makes of f: each empty string is filled with everything behind it in the buffer. */
  ghost function Filled(f: Frame, trailing: seq<Byte>): Frame {
    f.(msgId := if f.msgId == [] then Behind(f, trailing, 4) else f.msgId,
       methodName := if f.methodName == [] then Behind(f, trailing, 6) else f.methodName,
       errorInfo := if f.errorInfo == [] then Behind(f, trailing, 9) else f.errorInfo,
       rpcData := if f.rpcData == [] then Behind(f, trailing, 10) else f.rpcData)
  }

  /** The part of h before piece k has been stored. */
  ghost predicate Stored(g: Frame, h: Frame, k: nat) {
    && (k > 1 ==> g.pkLen == h.pkLen)
    && (k > 2 ==> g.msgIdLen == h.msgIdLen)
    && (k > 3 ==> g.msgId == h.msgId)
    && (k > 4 ==> g.methodNameLen == h.methodNameLen)
    && (k > 5 ==> g.methodName == h.methodName)
    && (k > 6 ==> g.errorCode == h.errorCode)
    && (k > 7 ==> g.errorInfoLen == h.errorInfoLen)
    && (k > 8 ==> g.errorInfo == h.errorInfo)
    && (k > 9 ==> g.rpcData == h.rpcData)
    && (k > 10 ==> g.checkSum == h.checkSum)
  }

  /** The decoder has read the pieces of f before its state and the rest of f lies ahead. */
  ghost predicate Reading(f: Frame, trailing: seq<Byte>, d: Decoder) {
    var k := Rank(d.state);
    && k <= 12
    && Stored(d.frame, Filled(f, trailing), k)
    && d.input == Behind(f, trailing, k)
    && (2 <= k < 12 ==> Congruent(d.remainLen, f.pkLen - Offset(f, k)))
  }

  lemma PieceAhead(f: Frame, trailing: seq<Byte>, k: nat)
    requires k < 12
    ensures Behind(f, trailing, k) == Pieces(f)[k] + Behind(f, trailing, k + 1)
  {
    var p := Pieces(f);
    ConcatSnoc(p, k);
    assert (p[k] + Concat(p[k + 1..])) + trailing == p[k] + (Concat(p[k + 1..]) + trailing);
  }

  lemma TailNonEmpty(f: Frame, k: nat)
    requires k < 12
    ensures Concat(Pieces(f)[k..]) != []
    decreases 12 - k
  {
    ConcatSnoc(Pieces(f), k);
    if k < 11 {
      TailNonEmpty(f, k + 1);
    }
  }

  lemma DeclaredData(f: Frame)
    requires Consistent(f)
    ensures DataLen(f) == |f.rpcData|
  {
  }

  /** With the piece ahead the step goes through, stores it and passes it. */
  ghost predicate ReadsPiece(h: Frame, d: Decoder, rest: seq<Byte>) {
    && CanStep(d) && Rank(Step(d).state) == Rank(d.state) + 1
    && Step(d).input == rest
    && Stored(Step(d).frame, h, Rank(d.state) + 1)
  }

  lemma ReadsFlag(h: Frame, d: Decoder, rest: seq<Byte>)
    requires d.state.WaitingStartFlag? || d.state.WaitingEndFlag?
    requires Stored(d.frame, h, Rank(d.state)) && d.input == Pieces(h)[Rank(d.state)] + rest
    ensures ReadsPiece(h, d, rest)
  {
  }

  lemma ReadsInt(h: Frame, d: Decoder, x: Int32, rest: seq<Byte>)
    requires Rank(d.state) in {1, 2, 4, 6, 7, 10} && Pieces(h)[Rank(d.state)] == NetBytes(x)
    requires match d.state
             case ParsePkLen => x == h.pkLen
             case ParseMsgIdLen => x == h.msgIdLen
             case ParseMethodNameLen => x == h.methodNameLen
             case ParseErrorCode => x == h.errorCode
             case ParseErrorInfoLen => x == h.errorInfoLen
             case _ => x == h.checkSum
    requires Stored(d.frame, h, Rank(d.state)) && d.input == NetBytes(x) + rest
    ensures ReadsPiece(h, d, rest)
  {
    assert d.input[..4] == NetBytes(x) && d.input[4..] == rest;
    NetBytesRoundTrip(x);
  }

  /** An empty string is filled with the rest. */
  lemma ReadsField(f: Frame, h: Frame, d: Decoder, rest: seq<Byte>)
    requires Consistent(f) && Rank(d.state) in {3, 5, 8, 9}
    requires Stored(d.frame, h, Rank(d.state)) && d.input == Pieces(f)[Rank(d.state)] + rest
    requires h.msgIdLen == f.msgIdLen && h.methodNameLen == f.methodNameLen && h.errorInfoLen == f.errorInfoLen
    requires Pieces(h)[Rank(d.state)] == if Pieces(f)[Rank(d.state)] == [] then rest else Pieces(f)[Rank(d.state)]
    requires d.state.ParseRpcData? ==> RemainingData(d) == |f.rpcData|
    ensures ReadsPiece(h, d, rest)
  {
    var p := Pieces(f)[Rank(d.state)];
    assert d.input[..|p|] == p && d.input[|p|..] == rest;
  }

  lemma StepReads(f: Frame, h: Frame, d: Decoder, rest: seq<Byte>)
    requires Consistent(f) && Rank(d.state) < 12 && Stored(d.frame, h, Rank(d.state))
    requires h.msgIdLen == f.msgIdLen && h.methodNameLen == f.methodNameLen && h.errorInfoLen == f.errorInfoLen
    requires var k, p := Rank(d.state), Pieces(f)[Rank(d.state)];
             d.input == p + rest && Pieces(h)[k] == if k in {3, 5, 8, 9} && p == [] then rest else p
    requires d.state.ParseRpcData? ==> RemainingData(d) == |f.rpcData|
    ensures ReadsPiece(h, d, rest)
  {
    var k := Rank(d.state);
    if k in {3, 5, 8, 9} {
      ReadsField(f, h, d, rest);
    } else if k in {0, 11} {
      ReadsFlag(h, d, rest);
    } else {
      ReadsSomeInt(h, d, rest);
    }
  }

  lemma ReadsSomeInt(h: Frame, d: Decoder, rest: seq<Byte>)
    requires Rank(d.state) in {1, 2, 4, 6, 7, 10}
    requires Stored(d.frame, h, Rank(d.state)) && d.input == Pieces(h)[Rank(d.state)] + rest
    ensures ReadsPiece(h, d, rest)
  {
    match d.state {
      case ParsePkLen => ReadsInt(h, d, h.pkLen, rest);
      case ParseMsgIdLen => ReadsInt(h, d, h.msgIdLen, rest);
      case ParseMethodNameLen => ReadsInt(h, d, h.methodNameLen, rest);
      case ParseErrorCode => ReadsInt(h, d, h.errorCode, rest);
      case ParseErrorInfoLen => ReadsInt(h, d, h.errorInfoLen, rest);
      case _ => ReadsInt(h, d, h.checkSum, rest);
    }
  }

  lemma FilledPiece(f: Frame, trailing: seq<Byte>, k: nat)
    requires k < 12
    ensures var p := Pieces(f)[k];
            Pieces(Filled(f, trailing))[k] == if k in {3, 5, 8, 9} && p == [] then Behind(f, trailing, k + 1) else p
  {
  }

  lemma {:induction false} ReadsOn(f: Frame, trailing: seq<Byte>, d: Decoder)
    requires Consistent(f) && Reading(f, trailing, d)
    ensures var r := Run(d);
            r.state.ParseSuccess? && r.input == trailing && r.frame == Filled(f, trailing)
    decreases 14 - Rank(d.state)
  {
    var k := Rank(d.state);
    if k == 12 {
      assert Pieces(f)[12..] == [];
      var e := Step(d);
      assert Run(e) == e;
    } else {
      AheadIsRead(f, trailing, d);
      StepReading(f, trailing, d);
      ReadsOn(f, trailing, Step(d));
    }
  }

  lemma DataDue(f: Frame, d: Decoder)
    requires Consistent(f) && Congruent(d.remainLen, f.pkLen - Offset(f, 9))
    ensures RemainingData(d) == |f.rpcData|
  {
    assert f.pkLen - Offset(f, 9) - 5 == |f.rpcData|;
    ToInt32Congruent(d.remainLen - 5, |f.rpcData|);
  }

  lemma AheadIsRead(f: Frame, trailing: seq<Byte>, d: Decoder)
    requires Consistent(f) && Reading(f, trailing, d) && Rank(d.state) < 12
    ensures ReadsPiece(Filled(f, trailing), d, Behind(f, trailing, Rank(d.state) + 1))
  {
    PieceAhead(f, trailing, Rank(d.state));
    FilledPiece(f, trailing, Rank(d.state));
    DataDueWhenRead(f, trailing, d);
    StepReads(f, Filled(f, trailing), d, Behind(f, trailing, Rank(d.state) + 1));
  }

  lemma DataDueWhenRead(f: Frame, trailing: seq<Byte>, d: Decoder)
    requires Consistent(f) && Reading(f, trailing, d)
    ensures d.state.ParseRpcData? ==> RemainingData(d) == |f.rpcData|
  {
    if d.state.ParseRpcData? {
      DataDue(f, d);
    }
  }

  lemma CountsOn(f: Frame, trailing: seq<Byte>, d: Decoder)
    requires Consistent(f) && Reading(f, trailing, d) && 1 <= Rank(d.state) < 11
    requires ReadsPiece(Filled(f, trailing), d, Behind(f, trailing, Rank(d.state) + 1))
    ensures Congruent(Step(d).remainLen, f.pkLen - Offset(f, Rank(d.state) + 1))
  {
    DataDueWhenRead(f, trailing, d);
    ReadingCounts(f, Filled(f, trailing), d);
  }

  lemma StepReading(f: Frame, trailing: seq<Byte>, d: Decoder)
    requires Consistent(f) && Reading(f, trailing, d) && Rank(d.state) < 12
    requires ReadsPiece(Filled(f, trailing), d, Behind(f, trailing, Rank(d.state) + 1))
    ensures Reading(f, trailing, Step(d))
  {
    if 1 <= Rank(d.state) < 11 {
      CountsOn(f, trailing, d);
    }
  }

  lemma ReadingCounts(f: Frame, h: Frame, d: Decoder)
    requires Consistent(f) && 1 <= Rank(d.state) < 11 && CanStep(d)
    requires h.pkLen == f.pkLen
    requires h.msgIdLen == f.msgIdLen && h.methodNameLen == f.methodNameLen && h.errorInfoLen == f.errorInfoLen
    requires Stored(d.frame, h, Rank(d.state)) && Stored(Step(d).frame, h, Rank(d.state) + 1)
    requires Rank(d.state) >= 2 ==> Congruent(d.remainLen, f.pkLen - Offset(f, Rank(d.state)))
    requires d.state.ParseRpcData? ==> RemainingData(d) == |f.rpcData|
    ensures Congruent(Step(d).remainLen, f.pkLen - Offset(f, Rank(d.state) + 1))
  {
    var k := Rank(d.state);
    if k == 1 {
      FirstCount(f.pkLen);
    } else {
      assert Offset(f, k + 1) == Offset(f, k) + Need(d);
      CongruentStep(d.remainLen, Need(d), f.pkLen - Offset(f, k));
    }
  }

  /** What a consistent frame decodes to, whatever is behind it: it is consumed to the byte and comes back
      intact, but for its empty strings, each filled with everything that was behind it. */
  lemma DecodesTo(f: Frame, trailing: seq<Byte>, remainLen: nat)
    requires Consistent(f)
    ensures var r := Run(Fresh(Encode(f) + trailing, remainLen));
            r.state.ParseSuccess? && r.input == trailing && r.frame == Filled(f, trailing)
  {
    assert Pieces(f)[0..] == Pieces(f);
    ReadsOn(f, trailing, Fresh(Encode(f) + trailing, remainLen));
  }

  lemma FilledFields(f: Frame, trailing: seq<Byte>)
    requires Consistent(f)
    ensures Clean(Filled(f, trailing)) == f
    ensures Filled(f, trailing) == f <==> f.msgId != [] && f.methodName != [] && f.errorInfo != [] && f.rpcData != []
  {
    CleanFilled(f, trailing);
    forall k | k in {4, 6, 9, 10}
      ensures Behind(f, trailing, k) != []
    {
      TailNonEmpty(f, k);
    }
  }

  lemma CleanFilled(f: Frame, trailing: seq<Byte>)
    requires Consistent(f)
    ensures Clean(Filled(f, trailing)) == f
  {
    DeclaredData(f);
    assert DataLen(Filled(f, trailing)) == DataLen(f);
  }

  /** Print then parse.  Any consistent frame, followed by anything, decodes successfully, is
      consumed to the byte, and comes back with every integer and every non-empty field intact. */
  lemma PrintThenParse(f: Frame, trailing: seq<Byte>, remainLen: nat)
    requires Consistent(f)
    ensures var r := Run(Fresh(Encode(f) + trailing, remainLen));
            && r.state.ParseSuccess?
            && r.input == trailing
            && Clean(r.frame) == f
    ensures var r := Run(Fresh(Encode(f) + trailing, remainLen));
            r.frame == f <==> f.msgId != [] && f.methodName != [] && f.errorInfo != [] && f.rpcData != []
  {
    DecodesTo(f, trailing, remainLen);
    FilledFields(f, trailing);
  }

  /** Empty data comes back as the check sum, the end flag and every byte behind the frame. */
  lemma EmptyDataIsFilled(f: Frame, trailing: seq<Byte>, remainLen: nat)
    requires Consistent(f) && f.rpcData == []
    ensures Run(Fresh(Encode(f) + trailing, remainLen)).frame.rpcData == NetBytes(f.checkSum) + [END_FLAG] + trailing
  {
    DecodesTo(f, trailing, remainLen);
    var p := Pieces(f);
    ConcatSnoc(p, 10);
    ConcatSnoc(p, 11);
    assert p[12..] == [];
    assert Concat(p[10..]) == NetBytes(f.checkSum) + [END_FLAG];
  }

  /** So the data a method is given depends on what else has arrived exactly when it was sent empty. */
  lemma DataIndependentIff(f: Frame, trailing: seq<Byte>, remainLen: nat)
    requires Consistent(f) && trailing != []
    ensures Run(Fresh(Encode(f) + trailing, remainLen)).frame.rpcData == Run(Fresh(Encode(f), remainLen)).frame.rpcData
            <==> f.rpcData != []
  {
    assert Encode(f) + [] == Encode(f);
    DecodesTo(f, trailing, remainLen);
    DecodesTo(f, [], remainLen);
    if f.rpcData == [] {
      assert |Behind(f, trailing, 10)| > |Behind(f, [], 10)|;
    }
  }
}
