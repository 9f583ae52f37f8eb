/** The RPC frame, its encoding, and the decoder's state machine, on values. */
module RpcFrames {
  import opened Words

  const START_FLAG: Byte := 0x02
  const END_FLAG: Byte := 0x03

  /** RpcProtocol. */
  datatype Frame = Frame(
    pkLen: Int32, msgIdLen: Int32, msgId: seq<Byte>, methodNameLen: Int32, methodName: seq<Byte>,
    errorCode: Int32, errorInfoLen: Int32, errorInfo: seq<Byte>, rpcData: seq<Byte>, checkSum: Int32)

  const EMPTY_FRAME := Frame(0, 0, [], 0, [], 0, 0, [], [], 0)

  /** The frame cut at the points where the decoder changes state. */
  function Pieces(f: Frame): (s: seq<seq<Byte>>)
    ensures |s| == 12
  {
    [[START_FLAG], NetBytes(f.pkLen), NetBytes(f.msgIdLen), f.msgId, NetBytes(f.methodNameLen), f.methodName,
     NetBytes(f.errorCode), NetBytes(f.errorInfoLen), f.errorInfo, f.rpcData, NetBytes(f.checkSum), [END_FLAG]]
  }

  function Concat(s: seq<seq<Byte>>): seq<Byte> {
    if s == [] then [] else s[0] + Concat(s[1..])
  }

  /** What RpcEncoder appends. */
  function Encode(f: Frame): seq<Byte> {
    Concat(Pieces(f))
  }

  /** The length the sender declares for the rpc data, as the decoder will compute it. */
  function DataLen(f: Frame): Int32 {
    ToInt32(f.pkLen - 26 - f.msgIdLen - f.methodNameLen - f.errorInfoLen)
  }

  /** The declared lengths are the actual ones. */
  predicate Consistent(f: Frame) {
    && f.msgIdLen == |f.msgId| && f.methodNameLen == |f.methodName| && f.errorInfoLen == |f.errorInfo|
    && f.pkLen == 26 + |f.msgId| + |f.methodName| + |f.errorInfo| + |f.rpcData|
  }

  // ---------------------------------------------------------------- decoder

  datatype State =
    | WaitingStartFlag | ParsePkLen | ParseMsgIdLen | ParseMsgId | ParseMethodNameLen | ParseMethodName
    | ParseErrorCode | ParseErrorInfoLen | ParseErrorInfo | ParseRpcData | ParseCheckSum | WaitingEndFlag
    | ValidCheckSum | ParseSuccess | ParseFailed

  /** The numbering of the source's enumeration. */
  function Rank(s: State): nat {
    match s
    case WaitingStartFlag => 0 case ParsePkLen => 1 case ParseMsgIdLen => 2 case ParseMsgId => 3
    case ParseMethodNameLen => 4 case ParseMethodName => 5 case ParseErrorCode => 6 case ParseErrorInfoLen => 7
    case ParseErrorInfo => 8 case ParseRpcData => 9 case ParseCheckSum => 10 case WaitingEndFlag => 11
    case ValidCheckSum => 12 case ParseSuccess => 13 case ParseFailed => 14
  }

  /** The decoder's fields and the unread bytes of the connection's buffer. */
  datatype Decoder = Decoder(state: State, remainLen: nat, frame: Frame, input: seq<Byte>)

  predicate Finished(s: State) { s.ParseSuccess? || s.ParseFailed? }

  /** `m_in_buffer.size() < len` is false; see UnsignedCompare. */
  predicate Enough(input: seq<Byte>, len: Int32) { 0 <= len <= |input| }

  /** `substr(0, len)`: a zero length yields everything unread. */
  function Field(input: seq<Byte>, len: Int32): seq<Byte>
    requires Enough(input, len)
  {
    if len != 0 then input[..len] else input
  }

  /** The length the decoder gives the rpc data: what its running count leaves, less the trailer. */
  function RemainingData(d: Decoder): Int32 {
    ToInt32(d.remainLen - 5)
  }

  /** There are enough bytes for the current state to do its work. */
  predicate CanStep(d: Decoder) {
    match d.state
    case WaitingStartFlag => |d.input| >= 1
    case ParseMsgId => Enough(d.input, d.frame.msgIdLen)
    case ParseMethodName => Enough(d.input, d.frame.methodNameLen)
    case ParseErrorInfo => Enough(d.input, d.frame.errorInfoLen)
    case ParseRpcData => Enough(d.input, RemainingData(d))
    case WaitingEndFlag => |d.input| >= 1
    case ValidCheckSum => true
    case ParseSuccess => false
    case ParseFailed => false
    case _ => |d.input| >= 4
  }

  function Less(remainLen: nat, n: int): nat { ToSizeT(remainLen - n) }

  /** One `if (m_state == ...)` block of decode. */
  function Step(d: Decoder): Decoder
    requires CanStep(d)
  {
    var inp := d.input;
    match d.state
    case WaitingStartFlag =>
      if inp[0] == START_FLAG then d.(state := ParsePkLen, input := inp[1..]) else d.(state := ParseFailed)
    case ParsePkLen =>
      var v := FromNetBytes(inp[..4]);
      Decoder(ParseMsgIdLen, ToSizeT(ToInt32(v - 5)), d.frame.(pkLen := v), inp[4..])
    case ParseMsgIdLen =>
      Decoder(ParseMsgId, Less(d.remainLen, 4), d.frame.(msgIdLen := FromNetBytes(inp[..4])), inp[4..])
    case ParseMsgId =>
      var len := d.frame.msgIdLen;
      Decoder(ParseMethodNameLen, Less(d.remainLen, len), d.frame.(msgId := Field(inp, len)), inp[len..])
    case ParseMethodNameLen =>
      Decoder(ParseMethodName, Less(d.remainLen, 4), d.frame.(methodNameLen := FromNetBytes(inp[..4])), inp[4..])
    case ParseMethodName =>
      var len := d.frame.methodNameLen;
      Decoder(ParseErrorCode, Less(d.remainLen, len), d.frame.(methodName := Field(inp, len)), inp[len..])
    case ParseErrorCode =>
      Decoder(ParseErrorInfoLen, Less(d.remainLen, 4), d.frame.(errorCode := FromNetBytes(inp[..4])), inp[4..])
    case ParseErrorInfoLen =>
      Decoder(ParseErrorInfo, Less(d.remainLen, 4), d.frame.(errorInfoLen := FromNetBytes(inp[..4])), inp[4..])
    case ParseErrorInfo =>
      var len := d.frame.errorInfoLen;
      Decoder(ParseRpcData, Less(d.remainLen, len), d.frame.(errorInfo := Field(inp, len)), inp[len..])
    case ParseRpcData =>
      var len := RemainingData(d);
      Decoder(ParseCheckSum, Less(d.remainLen, len), d.frame.(rpcData := Field(inp, len)), inp[len..])
    case ParseCheckSum =>
      Decoder(WaitingEndFlag, Less(d.remainLen, 4), d.frame.(checkSum := FromNetBytes(inp[..4])), inp[4..])
    case WaitingEndFlag =>
      if inp[0] == END_FLAG then d.(state := ValidCheckSum, input := inp[1..]) else d.(state := ParseFailed)
    case ValidCheckSum => d.(state := ParseSuccess)
  }

  lemma StepRanks(d: Decoder)
    requires CanStep(d)
    ensures Rank(Step(d).state) == Rank(d.state) + 1 || (Step(d).state.ParseFailed? && Rank(d.state) < 12)
    ensures |Step(d).input| <= |d.input|
  {
  }

  /** The cascade of blocks: as far as the bytes allow. */
  function Run(d: Decoder): Decoder
    decreases 14 - Rank(d.state)
  {
    if CanStep(d) then StepRanks(d); Run(Step(d)) else d
  }

  lemma RunOneStep(d: Decoder)
    requires CanStep(d)
    ensures Run(d) == Run(Step(d))
  {
  }

  /** What `decode` first does after a finished frame. */
  function Fresh(input: seq<Byte>, remainLen: nat): Decoder {
    Decoder(WaitingStartFlag, remainLen, EMPTY_FRAME, input)
  }

  function Ready(d: Decoder): Decoder {
    if Finished(d.state) then Fresh(d.input, d.remainLen) else d
  }

  /** A call of `decode`; it returns the frame when the state is ParseSuccess, and null otherwise. */
  function Decode(d: Decoder): Decoder { Run(Ready(d)) }

  /** More bytes arrive in the connection's buffer. */
  function Feed(d: Decoder, chunk: seq<Byte>): Decoder { d.(input := d.input + chunk) }

  // ------------------------------------------- what zero-length fields do

  /** A zero-length field is filled with the unread rest of the buffer; Clean blanks those fields. */
  function Clean(f: Frame): Frame {
    f.(msgId := if f.msgIdLen == 0 then [] else f.msgId,
       methodName := if f.methodNameLen == 0 then [] else f.methodName,
       errorInfo := if f.errorInfoLen == 0 then [] else f.errorInfo,
       rpcData := if DataLen(f) == 0 then [] else f.rpcData)
  }

  // ---------------------------------------------------------- concatenation

  lemma {:induction false} ConcatSplit(s: seq<seq<Byte>>, t: seq<seq<Byte>>)
    ensures Concat(s + t) == Concat(s) + Concat(t)
  {
    if s == [] {
      assert s + t == t;
    } else {
      assert (s + t)[1..] == s[1..] + t;
      ConcatSplit(s[1..], t);
    }
  }

  lemma ConcatSnoc(s: seq<seq<Byte>>, k: nat)
    requires k < |s|
    ensures Concat(s[..k + 1]) == Concat(s[..k]) + s[k]
    ensures Concat(s[k..]) == s[k] + Concat(s[k + 1..])
  {
    assert s[..k + 1] == s[..k] + [s[k]];
    ConcatSplit(s[..k], [s[k]]);
    assert Concat([s[k]]) == s[k] + Concat([]);
  }

  lemma ConcatSnocLen(s: seq<seq<Byte>>, k: nat)
    requires k < |s|
    ensures |Concat(s[..k + 1])| == |Concat(s[..k])| + |s[k]|
  {
    ConcatSnoc(s, k);
  }

  /** The length of the part encoded before piece k. */
  function Offset(f: Frame, k: nat): int
    requires k <= 12
  {
    (if k <= 0 then 0 else if k <= 3 then 4 * k - 3 else if k <= 5 then 4 * k - 7 else if k <= 8 then 4 * k - 11
     else if k <= 10 then 21 else if k == 11 then 25 else 26)
    + (if k > 3 then |f.msgId| else 0) + (if k > 5 then |f.methodName| else 0)
    + (if k > 8 then |f.errorInfo| else 0) + (if k > 9 then |f.rpcData| else 0)
  }

  lemma {:induction false} PrefixLength(f: Frame, k: nat)
    requires k <= 12
    ensures |Concat(Pieces(f)[..k])| == Offset(f, k)
  {
    if k > 0 {
      PrefixLength(f, k - 1);
      ConcatSnocLen(Pieces(f), k - 1);
    }
  }

  lemma EncodeLength(f: Frame)
    ensures |Encode(f)| == 26 + |f.msgId| + |f.methodName| + |f.errorInfo| + |f.rpcData|
  {
    PrefixLength(f, 12);
    assert Pieces(f)[..12] == Pieces(f);
  }

  /** A frame on the wire: the flags 2 and 3, and between them integers in network order and strings. */
  lemma WireForm(f: Frame)
    ensures var e := Encode(f);
            && e == [0x02] + NetBytes(f.pkLen) + NetBytes(f.msgIdLen) + f.msgId
                  + NetBytes(f.methodNameLen) + f.methodName + NetBytes(f.errorCode)
                  + NetBytes(f.errorInfoLen) + f.errorInfo + f.rpcData + NetBytes(f.checkSum) + [0x03]
            && |e| >= 26 && e[0] == 0x02 && e[|e| - 1] == 0x03
            && var b: seq<int> := e;
               f.pkLen % 0x1_0000_0000 == b[1] * 0x100_0000 + b[2] * 0x1_0000 + b[3] * 0x100 + b[4]
  {
    var p := Pieces(f);
    ConcatHalves(p, 6);
    ConcatSix([p[0], p[1], p[2], p[3], p[4], p[5]]);
    ConcatSix([p[6], p[7], p[8], p[9], p[10], p[11]]);
    assert p[..6] == [p[0], p[1], p[2], p[3], p[4], p[5]];
    assert p[6..] == [p[6], p[7], p[8], p[9], p[10], p[11]];
    EncodeLength(f);
    BigEndian(f.pkLen);
    var e := Encode(f);
    var left := p[0] + p[1] + p[2] + p[3] + p[4] + p[5];
    var right := p[6] + p[7] + p[8] + p[9] + p[10] + p[11];
    assert e == left + right;
    assert left[1] == p[1][0] && left[2] == p[1][1] && left[3] == p[1][2] && left[4] == p[1][3];
    assert right[|right| - 1] == p[11][0];
  }

  lemma ConcatHalves(s: seq<seq<Byte>>, k: nat)
    requires k <= |s|
    ensures Concat(s) == Concat(s[..k]) + Concat(s[k..])
  {
    assert s == s[..k] + s[k..];
    ConcatSplit(s[..k], s[k..]);
  }

  lemma ConcatThree(a: seq<Byte>, b: seq<Byte>, c: seq<Byte>)
    ensures Concat([a, b, c]) == a + b + c
  {
    assert [a, b, c][1..] == [b, c] && [b, c][1..] == [c] && [c][1..] == [];
    assert Concat([c]) == c + [] == c;
    assert Concat([b, c]) == b + c;
    assert a + (b + c) == a + b + c;
  }

  lemma ConcatSix(s: seq<seq<Byte>>)
    requires |s| == 6
    ensures Concat(s) == s[0] + s[1] + s[2] + s[3] + s[4] + s[5]
  {
    ConcatHalves(s, 3);
    assert s[..3] == [s[0], s[1], s[2]] && s[3..] == [s[3], s[4], s[5]];
    ConcatThree(s[0], s[1], s[2]);
    ConcatThree(s[3], s[4], s[5]);
  }
}
