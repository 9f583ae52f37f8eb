/** The protocol record, the resumable decoder and the encoder, as objects that change in place. */
module RpcProtocols {
  import opened Words
  import opened TcpBuffers
  import opened RpcFrames

  class RpcProtocol {
    var pkLen: Int32
    var msgIdLen: Int32
    var msgId: seq<Byte>
    var methodNameLen: Int32
    var methodName: seq<Byte>
    var errorCode: Int32
    var errorInfoLen: Int32
    var errorInfo: seq<Byte>
    var rpcData: seq<Byte>
    var checkSum: Int32

    ghost function View(): Frame
      reads this
    {
      Frame(pkLen, msgIdLen, msgId, methodNameLen, methodName, errorCode, errorInfoLen, errorInfo, rpcData, checkSum)
    }

    constructor ()
      ensures View() == EMPTY_FRAME
    {
      pkLen, msgIdLen, msgId, methodNameLen, methodName := 0, 0, [], 0, [];
      errorCode, errorInfoLen, errorInfo, rpcData, checkSum := 0, 0, [], [], 0;
    }

    method Clear()
      modifies this
      ensures View() == EMPTY_FRAME
    {
      pkLen, msgIdLen, msgId, methodNameLen, methodName := 0, 0, [], 0, [];
      errorCode, errorInfoLen, errorInfo, rpcData, checkSum := 0, 0, [], [], 0;
    }
  }

  /** The packet length has been read; what it leaves is what remains of the packet. */
  function PkLenRead(d: Decoder): Decoder
    requires |d.input| >= 4
  {
    var v := FromNetBytes(d.input[..4]);
    Decoder(ParseMsgIdLen, FirstCountOf(v), d.frame.(pkLen := v), d.input[4..])
  }

  /** The running count when the packet length has just been read. */
  function FirstCountOf(pkLen: Int32): nat {
    var rest: int := pkLen - 5;
    ToSizeT(ToInt32(rest))
  }

  lemma PkLenStep(d: Decoder)
    requires d.state.ParsePkLen? && |d.input| >= 4
    ensures Step(d) == PkLenRead(d) && Run(Step(d)) == Run(d)
  {
    RunOneStep(d);
  }

  class RpcDecoder {
    const req: RpcProtocol
    const inBuffer: TcpBuffer
    var remainLen: nat
    var state: State

    ghost function View(): Decoder
      reads this, req, inBuffer
      requires inBuffer.Valid()
    {
      Decoder(state, remainLen, req.View(), inBuffer.Contents())
    }

    /** A string is shorter than half the address space. */
    ghost predicate Valid()
      reads this, req, inBuffer
    {
      inBuffer.Valid() && |inBuffer.Contents()| < TWO_64 / 2
    }

    constructor (buffer: TcpBuffer)
      requires buffer.Valid() && |buffer.Contents()| < TWO_64 / 2
      ensures inBuffer == buffer && fresh(req) && Valid() && View() == Fresh(buffer.Contents(), 0)
    {
      req := new RpcProtocol();
      inBuffer, remainLen, state := buffer, 0, WaitingStartFlag;
    }

    predicate IsFailed()
      reads this
    {
      state.ParseFailed?
    }

    /** What every block of `Decode` keeps: the value-level decoder would run to the same end from
        here; a block that gives up has reached that end. */
    ghost predicate OnTheWay(goal: Decoder, ok: bool)
      reads this, req, inBuffer
    {
      Valid() && Run(View()) == goal && (!ok ==> !CanStep(View()) && !state.ParseSuccess?)
    }

    method Flag(flag: Byte, next: State) returns (ok: bool)
      requires Valid()
      requires (state.WaitingStartFlag? && flag == START_FLAG && next == ParsePkLen)
            || (state.WaitingEndFlag? && flag == END_FLAG && next == State.ValidCheckSum)
      modifies this`state, inBuffer
      ensures OnTheWay(Run(old(View())), ok) && (ok ==> state == next)
    {
      ghost var d := View();
      if inBuffer.Size() < 1 {
        return false;
      }
      RunOneStep(d);
      if inBuffer.At(0) == flag {
        inBuffer.MoveForward(1);
        state := next;
        assert View() == Step(d);
        return true;
      } else {
        state := ParseFailed;
        assert View() == Step(d);
        return false;
      }
    }

    method PkLen() returns (ok: bool)
      requires Valid() && state.ParsePkLen?
      modifies this, req`pkLen, inBuffer
      ensures OnTheWay(Run(old(View())), ok) && (ok ==> state == ParseMsgIdLen)
    {
      ghost var d := View();
      if inBuffer.Size() < 4 {
        return false;
      }
      ReadPkLen();
      PkLenStep(d);
      return true;
    }

    method ReadPkLen()
      requires Valid() && state.ParsePkLen? && |inBuffer.Contents()| >= 4
      modifies this, req`pkLen, inBuffer
      ensures Valid() && View() == PkLenRead(old(View()))
    {
      ghost var d := View();
      var bytes := inBuffer.Substr(0, 4);
      assert bytes == d.input[..4];
      SetPkLen(FromNetBytes(bytes));
      inBuffer.MoveForward(4);
    }

    method SetPkLen(v: Int32)
      modifies this`remainLen, this`state, req`pkLen
      ensures req.View() == old(req.View()).(pkLen := v) && remainLen == FirstCountOf(v) && state == ParseMsgIdLen
    {
      req.pkLen, remainLen, state := v, FirstCountOf(v), ParseMsgIdLen;
    }

    method MsgIdLen() returns (ok: bool)
      requires Valid() && state.ParseMsgIdLen?
      modifies this, req`msgIdLen, inBuffer
      ensures OnTheWay(Run(old(View())), ok) && (ok ==> state == ParseMsgId)
    {
      if inBuffer.Size() < 4 {
        return false;
      }
      req.msgIdLen := FromNetBytes(inBuffer.Substr(0, 4));
      remainLen := Less(remainLen, 4);
      inBuffer.MoveForward(4);
      state := ParseMsgId;
      return true;
    }

    method MsgId() returns (ok: bool)
      requires Valid() && state.ParseMsgId?
      modifies this, req`msgId, inBuffer
      ensures OnTheWay(Run(old(View())), ok) && (ok ==> state == ParseMethodNameLen)
    {
      var len: Int32 := req.msgIdLen;
      UnsignedCompare(inBuffer.Size(), len);
      if inBuffer.Size() < ToSizeT(len) {
        return false;
      }
      req.msgId := inBuffer.Substr(0, len);
      remainLen := Less(remainLen, len);
      inBuffer.MoveForward(len);
      state := ParseMethodNameLen;
      return true;
    }

    method MethodNameLen() returns (ok: bool)
      requires Valid() && state.ParseMethodNameLen?
      modifies this, req`methodNameLen, inBuffer
      ensures OnTheWay(Run(old(View())), ok) && (ok ==> state == ParseMethodName)
    {
      if inBuffer.Size() < 4 {
        return false;
      }
      req.methodNameLen := FromNetBytes(inBuffer.Substr(0, 4));
      remainLen := Less(remainLen, 4);
      inBuffer.MoveForward(4);
      state := ParseMethodName;
      return true;
    }

    method MethodName() returns (ok: bool)
      requires Valid() && state.ParseMethodName?
      modifies this, req`methodName, inBuffer
      ensures OnTheWay(Run(old(View())), ok) && (ok ==> state == ParseErrorCode)
    {
      var len: Int32 := req.methodNameLen;
      UnsignedCompare(inBuffer.Size(), len);
      if inBuffer.Size() < ToSizeT(len) {
        return false;
      }
      req.methodName := inBuffer.Substr(0, len);
      remainLen := Less(remainLen, len);
      inBuffer.MoveForward(len);
      state := ParseErrorCode;
      return true;
    }

    method ErrorCode() returns (ok: bool)
      requires Valid() && state.ParseErrorCode?
      modifies this, req`errorCode, inBuffer
      ensures OnTheWay(Run(old(View())), ok) && (ok ==> state == ParseErrorInfoLen)
    {
      if inBuffer.Size() < 4 {
        return false;
      }
      req.errorCode := FromNetBytes(inBuffer.Substr(0, 4));
      remainLen := Less(remainLen, 4);
      inBuffer.MoveForward(4);
      state := ParseErrorInfoLen;
      return true;
    }

    method ErrorInfoLen() returns (ok: bool)
      requires Valid() && state.ParseErrorInfoLen?
      modifies this, req`errorInfoLen, inBuffer
      ensures OnTheWay(Run(old(View())), ok) && (ok ==> state == ParseErrorInfo)
    {
      if inBuffer.Size() < 4 {
        return false;
      }
      req.errorInfoLen := FromNetBytes(inBuffer.Substr(0, 4));
      remainLen := Less(remainLen, 4);
      inBuffer.MoveForward(4);
      state := ParseErrorInfo;
      return true;
    }

    method ErrorInfo() returns (ok: bool)
      requires Valid() && state.ParseErrorInfo?
      modifies this, req`errorInfo, inBuffer
      ensures OnTheWay(Run(old(View())), ok) && (ok ==> state == ParseRpcData)
    {
      var len: Int32 := req.errorInfoLen;
      UnsignedCompare(inBuffer.Size(), len);
      if inBuffer.Size() < ToSizeT(len) {
        return false;
      }
      req.errorInfo := inBuffer.Substr(0, len);
      remainLen := Less(remainLen, len);
      inBuffer.MoveForward(len);
      state := ParseRpcData;
      return true;
    }

    method RpcData() returns (ok: bool)
      requires Valid() && state.ParseRpcData?
      modifies this, req`rpcData, inBuffer
      ensures OnTheWay(Run(old(View())), ok) && (ok ==> state == ParseCheckSum)
    {
      ghost var d := View();
      var len: Int32 := ToInt32(remainLen - 5);
      UnsignedCompare(inBuffer.Size(), len);
      if inBuffer.Size() < ToSizeT(len) {
        return false;
      }
      req.rpcData := inBuffer.Substr(0, len);
      remainLen := Less(remainLen, len);
      inBuffer.MoveForward(len);
      state := ParseCheckSum;
      assert View() == Step(d);
      RunOneStep(d);
      return true;
    }

    method CheckSum() returns (ok: bool)
      requires Valid() && state.ParseCheckSum?
      modifies this, req`checkSum, inBuffer
      ensures OnTheWay(Run(old(View())), ok) && (ok ==> state == WaitingEndFlag)
    {
      if inBuffer.Size() < 4 {
        return false;
      }
      req.checkSum := FromNetBytes(inBuffer.Substr(0, 4));
      remainLen := Less(remainLen, 4);
      inBuffer.MoveForward(4);
      state := WaitingEndFlag;
      return true;
    }

    method Head() returns (ok: bool)
      requires Valid() && 0 <= Rank(state) < 13
      modifies this, req, inBuffer
      ensures OnTheWay(Run(old(View())), ok) && (ok ==> 4 <= Rank(state) < 13)
    {
      ok := true;
      if state.WaitingStartFlag? {
        ok := Flag(START_FLAG, ParsePkLen);
        if !ok { return; }
      }
      if state.ParsePkLen? {
        ok := PkLen();
        if !ok { return; }
      }
      if state.ParseMsgIdLen? {
        ok := MsgIdLen();
        if !ok { return; }
      }
      if state.ParseMsgId? {
        ok := MsgId();
      }
    }

    method Names() returns (ok: bool)
      requires Valid() && 4 <= Rank(state) < 13
      modifies this, req, inBuffer
      ensures OnTheWay(Run(old(View())), ok) && (ok ==> 7 <= Rank(state) < 13)
    {
      ok := true;
      if state.ParseMethodNameLen? {
        ok := MethodNameLen();
        if !ok { return; }
      }
      if state.ParseMethodName? {
        ok := MethodName();
        if !ok { return; }
      }
      if state.ParseErrorCode? {
        ok := ErrorCode();
      }
    }

    method Rest() returns (ok: bool)
      requires Valid() && 7 <= Rank(state) < 13
      modifies this, req, inBuffer
      ensures OnTheWay(Run(old(View())), ok) && (ok ==> 10 <= Rank(state) < 13)
    {
      ok := true;
      if state.ParseErrorInfoLen? {
        ok := ErrorInfoLen();
        if !ok { return; }
      }
      if state.ParseErrorInfo? {
        ok := ErrorInfo();
        if !ok { return; }
      }
      if state.ParseRpcData? {
        ok := RpcData();
      }
    }

    /** `valid_check_sum` is not implemented yet: it takes every check sum for valid. */
    method Trailer() returns (ok: bool)
      requires Valid() && 10 <= Rank(state) < 13
      modifies this, req, inBuffer
      ensures OnTheWay(Run(old(View())), ok) && (ok ==> state.ParseSuccess?)
    {
      ok := true;
      if state.ParseCheckSum? {
        ok := CheckSum();
        if !ok { return; }
      }
      if state.WaitingEndFlag? {
        ok := Flag(END_FLAG, State.ValidCheckSum);
        if !ok { return; }
      }
      if state.ValidCheckSum? {
        state := ParseSuccess;
      }
    }

    /** The cascade of blocks. */
    method Blocks() returns (ok: bool)
      requires Valid() && Rank(state) < 13
      modifies this, req, inBuffer
      ensures Valid() && View() == Run(old(View())) && ok == state.ParseSuccess?
    {
      ok := Head();
      if ok { ok := Names(); }
      if ok { ok := Rest(); }
      if ok { ok := Trailer(); }
    }

    /** One call decodes as far as the bytes go, exactly as the value-level decoder does, and hands out
        the same object every time, or null. */
    method Decode() returns (r: RpcProtocol?)
      requires Valid()
      modifies this, req, inBuffer
      ensures Valid() && View() == RpcFrames.Decode(old(View()))
      ensures r == if state.ParseSuccess? then req else null
    {
      if state.ParseSuccess? || state.ParseFailed? {
        req.Clear();
        state := WaitingStartFlag;
      }
      var ok := Blocks();
      return if ok then req else null;
    }
  }

  // ---------------------------------------------------------------- encoder

  /** The buffer holds what it held and the first k pieces of the frame. */
  ghost predicate Holds(contents: seq<Byte>, before: seq<Byte>, f: Frame, k: nat) {
    k <= 12 && contents == before + Concat(Pieces(f)[..k])
  }

  lemma HoldsNone(contents: seq<Byte>, f: Frame)
    ensures Holds(contents, contents, f, 0)
  {
    assert Pieces(f)[..0] == [];
  }

  lemma HoldsMore(contents: seq<Byte>, before: seq<Byte>, f: Frame, k: nat)
    requires Holds(contents, before, f, k) && k < 12
    ensures Holds(contents + Pieces(f)[k], before, f, k + 1)
  {
    ConcatSnoc(Pieces(f), k);
    assert before + Concat(Pieces(f)[..k]) + Pieces(f)[k] == before + (Concat(Pieces(f)[..k]) + Pieces(f)[k]);
  }

  lemma HoldsAll(contents: seq<Byte>, before: seq<Byte>, f: Frame)
    requires Holds(contents, before, f, 12)
    ensures contents == before + Encode(f)
  {
    assert Pieces(f)[..12] == Pieces(f);
  }

  method AppendInt(value: Int32, out: TcpBuffer, ghost before: seq<Byte>, ghost f: Frame, ghost k: nat)
    requires out.Valid() && Holds(out.Contents(), before, f, k) && k < 12 && Pieces(f)[k] == NetBytes(value)
    modifies out
    ensures out.Valid() && Holds(out.Contents(), before, f, k + 1)
  {
    HoldsMore(out.Contents(), before, f, k);
    out.Append(NetBytes(value));
  }

  method AppendString(value: seq<Byte>, out: TcpBuffer, ghost before: seq<Byte>, ghost f: Frame, ghost k: nat)
    requires out.Valid() && Holds(out.Contents(), before, f, k) && k < 12 && Pieces(f)[k] == value
    modifies out
    ensures out.Valid() && Holds(out.Contents(), before, f, k + 1)
  {
    HoldsMore(out.Contents(), before, f, k);
    out.AddString(value);
  }

  method AppendFlag(value: Byte, out: TcpBuffer, ghost before: seq<Byte>, ghost f: Frame, ghost k: nat)
    requires out.Valid() && Holds(out.Contents(), before, f, k) && k < 12 && Pieces(f)[k] == [value]
    modifies out
    ensures out.Valid() && Holds(out.Contents(), before, f, k + 1)
  {
    HoldsMore(out.Contents(), before, f, k);
    out.AddChar(value);
  }

  /** Behind whatever is still unsent, exactly one frame is appended, field by field. */
  method RpcEncoder(p: RpcProtocol, out: TcpBuffer)
    requires out.Valid()
    modifies out
    ensures out.Valid() && out.Contents() == old(out.Contents()) + Encode(p.View())
  {
    ghost var b, f := out.Contents(), p.View();
    HoldsNone(b, f);
    AppendFlag(START_FLAG, out, b, f, 0);
    AppendInt(p.pkLen, out, b, f, 1);
    AppendInt(p.msgIdLen, out, b, f, 2);
    AppendString(p.msgId, out, b, f, 3);
    AppendInt(p.methodNameLen, out, b, f, 4);
    AppendString(p.methodName, out, b, f, 5);
    AppendInt(p.errorCode, out, b, f, 6);
    AppendInt(p.errorInfoLen, out, b, f, 7);
    AppendString(p.errorInfo, out, b, f, 8);
    AppendString(p.rpcData, out, b, f, 9);
    AppendInt(p.checkSum, out, b, f, 10);
    AppendFlag(END_FLAG, out, b, f, 11);
    HoldsAll(out.Contents(), b, f);
  }

  /** Not implemented in the source: zero. */
  method FillCheckSum(p: RpcProtocol)
    modifies p`checkSum
    ensures p.checkSum == 0
  {
    p.checkSum := 0;
  }
}
