/** The registered services and the processing of one request, as `process` does it in place. */
module RpcServices {
  import opened Options
  import opened Words
  import opened TcpBuffers
  import opened RpcFrames
  import opened RpcProtocols
  import opened RpcServer

  /** The error an undispatched request leaves in the response record. */
  ghost function ErrorOf(reg: Registry, name: seq<Byte>): (Int32, seq<Byte>) {
    match FirstDot(name)
    case None => (ERROR_PARSE_METHOD_NAME, Ascii("parse method name error"))
    case Some(p) =>
      if name[..p] !in reg then (ERROR_SERVICE_NOT_FOUND, Ascii("service not found"))
      else if name[p + 1..] !in reg[name[..p]] then (ERROR_SERVICE_NOT_FOUND, Ascii("method not found"))
      else (ERROR_DESERIALIZE_FAILED, Ascii("deserialize error"))
  }

  /** The response record with the request's id and method name. */
  ghost function Addressed(f: Frame, rsp: Frame): Frame {
    rsp.(msgIdLen := f.msgIdLen, msgId := f.msgId, methodNameLen := f.methodNameLen, methodName := f.methodName)
  }

  /** The response record after a request that is not dispatched: id, method name and error are set,
      everything else is as it was. */
  ghost function ErrorFrame(reg: Registry, f: Frame, rsp: Frame): Frame {
    var (code, info) := ErrorOf(reg, f.methodName);
    Addressed(f, rsp).(errorCode := code, errorInfoLen := ToInt32(|info|), errorInfo := info)
  }

  /** What the reply closure makes of the response record. */
  ghost function Answer(rsp: Frame, response: Option<seq<Byte>>): Frame {
    var (code, info, data) :=
      if response.Some? then (ERROR_NONE, [], response.value) else (ERROR_SERIALIZE_FAILED, Ascii("serialize error"), []);
    rsp.(pkLen := ToInt32(26 + rsp.msgIdLen + rsp.methodNameLen + |info| + |data|), errorCode := code,
         errorInfoLen := |info|, errorInfo := info, rpcData := data, checkSum := 0)
  }

  /** What becomes of a request for service.method: it is dispatched if both exist and the argument can be
      parsed, and otherwise the record tells which check failed first. */
  lemma NamedOutcome(reg: Registry, f: Frame, service: seq<Byte>, method_: seq<Byte>)
    requires f.methodName == service + [0x2E] + method_ && 0x2E !in service
    ensures Dispatched(reg, f) <==> service in reg && method_ in reg[service] && reg[service][method_].parses(f.rpcData)
    ensures Dispatched(reg, f) ==> Lookup(reg, f.methodName) == Some(reg[service][method_])
    ensures service !in reg ==> ErrorOf(reg, f.methodName) == (2, Ascii("service not found"))
    ensures service in reg && method_ !in reg[service] ==> ErrorOf(reg, f.methodName) == (2, Ascii("method not found"))
    ensures service in reg && method_ in reg[service] ==> ErrorOf(reg, f.methodName) == (4, Ascii("deserialize error"))
  {
    SplitAtFirstDot(service, method_);
  }

  /** And for a name without a dot. */
  lemma UndottedOutcome(reg: Registry, f: Frame)
    requires 0x2E !in f.methodName
    ensures !Dispatched(reg, f) && ErrorOf(reg, f.methodName) == (1, Ascii("parse method name error"))
  {
    NoDot(f.methodName);
  }

  /** The closure's record in numbers: a failed serialisation sends no data, a success no error. */
  ghost predicate Completes(rsp: Frame, response: Option<seq<Byte>>) {
    rsp.checkSum == 0 &&
    match response
    case Some(data) => rsp.errorCode == 0 && rsp.errorInfoLen == 0 && rsp.errorInfo == [] && rsp.rpcData == data
    case None => rsp.errorCode == 3 && rsp.errorInfoLen == 15 && rsp.errorInfo == Ascii("serialize error") && rsp.rpcData == []
  }

  lemma Answers(reg: Registry, f: Frame, rsp: Frame)
    requires Dispatched(reg, f)
    ensures Answer(Addressed(f, rsp), Lookup(reg, f.methodName).value.respond(f.rpcData)) == ReplyFrame(reg, f)
    ensures Reply(reg, f) == Encode(ReplyFrame(reg, f))
  {
  }

  lemma Errors(reg: Registry, f: Frame, rsp: Frame)
    requires !Dispatched(reg, f)
    ensures Reply(reg, f) == []
    ensures var r := ErrorFrame(reg, f, rsp);
            (r.errorCode, r.errorInfo) == ErrorOf(reg, f.methodName) && r.errorInfoLen == |r.errorInfo|
  {
  }

  /** Splitting service.method at the first dot gives the two back if and only if the service's own name
      has no dot; otherwise the service part comes out shorter. */
  lemma SplitAtFirstDot(service: seq<Byte>, method_: seq<Byte>)
    ensures var name := service + [DOT] + method_;
            var p := FirstDot(name);
            && p.Some? && p.value <= |service|
            && (name[..p.value] == service <==> DOT !in service)
            && (name[p.value + 1..] == method_ <==> DOT !in service)
  {
    var name := service + [DOT] + method_;
    assert name[|service|] == DOT;
    assert forall i :: 0 <= i < |service| ==> name[i] == service[i];
    var p := FirstDot(name).value;
    if DOT in service {
      assert p < |service| && |name[p + 1..]| > |method_|;
    }
  }

  /** So no name whatever leads to a method of a service registered under a name with a dot, which is
      what every service of a proto package has. */
  lemma DottedServiceUnreachable(reg: Registry, service: seq<Byte>, methods: Service, name: seq<Byte>)
    requires DOT in service
    ensures Lookup(reg[service := methods], name) == Lookup(reg - {service}, name)
  {
    var p := FirstDot(name);
    if p.Some? {
      assert DOT !in name[..p.value];
    }
  }

  lemma SmallInt32(len: Int32, size: nat)
    requires len == ToInt32(size) && size < 0x8000_0000
    ensures len == size
  {
  }

  method SetProtocolError(p: RpcProtocol, code: Int32, info: seq<Byte>)
    modifies p
    ensures p.View() == old(p.View()).(errorCode := code, errorInfoLen := ToInt32(|info|), errorInfo := info)
  {
    p.errorCode := code;
    p.errorInfo := info;
    p.errorInfoLen := ToInt32(|info|);
  }

  /** service.method is split at the first dot. */
  method ParseMethodFullName(fullName: seq<Byte>) returns (ok: bool, serviceName: seq<Byte>, methodName: seq<Byte>)
    ensures ok <==> DOT in fullName
    ensures ok ==> fullName == serviceName + [DOT] + methodName && DOT !in serviceName
  {
    var pos := FirstDot(fullName);
    if pos.None? {
      return false, [], [];
    }
    return true, fullName[..pos.value], fullName[pos.value + 1..];
  }

  class RpcService {
    var serviceMap: Registry

    constructor ()
      ensures serviceMap == map[]
    {
      serviceMap := map[];
    }

    /** False stands for the exception thrown for a name that is taken. */
    method RegisterService(name: seq<Byte>, service: Service) returns (ok: bool)
      modifies this
      ensures ok == (name !in old(serviceMap))
      ensures serviceMap == if ok then old(serviceMap)[name := service] else old(serviceMap)
    {
      if name in serviceMap {
        return false;
      }
      serviceMap := serviceMap[name := service];
      return true;
    }

    method Complete(rsp: RpcProtocol, response: Option<seq<Byte>>)
      modifies rsp
      ensures rsp.View() == Answer(old(rsp.View()), response)
    {
      if response.None? {
        rsp.rpcData := [];
        SetProtocolError(rsp, ERROR_SERIALIZE_FAILED, Ascii("serialize error"));
      } else {
        rsp.rpcData := response.value;
        SetProtocolError(rsp, ERROR_NONE, []);
      }
      SmallInt32(rsp.errorInfoLen, |rsp.errorInfo|);
      rsp.pkLen := ToInt32(1 + 4 + 4 + rsp.msgIdLen + 4 + rsp.methodNameLen
                           + 4 + 4 + rsp.errorInfoLen + |rsp.rpcData| + 4 + 1);
      FillCheckSum(rsp);
    }

    /** The reply closure: it completes the response record and encodes it. */
    method Run(rsp: RpcProtocol, response: Option<seq<Byte>>, out: TcpBuffer)
      requires out.Valid()
      modifies rsp, out
      ensures rsp.View() == Answer(old(rsp.View()), response) && Completes(rsp.View(), response)
      ensures out.Valid() && out.Contents() == old(out.Contents()) + Encode(rsp.View())
    {
      Complete(rsp, response);
      RpcEncoder(rsp, out);
    }

    /** The checks of `process`: the method to call, or the error. */
    method Resolve(name: seq<Byte>, data: seq<Byte>) returns (target: Option<Method>, code: Int32, info: seq<Byte>)
      ensures target.Some? ==> target == Lookup(serviceMap, name) && target.value.parses(data)
      ensures target.None? ==> !(Lookup(serviceMap, name).Some? && Lookup(serviceMap, name).value.parses(data))
      ensures target.None? ==> (code, info) == ErrorOf(serviceMap, name)
    {
      var ok, serviceName, methodName := ParseMethodFullName(name);
      if !ok {
        return None, ERROR_PARSE_METHOD_NAME, Ascii("parse method name error");
      }
      SplitAtFirstDot(serviceName, methodName);
      if serviceName !in serviceMap {
        return None, ERROR_SERVICE_NOT_FOUND, Ascii("service not found");
      }
      var service := serviceMap[serviceName];
      if methodName !in service {
        return None, ERROR_SERVICE_NOT_FOUND, Ascii("method not found");
      }
      if !service[methodName].parses(data) {
        return None, ERROR_DESERIALIZE_FAILED, Ascii("deserialize error");
      }
      return Some(service[methodName]), ERROR_NONE, [];
    }

    /** Id and method name are echoed; the rest ends with the method to call, or with the error set. */
    method Find(req: RpcProtocol, rsp: RpcProtocol) returns (target: Option<Method>)
      requires req != rsp
      modifies rsp
      ensures target == if Dispatched(serviceMap, req.View()) then Lookup(serviceMap, req.methodName) else None
      ensures rsp.View() == if Dispatched(serviceMap, req.View()) then Addressed(req.View(), old(rsp.View()))
                            else ErrorFrame(serviceMap, req.View(), old(rsp.View()))
    {
      rsp.msgIdLen := req.msgIdLen;
      rsp.msgId := req.msgId;
      rsp.methodNameLen := req.methodNameLen;
      rsp.methodName := req.methodName;
      var code, info;
      target, code, info := Resolve(req.methodName, req.rpcData);
      if target.None? {
        SetProtocolError(rsp, code, info);
      }
    }

    /** One request: its reply, or nothing, goes behind what the out buffer holds; an undispatched
        request leaves its error in the response record alone. */
    method Process(req: RpcProtocol, rsp: RpcProtocol, out: TcpBuffer)
      requires req != rsp && out.Valid()
      modifies rsp, out
      ensures out.Valid() && out.Contents() == old(out.Contents()) + Reply(serviceMap, req.View())
      ensures rsp.View() == if Dispatched(serviceMap, req.View()) then ReplyFrame(serviceMap, req.View())
                            else ErrorFrame(serviceMap, req.View(), old(rsp.View()))
      ensures out.Contents() == old(out.Contents()) + if Dispatched(serviceMap, req.View()) then Encode(rsp.View()) else []
      ensures Dispatched(serviceMap, req.View()) ==>
                Completes(rsp.View(), Lookup(serviceMap, req.methodName).value.respond(req.rpcData))
      ensures !Dispatched(serviceMap, req.View()) ==>
                (rsp.errorCode, rsp.errorInfo) == ErrorOf(serviceMap, req.methodName) && rsp.errorInfoLen == |rsp.errorInfo|
    {
      ghost var f, before := req.View(), rsp.View();
      var target := Find(req, rsp);
      if target.Some? {
        Answers(serviceMap, f, before);
        Run(rsp, target.value.respond(req.rpcData), out);
      } else {
        Errors(serviceMap, f, before);
      }
    }
  }
}
