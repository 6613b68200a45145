/** RpcProtocolHelper: the caller's request and response records, to and from bytes. */
module RpcProtocolHelper {
  import opened Bytes
  import opened Decimal
  import opened Results
  import opened RpcProto
  import opened Utf8
  import opened Wire

  datatype RpcRequest = RpcRequest(
    requestId: uint64,
    serviceName: Data,
    methodName: Data,
    requestData: Data)

  datatype RpcResponse = RpcResponse(
    requestId: uint64,
    success: bool,
    errorMessage: Data,
    responseData: Data)

  const SUCCESS := 0
  const SERVER_ERROR := 8

  // ---------------------------------------------------------------- what the calls compute

  function RequestMessage(r: RpcRequest): Request {
    Request(r.requestId, r.serviceName, r.methodName, [], r.requestData, 0)
  }

  function RequestRecord(m: Request): RpcRequest {
    RpcRequest(m.requestId, m.serviceName, m.methodName, m.requestData)
  }

  /** The wire carries the error text of failures only. */
  function ResponseMessage(r: RpcResponse): Response {
    if r.success then Response(r.requestId, true, r.responseData, SUCCESS, [])
    else Response(r.requestId, false, r.responseData, SERVER_ERROR, r.errorMessage)
  }

  function ResponseRecord(m: Response): RpcResponse {
    RpcResponse(m.requestId, m.success, m.errorMessage, m.responseData)
  }

  /** SerializeToString gives up on messages of more than INT_MAX bytes. */
  function Sent(b: Data): Result<Data> {
    if |b| > INT_MAX then Err(SerializeFailed) else Ok(b)
  }

  function Opened<M>(data: Data, parsed: (Verdict, M)): Result<M> {
    if data == [] then Err(EmptyData)
    else if |data| > INT_MAX then Err(OutsideModel)
    else
      match parsed.0
      case Done => Ok(parsed.1)
      case Malformed => Err(ParseFailed)
      case Foreign => Err(OutsideModel)
  }

  function OpenedRequest(data: Data): Result<Request> {
    Opened(data, ParseRequest(EmptyRequest(), data))
  }

  function OpenedResponse(data: Data): Result<Response> {
    Opened(data, ParseResponse(EmptyResponse(), data))
  }

  function RequestFrom(data: Data): Result<RpcRequest> {
    match OpenedRequest(data)
    case Ok(m) => Ok(RequestRecord(m))
    case Err(e) => Err(e)
  }

  function ResponseFrom(data: Data): Result<RpcResponse> {
    match OpenedResponse(data)
    case Ok(m) => Ok(ResponseRecord(m))
    case Err(e) => Err(e)
  }

  // ---------------------------------------------------------------- the calls

  method CreateRequestProto(request: RpcRequest) returns (proto: RpcRequestProto)
    ensures fresh(proto) && proto.impl == RequestMessage(request)
  {
    proto := new RpcRequestProto();
    proto.impl := proto.impl.(requestId := request.requestId);
    proto.impl := proto.impl.(serviceName := request.serviceName);
    proto.impl := proto.impl.(methodName := request.methodName);
    proto.impl := proto.impl.(requestData := request.requestData);
  }

  method FromRequestProto(proto: RpcRequestProto) returns (request: RpcRequest)
    ensures request == RequestRecord(proto.impl)
  {
    request := RpcRequest(0, [], [], []);
    request := request.(requestId := proto.impl.requestId);
    request := request.(serviceName := proto.impl.serviceName);
    request := request.(methodName := proto.impl.methodName);
    request := request.(requestData := proto.impl.requestData);
  }

  method CreateResponseProto(response: RpcResponse) returns (proto: RpcResponseProto)
    ensures fresh(proto) && proto.impl == ResponseMessage(response)
    ensures proto.impl.errorCode == if response.success then 0 else 8
    ensures proto.impl.errorMessage == if response.success then [] else response.errorMessage
  {
    proto := new RpcResponseProto();
    proto.impl := proto.impl.(requestId := response.requestId);
    proto.impl := proto.impl.(success := response.success);
    proto.impl := proto.impl.(responseData := response.responseData);
    if !response.success {
      proto.impl := proto.impl.(errorCode := SERVER_ERROR);
      proto.impl := proto.impl.(errorMessage := response.errorMessage);
    } else {
      proto.impl := proto.impl.(errorCode := SUCCESS);
    }
  }

  method FromResponseProto(proto: RpcResponseProto) returns (response: RpcResponse)
    ensures response == ResponseRecord(proto.impl)
  {
    response := RpcResponse(0, false, [], []);
    response := response.(requestId := proto.impl.requestId);
    response := response.(success := proto.impl.success);
    response := response.(errorMessage := proto.impl.errorMessage);
    response := response.(responseData := proto.impl.responseData);
  }

  method SerializeRequest(request: RpcRequest) returns (r: Result<Data>)
    ensures r == Sent(SerializedRequest(RequestMessage(request)))
    ensures r.Err? <==> |SerializedRequest(RequestMessage(request))| >= 0x8000_0000
  {
    hide SerializedRequest;
    var proto := CreateRequestProto(request);
    var size := proto.ByteSizeLong();
    if size > INT_MAX {
      return Err(SerializeFailed);
    }
    var serialized := proto.InternalSerialize();
    return Ok(serialized);
  }

  method SerializeResponse(response: RpcResponse) returns (r: Result<Data>)
    ensures r == Sent(SerializedResponse(ResponseMessage(response)))
    ensures r.Err? <==> |SerializedResponse(ResponseMessage(response))| >= 0x8000_0000
  {
    hide SerializedResponse;
    var proto := CreateResponseProto(response);
    var size := proto.ByteSizeLong();
    if size > INT_MAX {
      return Err(SerializeFailed);
    }
    var serialized := proto.InternalSerialize();
    return Ok(serialized);
  }

  /** ParseFromArray on a fresh message. */
  method RequestFromArray(data: Data) returns (proto: RpcRequestProto, verdict: Verdict)
    ensures fresh(proto) && verdict == ParseRequest(EmptyRequest(), data).0
    ensures verdict == Done ==> proto.impl == ParseRequest(EmptyRequest(), data).1
  {
    hide ParseRequest;
    proto := new RpcRequestProto();
    verdict := proto.InternalParse(data);
  }

  method ResponseFromArray(data: Data) returns (proto: RpcResponseProto, verdict: Verdict)
    ensures fresh(proto) && verdict == ParseResponse(EmptyResponse(), data).0
    ensures verdict == Done ==> proto.impl == ParseResponse(EmptyResponse(), data).1
  {
    hide ParseResponse;
    proto := new RpcResponseProto();
    verdict := proto.InternalParse(data);
  }

  method ParseRequestData(data: Data) returns (r: Result<RpcRequest>)
    ensures r == RequestFrom(data)
    ensures r == Err(EmptyData) <==> data == []
  {
    hide ParseRequest;
    if data == [] {
      return Err(EmptyData);
    }
    if |data| > INT_MAX {
      return Err(OutsideModel);
    }
    var proto, verdict := RequestFromArray(data);
    if verdict == Foreign {
      return Err(OutsideModel);
    }
    if verdict != Done {
      return Err(ParseFailed);
    }
    var request := FromRequestProto(proto);
    return Ok(request);
  }

  method ParseResponseData(data: Data) returns (r: Result<RpcResponse>)
    ensures r == ResponseFrom(data)
    ensures r == Err(EmptyData) <==> data == []
  {
    hide ParseResponse;
    if data == [] {
      return Err(EmptyData);
    }
    if |data| > INT_MAX {
      return Err(OutsideModel);
    }
    var proto, verdict := ResponseFromArray(data);
    if verdict == Foreign {
      return Err(OutsideModel);
    }
    if verdict != Done {
      return Err(ParseFailed);
    }
    var response := FromResponseProto(proto);
    return Ok(response);
  }

  /** Accepts exactly what parses to a request that names a service and a method. */
  method ValidateRequestData(data: Data) returns (r: Result<bool>)
    ensures r == Err(OutsideModel) <==> RequestFrom(data) == Err(OutsideModel)
    ensures r != Err(OutsideModel) ==> r.Ok?
    ensures r == Ok(true) <==> (RequestFrom(data).Ok? && RequestFrom(data).value.serviceName != []
                                && RequestFrom(data).value.methodName != [])
  {
    hide ParseRequest;
    if data == [] {
      return Ok(false);
    }
    if |data| > INT_MAX {
      return Err(OutsideModel);
    }
    var proto, verdict := RequestFromArray(data);
    if verdict == Foreign {
      return Err(OutsideModel);
    }
    if verdict != Done {
      return Ok(false);
    }
    if proto.impl.serviceName == [] || proto.impl.methodName == [] {
      return Ok(false);
    }
    return Ok(true);
  }

  method ValidateResponseData(data: Data) returns (r: Result<bool>)
    ensures r == Err(OutsideModel) <==> ResponseFrom(data) == Err(OutsideModel)
    ensures r != Err(OutsideModel) ==> r.Ok?
    ensures r == Ok(true) <==> ResponseFrom(data).Ok?
  {
    hide ParseResponse;
    if data == [] {
      return Ok(false);
    }
    if |data| > INT_MAX {
      return Err(OutsideModel);
    }
    var proto, verdict := ResponseFromArray(data);
    if verdict == Foreign {
      return Err(OutsideModel);
    }
    if verdict != Done {
      return Ok(false);
    }
    return Ok(true);
  }

  // ---------------------------------------------------------------- there and back

  /** Only a message with every field at its default is written as no bytes at all. */
  lemma EmptyOnTheWireIff(r: RpcRequest)
    ensures SerializedRequest(RequestMessage(r)) == [] <==> r == RpcRequest(0, [], [], [])
  {
    var m := RequestMessage(r);
    hide NumberField, BytesField;
    FieldEmptyIff(8, r.requestId, r.serviceName);
    FieldEmptyIff(18, r.requestId, r.serviceName);
    FieldEmptyIff(26, r.requestId, r.methodName);
    FieldEmptyIff(34, r.requestId, m.clientId);
    FieldEmptyIff(42, r.requestId, r.requestData);
    FieldEmptyIff(48, SignExtended(m.timeoutMs), m.clientId);
  }

  lemma FieldEmptyIff(tag: byte, n: uint64, s: Data)
    ensures NumberField(tag, n) == [] <==> n == 0
    ensures BytesField(tag, s) == [] <==> s == []
  {
  }

  /**
   What was sent parses to the same request, unless a name is not UTF-8 or the request is the default
   one: that one is sent as no bytes, and the parse refuses no bytes.
   */
  lemma RequestComesBackIff(r: RpcRequest)
    requires Sent(SerializedRequest(RequestMessage(r))).Ok?
    ensures RequestFrom(SerializedRequest(RequestMessage(r))) == Ok(r) <==>
      (ValidUtf8(r.serviceName) && ValidUtf8(r.methodName) && r != RpcRequest(0, [], [], []))
  {
    hide ParseRequest, SerializedRequest, ValidUtf8;
    var m := RequestMessage(r);
    var b := SerializedRequest(m);
    EmptyOnTheWireIff(r);
    EmptyIsUtf8();
    assert b + [] == b;
    RequestParsesBack(EmptyRequest(), m, []);
    assert MergedRequest(EmptyRequest(), m) == m;
    RequestParsesNothing(m);
  }

  lemma EmptyIsUtf8()
    ensures ValidUtf8([])
  {
  }

  /** The default request is refused as empty data; any other with a bad name as unparsable. */
  lemma RequestRefusals(r: RpcRequest)
    requires Sent(SerializedRequest(RequestMessage(r))).Ok?
    requires RequestFrom(SerializedRequest(RequestMessage(r))) != Ok(r)
    ensures RequestFrom(SerializedRequest(RequestMessage(r))) ==
      Err(if r == RpcRequest(0, [], [], []) then EmptyData else ParseFailed)
  {
    hide ParseRequest, SerializedRequest, ValidUtf8;
    var m := RequestMessage(r);
    var b := SerializedRequest(m);
    EmptyOnTheWireIff(r);
    EmptyIsUtf8();
    assert b + [] == b;
    RequestParsesBack(EmptyRequest(), m, []);
    assert MergedRequest(EmptyRequest(), m) == m;
    RequestParsesNothing(m);
  }

  /** A response always has bytes: a success its flag, a failure its code. */
  lemma ResponseIsNeverEmpty(r: RpcResponse)
    ensures SerializedResponse(ResponseMessage(r)) != []
  {
    var m := ResponseMessage(r);
    hide NumberField, BytesField;
    FieldEmptyIff(16, BoolNumber(m.success), m.errorMessage);
    FieldEmptyIff(32, SignExtended(m.errorCode), m.errorMessage);
  }

  /** What the receiver of a response sees: the sender's record without the text of a success. */
  lemma ResponseArrives(r: RpcResponse)
    requires Sent(SerializedResponse(ResponseMessage(r))).Ok?
    ensures ResponseFrom(SerializedResponse(ResponseMessage(r))) ==
      if r.success then Ok(r.(errorMessage := []))
      else if ValidUtf8(r.errorMessage) then Ok(r)
      else Err(ParseFailed)
  {
    hide ParseResponse, SerializedResponse, ValidUtf8;
    var m := ResponseMessage(r);
    var b := SerializedResponse(m);
    ResponseIsNeverEmpty(r);
    EmptyIsUtf8();
    assert b + [] == b;
    ResponseParsesBack(EmptyResponse(), m, []);
    assert MergedResponse(EmptyResponse(), m) == m;
    ResponseParsesNothing(m);
  }

  /** A response comes back unchanged unless it is a success with text or its text is not UTF-8. */
  lemma ResponseComesBackIff(r: RpcResponse)
    requires Sent(SerializedResponse(ResponseMessage(r))).Ok?
    ensures ResponseFrom(SerializedResponse(ResponseMessage(r))) == Ok(r) <==>
      ((r.success ==> r.errorMessage == []) && ValidUtf8(r.errorMessage))
  {
    hide ResponseFrom, ValidUtf8;
    ResponseArrives(r);
    EmptyIsUtf8();
  }
}
