/**
 RpcRequestProto and RpcResponseProto: the parse loop, the serializer, the size and the merge of
 the generated code, for messages without metadata and without unknown fields. Parsing stops with
 Foreign at a tag that the generated code hands to the protobuf library.
 */
module RpcProto {
  import opened Bytes
  import opened Decimal
  import opened Results
  import opened Utf8
  import opened Wire

  datatype Verdict = Done | Malformed | Foreign

  // ---------------------------------------------------------------- fields on the wire

  function NumberField(tag: byte, n: uint64): Data {
    if n == 0 then [] else [tag] + Varint(n)
  }

  function BytesField(tag: byte, s: Data): Data {
    if s == [] then [] else [tag] + Delimited(s)
  }

  function NumberSize(n: uint64): nat {
    if n == 0 then 0 else 1 + VarintSize(n)
  }

  function BytesSize(s: Data): nat {
    if s == [] then 0 else 1 + VarintSize(|s|) + |s|
  }

  lemma SizesFit(tag: byte, n: uint64, s: Data)
    ensures |NumberField(tag, n)| == NumberSize(n)
    ensures |BytesField(tag, s)| == BytesSize(s)
  {
    VarintLength(n);
    VarintLength(|s|);
  }

  /** A string field is delimited bytes that must be UTF-8. */
  function ReadString(b: Data): (r: Option<(Data, Data)>)
    ensures r.Some? ==> |r.value.1| < |b|
  {
    match ReadDelimited(b)
    case None => None
    case Some((s, rest)) => if ValidUtf8(s) then Some((s, rest)) else None
  }

  lemma StringReadsBack(s: Data, rest: Data)
    requires |s| < TWO_64
    ensures ReadString(Delimited(s) + rest) == if ValidUtf8(s) then Some((s, rest)) else None
  {
    DelimitedReadsBack(s, rest);
  }

  // ---------------------------------------------------------------- the request message

  datatype Request = Request(
    requestId: uint64,
    serviceName: Data,
    methodName: Data,
    clientId: Data,
    requestData: Data,
    timeoutMs: int32)

  function EmptyRequest(): Request {
    Request(0, [], [], [], [], 0)
  }

  /** The message after one turn of the parse loop, the bytes left, and whether to go on. */
  datatype Turn<M> = Took(m: M, rest: Data) | Stop(verdict: Verdict)

  function RequestTurn(m: Request, b: Data): (t: Turn<Request>)
    ensures t.Took? ==> |t.rest| < |b|
  {
    match ReadTag(b)
    case None => Stop(Malformed)
    case Some((tag, rest)) =>
      if tag == 8 then
        match ReadVarint64(rest)
        case None => Stop(Malformed)
        case Some((n, r)) => Took(m.(requestId := n), r)
      else if tag == 18 then
        match ReadString(rest)
        case None => Stop(Malformed)
        case Some((s, r)) => Took(m.(serviceName := s), r)
      else if tag == 26 then
        match ReadString(rest)
        case None => Stop(Malformed)
        case Some((s, r)) => Took(m.(methodName := s), r)
      else if tag == 34 then
        match ReadString(rest)
        case None => Stop(Malformed)
        case Some((s, r)) => Took(m.(clientId := s), r)
      else if tag == 42 then
        match ReadDelimited(rest)
        case None => Stop(Malformed)
        case Some((s, r)) => Took(m.(requestData := s), r)
      else if tag == 48 then
        match ReadVarint32(rest)
        case None => Stop(Malformed)
        case Some((n, r)) => Took(m.(timeoutMs := ToInt32(n)), r)
      else if tag == 0 || tag % 8 == 4 then Stop(Malformed)
      else Stop(Foreign)
  }

  function ParseRequest(m: Request, b: Data): (Verdict, Request)
    decreases |b|
  {
    if b == [] then (Done, m)
    else
      match RequestTurn(m, b)
      case Took(m', rest) => ParseRequest(m', rest)
      case Stop(verdict) => (verdict, m)
  }

  function SerializedRequest(m: Request): Data {
    NumberField(8, m.requestId) + BytesField(18, m.serviceName) + BytesField(26, m.methodName)
      + BytesField(34, m.clientId) + BytesField(42, m.requestData)
      + NumberField(48, SignExtended(m.timeoutMs))
  }

  /** MergeImpl: what from has set, and otherwise what was there. */
  function MergedRequest(m: Request, from: Request): Request {
    Request(
      if from.requestId != 0 then from.requestId else m.requestId,
      if from.serviceName != [] then from.serviceName else m.serviceName,
      if from.methodName != [] then from.methodName else m.methodName,
      if from.clientId != [] then from.clientId else m.clientId,
      if from.requestData != [] then from.requestData else m.requestData,
      if from.timeoutMs != 0 then from.timeoutMs else m.timeoutMs)
  }

  class RpcRequestProto {
    var impl: Request

    constructor ()
      ensures impl == EmptyRequest()
    {
      impl := EmptyRequest();
    }

    method InternalParse(b: Data) returns (verdict: Verdict)
      modifies this
      ensures verdict == ParseRequest(old(impl), b).0
      ensures verdict == Done ==> impl == ParseRequest(old(impl), b).1
    {
      hide ReadTag, ReadVarint64, ReadVarint32, ReadString, ReadDelimited, ToInt32;
      var rest := b;
      while rest != []
        invariant ParseRequest(old(impl), b) == ParseRequest(impl, rest)
        decreases |rest|
      {
        var t := RequestTurn(impl, rest);
        match t {
          case Took(m, r) =>
            impl, rest := m, r;
          case Stop(v) =>
            return v;
        }
      }
      return Done;
    }

    method InternalSerialize() returns (target: Data)
      ensures target == SerializedRequest(impl)
    {
      hide NumberField, BytesField;
      target := NumberField(8, impl.requestId);
      target := target + BytesField(18, impl.serviceName);
      target := target + BytesField(26, impl.methodName);
      target := target + BytesField(34, impl.clientId);
      target := target + BytesField(42, impl.requestData);
      target := target + NumberField(48, SignExtended(impl.timeoutMs));
    }

    /** The size is the serialized length, although its terms come in another order. */
    method ByteSizeLong() returns (total: nat)
      ensures total == |SerializedRequest(impl)|
    {
      hide NumberSize, BytesSize, NumberField, BytesField;
      SizesFit(8, impl.requestId, impl.serviceName);
      SizesFit(18, impl.requestId, impl.serviceName);
      SizesFit(26, impl.requestId, impl.methodName);
      SizesFit(34, impl.requestId, impl.clientId);
      SizesFit(42, impl.requestId, impl.requestData);
      SizesFit(48, SignExtended(impl.timeoutMs), impl.requestData);
      total := BytesSize(impl.serviceName);
      total := total + BytesSize(impl.methodName);
      total := total + BytesSize(impl.clientId);
      total := total + BytesSize(impl.requestData);
      total := total + NumberSize(impl.requestId);
      total := total + NumberSize(SignExtended(impl.timeoutMs));
    }

    method MergeFrom(from: Request)
      modifies this
      ensures impl == MergedRequest(old(impl), from)
    {
      if from.serviceName != [] {
        impl := impl.(serviceName := from.serviceName);
      }
      if from.methodName != [] {
        impl := impl.(methodName := from.methodName);
      }
      if from.clientId != [] {
        impl := impl.(clientId := from.clientId);
      }
      if from.requestData != [] {
        impl := impl.(requestData := from.requestData);
      }
      if from.requestId != 0 {
        impl := impl.(requestId := from.requestId);
      }
      if from.timeoutMs != 0 {
        impl := impl.(timeoutMs := from.timeoutMs);
      }
    }
  }

  /** Every string of the message is UTF-8; the empty string is. */
  ghost predicate TextIsUtf8(m: Request) {
    ValidUtf8(m.serviceName) && ValidUtf8(m.methodName) && ValidUtf8(m.clientId)
  }

  function SetNumber(m: Request, tag: byte, n: uint64): Request {
    if n == 0 then m
    else if tag == 8 then m.(requestId := n)
    else m.(timeoutMs := ToInt32(n % TWO_32))
  }

  function SetBytes(m: Request, tag: byte, s: Data): Request {
    if s == [] then m
    else if tag == 18 then m.(serviceName := s)
    else if tag == 26 then m.(methodName := s)
    else if tag == 34 then m.(clientId := s)
    else m.(requestData := s)
  }

  /** One number field in front: the parse goes on behind it with the field set. */
  lemma RequestNumber(m: Request, tag: byte, n: uint64, tail: Data)
    requires tag == 8 || tag == 48
    ensures ParseRequest(m, NumberField(tag, n) + tail) == ParseRequest(SetNumber(m, tag, n), tail)
  {
    hide ReadVarint, ReadTag, Varint, ToInt32;
    if n == 0 {
      assert NumberField(tag, n) + tail == tail;
    } else {
      assert NumberField(tag, n) + tail == [tag] + (Varint(n) + tail);
      TagReadsBack(tag, Varint(n) + tail);
      Uint64ReadsBack(n, tail);
      VarintAnyWidth(n, tail);
    }
  }

  lemma VarintAnyWidth(n: uint64, rest: Data)
    ensures ReadVarint32(Varint(n) + rest) == Some((n % TWO_32, rest))
  {
    hide Varint, ReadVarint, Pow128;
    Pow128OfTen();
    VarintReadsBack(n, rest, MAX_VARINT);
  }

  /** One string or bytes field in front: it is set if it may be, else the parse fails. */
  lemma RequestBytes(m: Request, tag: byte, s: Data, tail: Data)
    requires tag == 18 || tag == 26 || tag == 34 || tag == 42
    requires |s| < TWO_64
    ensures var r := ParseRequest(m, BytesField(tag, s) + tail);
      if tag == 42 || ValidUtf8(s) then r == ParseRequest(SetBytes(m, tag, s), tail)
      else r.0 == Malformed
  {
    hide ReadVarint, ReadTag, ReadString, ReadDelimited, Delimited;
    if s == [] {
      assert BytesField(tag, s) + tail == tail;
    } else {
      assert BytesField(tag, s) + tail == [tag] + (Delimited(s) + tail);
      TagReadsBack(tag, Delimited(s) + tail);
      DelimitedReadsBack(s, tail);
      StringReadsBack(s, tail);
    }
  }

  lemma RequestPieces(m: Request, tail: Data)
    ensures SerializedRequest(m) + tail ==
      NumberField(8, m.requestId) + (BytesField(18, m.serviceName) + (BytesField(26, m.methodName)
        + (BytesField(34, m.clientId) + (BytesField(42, m.requestData)
        + (NumberField(48, SignExtended(m.timeoutMs)) + tail)))))
  {
    hide NumberField, BytesField;
  }

  lemma PartsAreShort(m: Request)
    ensures |m.serviceName| <= |SerializedRequest(m)| && |m.methodName| <= |SerializedRequest(m)|
    ensures |m.clientId| <= |SerializedRequest(m)| && |m.requestData| <= |SerializedRequest(m)|
  {
  }

  /**
   A serialized message in front of anything: it is merged and the parse goes on behind it, or, with
   text that is not UTF-8, the parse fails.
   */
  lemma RequestParsesBack(m0: Request, m: Request, tail: Data)
    requires |SerializedRequest(m)| < TWO_64
    ensures var r := ParseRequest(m0, SerializedRequest(m) + tail);
      if TextIsUtf8(m) then r == ParseRequest(MergedRequest(m0, m), tail) else r.0 == Malformed
  {
    hide ParseRequest, NumberField, BytesField, SerializedRequest, ValidUtf8, SignExtended;
    PartsAreShort(m);
    RequestPieces(m, tail);
    var timeout := SignExtended(m.timeoutMs);
    var t6 := NumberField(48, timeout) + tail;
    var t5 := BytesField(42, m.requestData) + t6;
    var t4 := BytesField(34, m.clientId) + t5;
    var t3 := BytesField(26, m.methodName) + t4;
    var t2 := BytesField(18, m.serviceName) + t3;
    var m1 := SetNumber(m0, 8, m.requestId);
    var m2 := SetBytes(m1, 18, m.serviceName);
    var m3 := SetBytes(m2, 26, m.methodName);
    var m4 := SetBytes(m3, 34, m.clientId);
    var m5 := SetBytes(m4, 42, m.requestData);
    RequestNumber(m0, 8, m.requestId, t2);
    RequestBytes(m1, 18, m.serviceName, t3);
    RequestBytes(m2, 26, m.methodName, t4);
    RequestBytes(m3, 34, m.clientId, t5);
    RequestBytes(m4, 42, m.requestData, t6);
    RequestNumber(m5, 48, timeout, tail);
    LowBits(m.timeoutMs);
    ZeroOnly(m.timeoutMs);
  }

  lemma ZeroOnly(i: int32)
    ensures SignExtended(i) == 0 <==> i == 0
  {
  }

  /** The wire merge law: one message after the other on the wire is the merge of the two. */
  lemma RequestMergeLaw(m1: Request, m2: Request)
    requires |SerializedRequest(m1)| < TWO_64 && |SerializedRequest(m2)| < TWO_64
    requires TextIsUtf8(m1) && TextIsUtf8(m2)
    ensures ParseRequest(EmptyRequest(), SerializedRequest(m1) + SerializedRequest(m2))
      == (Done, MergedRequest(m1, m2))
  {
    hide ParseRequest, SerializedRequest, ValidUtf8;
    RequestParsesBack(EmptyRequest(), m1, SerializedRequest(m2));
    assert MergedRequest(EmptyRequest(), m1) == m1;
    assert SerializedRequest(m2) + [] == SerializedRequest(m2);
    RequestParsesBack(m1, m2, []);
    RequestParsesNothing(MergedRequest(m1, m2));
  }

  lemma RequestParsesNothing(m: Request)
    ensures ParseRequest(m, []) == (Done, m)
  {
  }

  /** Parsing undoes serializing exactly for messages whose strings are UTF-8. */
  lemma RequestRoundTripIff(m: Request)
    requires |SerializedRequest(m)| < TWO_64
    ensures ParseRequest(EmptyRequest(), SerializedRequest(m)) == (Done, m) <==> TextIsUtf8(m)
  {
    hide ParseRequest, SerializedRequest, ValidUtf8;
    assert SerializedRequest(m) + [] == SerializedRequest(m);
    RequestParsesBack(EmptyRequest(), m, []);
    assert MergedRequest(EmptyRequest(), m) == m;
    RequestParsesNothing(m);
  }

  /** One request and its bytes. */
  lemma RequestOnTheWire()
    ensures SerializedRequest(Request(150, [115], [109], [99], [1, 2], -1))
      == [8, 0x96, 1] + [18, 1, 115] + [26, 1, 109] + [34, 1, 99] + [42, 2, 1, 2]
        + [48, 255, 255, 255, 255, 255, 255, 255, 255, 255, 1]
  {
    VarintOf150();
    MinusOne();
    hide Varint, BytesField;
    ShortField(18, [115]);
    ShortField(26, [109]);
    ShortField(34, [99]);
    ShortField(42, [1, 2]);
  }

  lemma ShortField(tag: byte, s: Data)
    requires 0 < |s| < 128
    ensures BytesField(tag, s) == [tag, |s|] + s
  {
    hide Varint;
    ShortVarint(|s|);
  }

  lemma ShortVarint(n: byte)
    requires n < 128
    ensures Varint(n) == [n]
  {
  }

  lemma MinusOne()
    ensures Varint(SignExtended(-1)) == [255, 255, 255, 255, 255, 255, 255, 255, 255, 1]
  {
    var n := TWO_64 - 1;
    hide Varint;
    Ones(n, 9, 1);
  }

  /** k bytes of ones and then what is above them. */
  lemma {:induction false} Ones(n: nat, k: nat, high: byte)
    requires k <= 9 && high < 128 && high > 0 && n == high * Pow128(k) + (Pow128(k) - 1)
    ensures Varint(n) == Repeated(255, k) + [high]
  {
    if k == 0 {
      assert Pow128(0) == 1;
      ShortVarint(high);
    } else {
      var p := Pow128(k - 1);
      assert Pow128(k) == 128 * p;
      assert high * (128 * p) == 128 * (high * p);
      hide Pow128;
      var m := high * p + (p - 1);
      assert n == 128 * m + 127;
      Ones(m, k - 1, high);
    }
  }

  function Repeated(b: byte, k: nat): (r: Data)
    ensures |r| == k && forall i | 0 <= i < k :: r[i] == b
  {
    if k == 0 then [] else [b] + Repeated(b, k - 1)
  }

  /** A field that is cut off inside is refused, whatever fields were read before it. */
  lemma CutRequestFieldIsRefused(m: Request, tag: byte, n: uint64, s: Data, k: nat)
    requires |s| < TWO_64 && k > 0
    ensures (tag == 8 || tag == 48) && k < |NumberField(tag, n)| ==>
      ParseRequest(m, NumberField(tag, n)[..k]).0 == Malformed
    ensures (tag == 18 || tag == 26 || tag == 34 || tag == 42) && k < |BytesField(tag, s)| ==>
      ParseRequest(m, BytesField(tag, s)[..k]).0 == Malformed
  {
    hide ReadTag, ReadVarint, Varint, Delimited, ValidUtf8;
    if (tag == 8 || tag == 48) && k < |NumberField(tag, n)| {
      assert NumberField(tag, n)[..k] == [tag] + Varint(n)[..k - 1];
      TagReadsBack(tag, Varint(n)[..k - 1]);
      VarintCut(n, k - 1, MAX_VARINT);
    }
    if (tag == 18 || tag == 26 || tag == 34 || tag == 42) && k < |BytesField(tag, s)| {
      assert BytesField(tag, s)[..k] == [tag] + Delimited(s)[..k - 1];
      TagReadsBack(tag, Delimited(s)[..k - 1]);
      DelimitedCut(s, k - 1);
    }
  }

  /** Tags of no field: 0 and the end of a group are refused, any other goes to the library. */
  lemma OtherRequestTags(m: Request, b: Data, tag: uint32, rest: Data)
    requires ReadTag(b) == Some((tag, rest))
    requires tag != 8 && tag != 18 && tag != 26 && tag != 34 && tag != 42 && tag != 48
    ensures ParseRequest(m, b).0 == if tag == 0 || tag % 8 == 4 then Malformed else Foreign
  {
    hide ReadTag, ReadVarint64, ReadVarint32, ReadString, ReadDelimited;
    NoBytesNoTag(b);
  }

  lemma NoBytesNoTag(b: Data)
    ensures ReadTag(b).Some? ==> b != []
  {
  }

  // ---------------------------------------------------------------- the response message

  datatype Response = Response(
    requestId: uint64,
    success: bool,
    responseData: Data,
    errorCode: int32,
    errorMessage: Data)

  function EmptyResponse(): Response {
    Response(0, false, [], 0, [])
  }

  function ResponseTurn(m: Response, b: Data): (t: Turn<Response>)
    ensures t.Took? ==> |t.rest| < |b|
  {
    match ReadTag(b)
    case None => Stop(Malformed)
    case Some((tag, rest)) =>
      if tag == 8 then
        match ReadVarint64(rest)
        case None => Stop(Malformed)
        case Some((n, r)) => Took(m.(requestId := n), r)
      else if tag == 16 then
        match ReadVarint64(rest)
        case None => Stop(Malformed)
        case Some((n, r)) => Took(m.(success := n != 0), r)
      else if tag == 26 then
        match ReadDelimited(rest)
        case None => Stop(Malformed)
        case Some((s, r)) => Took(m.(responseData := s), r)
      else if tag == 32 then
        match ReadVarint32(rest)
        case None => Stop(Malformed)
        case Some((n, r)) => Took(m.(errorCode := ToInt32(n)), r)
      else if tag == 42 then
        match ReadString(rest)
        case None => Stop(Malformed)
        case Some((s, r)) => Took(m.(errorMessage := s), r)
      else if tag == 0 || tag % 8 == 4 then Stop(Malformed)
      else Stop(Foreign)
  }

  function ParseResponse(m: Response, b: Data): (Verdict, Response)
    decreases |b|
  {
    if b == [] then (Done, m)
    else
      match ResponseTurn(m, b)
      case Took(m', rest) => ParseResponse(m', rest)
      case Stop(verdict) => (verdict, m)
  }

  function BoolNumber(b: bool): uint64 {
    if b then 1 else 0
  }

  function SerializedResponse(m: Response): Data {
    NumberField(8, m.requestId) + NumberField(16, BoolNumber(m.success))
      + BytesField(26, m.responseData) + NumberField(32, SignExtended(m.errorCode))
      + BytesField(42, m.errorMessage)
  }

  function MergedResponse(m: Response, from: Response): Response {
    Response(
      if from.requestId != 0 then from.requestId else m.requestId,
      if from.success then true else m.success,
      if from.responseData != [] then from.responseData else m.responseData,
      if from.errorCode != 0 then from.errorCode else m.errorCode,
      if from.errorMessage != [] then from.errorMessage else m.errorMessage)
  }

  class RpcResponseProto {
    var impl: Response

    constructor ()
      ensures impl == EmptyResponse()
    {
      impl := EmptyResponse();
    }

    method InternalParse(b: Data) returns (verdict: Verdict)
      modifies this
      ensures verdict == ParseResponse(old(impl), b).0
      ensures verdict == Done ==> impl == ParseResponse(old(impl), b).1
    {
      hide ReadTag, ReadVarint64, ReadVarint32, ReadString, ReadDelimited, ToInt32;
      var rest := b;
      while rest != []
        invariant ParseResponse(old(impl), b) == ParseResponse(impl, rest)
        decreases |rest|
      {
        var t := ResponseTurn(impl, rest);
        match t {
          case Took(m, r) =>
            impl, rest := m, r;
          case Stop(v) =>
            return v;
        }
      }
      return Done;
    }

    method InternalSerialize() returns (target: Data)
      ensures target == SerializedResponse(impl)
    {
      hide NumberField, BytesField;
      target := NumberField(8, impl.requestId);
      target := target + NumberField(16, BoolNumber(impl.success));
      target := target + BytesField(26, impl.responseData);
      target := target + NumberField(32, SignExtended(impl.errorCode));
      target := target + BytesField(42, impl.errorMessage);
    }

    method ByteSizeLong() returns (total: nat)
      ensures total == |SerializedResponse(impl)|
    {
      hide NumberField, BytesField, NumberSize, BytesSize;
      SizesFit(8, impl.requestId, impl.responseData);
      SizesFit(16, BoolNumber(impl.success), impl.responseData);
      SizesFit(26, impl.requestId, impl.responseData);
      SizesFit(32, SignExtended(impl.errorCode), impl.responseData);
      SizesFit(42, impl.requestId, impl.errorMessage);
      BoolSize(impl.success);
      total := BytesSize(impl.responseData);
      total := total + BytesSize(impl.errorMessage);
      total := total + NumberSize(impl.requestId);
      if impl.success {
        total := total + 1 + 1;
      }
      total := total + NumberSize(SignExtended(impl.errorCode));
    }

    method MergeFrom(from: Response)
      modifies this
      ensures impl == MergedResponse(old(impl), from)
    {
      if from.responseData != [] {
        impl := impl.(responseData := from.responseData);
      }
      if from.errorMessage != [] {
        impl := impl.(errorMessage := from.errorMessage);
      }
      if from.requestId != 0 {
        impl := impl.(requestId := from.requestId);
      }
      if from.success {
        impl := impl.(success := from.success);
      }
      if from.errorCode != 0 {
        impl := impl.(errorCode := from.errorCode);
      }
    }
  }

  lemma BoolSize(b: bool)
    ensures NumberSize(BoolNumber(b)) == if b then 2 else 0
  {
  }

  function SetResponseNumber(m: Response, tag: byte, n: uint64): Response {
    if n == 0 then m
    else if tag == 8 then m.(requestId := n)
    else if tag == 16 then m.(success := true)
    else m.(errorCode := ToInt32(n % TWO_32))
  }

  function SetResponseBytes(m: Response, tag: byte, s: Data): Response {
    if s == [] then m
    else if tag == 26 then m.(responseData := s)
    else m.(errorMessage := s)
  }

  lemma ResponseNumber(m: Response, tag: byte, n: uint64, tail: Data)
    requires tag == 8 || tag == 16 || tag == 32
    ensures ParseResponse(m, NumberField(tag, n) + tail)
      == ParseResponse(SetResponseNumber(m, tag, n), tail)
  {
    hide ReadVarint, ReadTag, Varint, ToInt32;
    if n == 0 {
      assert NumberField(tag, n) + tail == tail;
    } else {
      assert NumberField(tag, n) + tail == [tag] + (Varint(n) + tail);
      TagReadsBack(tag, Varint(n) + tail);
      Uint64ReadsBack(n, tail);
      VarintAnyWidth(n, tail);
    }
  }

  lemma ResponseBytes(m: Response, tag: byte, s: Data, tail: Data)
    requires tag == 26 || tag == 42
    requires |s| < TWO_64
    ensures var r := ParseResponse(m, BytesField(tag, s) + tail);
      if tag == 26 || ValidUtf8(s) then r == ParseResponse(SetResponseBytes(m, tag, s), tail)
      else r.0 == Malformed
  {
    hide ReadVarint, ReadTag, ReadString, ReadDelimited, Delimited;
    if s == [] {
      assert BytesField(tag, s) + tail == tail;
    } else {
      assert BytesField(tag, s) + tail == [tag] + (Delimited(s) + tail);
      TagReadsBack(tag, Delimited(s) + tail);
      DelimitedReadsBack(s, tail);
      StringReadsBack(s, tail);
    }
  }

  lemma ResponsePieces(m: Response, tail: Data)
    ensures SerializedResponse(m) + tail ==
      NumberField(8, m.requestId) + (NumberField(16, BoolNumber(m.success))
        + (BytesField(26, m.responseData) + (NumberField(32, SignExtended(m.errorCode))
        + (BytesField(42, m.errorMessage) + tail))))
    ensures |m.responseData| <= |SerializedResponse(m)|
    ensures |m.errorMessage| <= |SerializedResponse(m)|
  {
    hide NumberField;
  }

  /** The response's counterpart of RequestParsesBack. */
  lemma ResponseParsesBack(m0: Response, m: Response, tail: Data)
    requires |SerializedResponse(m)| < TWO_64
    ensures var r := ParseResponse(m0, SerializedResponse(m) + tail);
      if ValidUtf8(m.errorMessage) then r == ParseResponse(MergedResponse(m0, m), tail)
      else r.0 == Malformed
  {
    hide ParseResponse, NumberField, BytesField, SerializedResponse, ValidUtf8, SignExtended;
    ResponsePieces(m, tail);
    var code := SignExtended(m.errorCode);
    var t5 := BytesField(42, m.errorMessage) + tail;
    var t4 := NumberField(32, code) + t5;
    var t3 := BytesField(26, m.responseData) + t4;
    var t2 := NumberField(16, BoolNumber(m.success)) + t3;
    var m1 := SetResponseNumber(m0, 8, m.requestId);
    var m2 := SetResponseNumber(m1, 16, BoolNumber(m.success));
    var m3 := SetResponseBytes(m2, 26, m.responseData);
    var m4 := SetResponseNumber(m3, 32, code);
    ResponseNumber(m0, 8, m.requestId, t2);
    ResponseNumber(m1, 16, BoolNumber(m.success), t3);
    ResponseBytes(m2, 26, m.responseData, t4);
    ResponseNumber(m3, 32, code, t5);
    ResponseBytes(m4, 42, m.errorMessage, tail);
    LowBits(m.errorCode);
    ZeroOnly(m.errorCode);
  }

  lemma ResponseMergeLaw(m1: Response, m2: Response)
    requires |SerializedResponse(m1)| < TWO_64 && |SerializedResponse(m2)| < TWO_64
    requires ValidUtf8(m1.errorMessage) && ValidUtf8(m2.errorMessage)
    ensures ParseResponse(EmptyResponse(), SerializedResponse(m1) + SerializedResponse(m2))
      == (Done, MergedResponse(m1, m2))
  {
    hide ParseResponse, SerializedResponse, ValidUtf8;
    ResponseParsesBack(EmptyResponse(), m1, SerializedResponse(m2));
    assert MergedResponse(EmptyResponse(), m1) == m1;
    assert SerializedResponse(m2) + [] == SerializedResponse(m2);
    ResponseParsesBack(m1, m2, []);
    ResponseParsesNothing(MergedResponse(m1, m2));
  }

  lemma ResponseParsesNothing(m: Response)
    ensures ParseResponse(m, []) == (Done, m)
  {
  }

  lemma ResponseRoundTripIff(m: Response)
    requires |SerializedResponse(m)| < TWO_64
    ensures ParseResponse(EmptyResponse(), SerializedResponse(m)) == (Done, m)
      <==> ValidUtf8(m.errorMessage)
  {
    hide ParseResponse, SerializedResponse, ValidUtf8;
    assert SerializedResponse(m) + [] == SerializedResponse(m);
    ResponseParsesBack(EmptyResponse(), m, []);
    assert MergedResponse(EmptyResponse(), m) == m;
    ResponseParsesNothing(m);
  }

  /** One response and its bytes: a failure with code 8. */
  lemma ResponseOnTheWire()
    ensures SerializedResponse(Response(5, false, [1], 8, [110, 111]))
      == [8, 5, 26, 1, 1, 32, 8, 42, 2, 110, 111]
    ensures SerializedResponse(Response(5, true, [], 0, [])) == [8, 5, 16, 1]
  {
    hide Varint;
    ShortVarint(1);
    ShortVarint(2);
    ShortVarint(5);
    ShortVarint(8);
  }

  lemma OtherResponseTags(m: Response, b: Data, tag: uint32, rest: Data)
    requires ReadTag(b) == Some((tag, rest))
    requires tag != 8 && tag != 16 && tag != 26 && tag != 32 && tag != 42
    ensures ParseResponse(m, b).0 == if tag == 0 || tag % 8 == 4 then Malformed else Foreign
  {
    hide ReadTag, ReadVarint64, ReadVarint32, ReadString, ReadDelimited;
    NoBytesNoTag(b);
  }

  lemma CutResponseFieldIsRefused(m: Response, tag: byte, n: uint64, s: Data, k: nat)
    requires |s| < TWO_64 && k > 0
    ensures (tag == 8 || tag == 16 || tag == 32) && k < |NumberField(tag, n)| ==>
      ParseResponse(m, NumberField(tag, n)[..k]).0 == Malformed
    ensures (tag == 26 || tag == 42) && k < |BytesField(tag, s)| ==>
      ParseResponse(m, BytesField(tag, s)[..k]).0 == Malformed
  {
    hide ReadTag, ReadVarint, Varint, Delimited, ValidUtf8;
    if (tag == 8 || tag == 16 || tag == 32) && k < |NumberField(tag, n)| {
      assert NumberField(tag, n)[..k] == [tag] + Varint(n)[..k - 1];
      TagReadsBack(tag, Varint(n)[..k - 1]);
      VarintCut(n, k - 1, MAX_VARINT);
    }
    if (tag == 26 || tag == 42) && k < |BytesField(tag, s)| {
      assert BytesField(tag, s)[..k] == [tag] + Delimited(s)[..k - 1];
      TagReadsBack(tag, Delimited(s)[..k - 1]);
      DelimitedCut(s, k - 1);
    }
  }
}
