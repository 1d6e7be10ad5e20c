/**
 * The two messages the framework sends: a request naming an interface
 * method, and a response envelope. Java objects carried inside them are
 * reduced to their runtime class and an opaque rendering of their state;
 * a Java `null` is `None`.
 */
module Messages {
  import opened JavaInt
  import opened Wrappers

  /** A Java object: its runtime class (what `getClass()` returns) and its contents. */
  datatype JObject = JObject(runtimeClass: string, contents: string)

  /** Whether a request is an ordinary call or a heartbeat. */
  datatype RequestType = Normal | HeartBeat

  /** The integer code of a request type. */
  function RequestTypeCode(t: RequestType): (code: int32)
    ensures code == (if t == Normal then 0 else 1)
  {
    match t
    case Normal => 0
    case HeartBeat => 1
  }

  datatype RpcRequest = RpcRequest(
    requestType: RequestType,
    interfaceName: Option<string>,
    methodName: Option<string>,
    params: Option<seq<Option<JObject>>>,
    paramsType: Option<seq<Option<string>>>)

  /** `RpcRequest.heartBeat()`: a heartbeat request with every other field unset. */
  function HeartBeatRequest(): (r: RpcRequest)
    ensures r.requestType == HeartBeat && RequestTypeCode(r.requestType) == 1
    ensures r.interfaceName.None? && r.methodName.None? && r.params.None? && r.paramsType.None?
  {
    RpcRequest(HeartBeat, None, None, None, None)
  }

  datatype RpcResponse = RpcResponse(
    code: int32,
    message: Option<string>,
    dataType: Option<string>,
    data: Option<JObject>)

  /** The exception `sussess(null)` throws when it asks `null` for its class. */
  datatype ResponseError = NullPointerException

  /**
   * `RpcResponse.sussess(data)`: code 200 carrying `data` and its runtime
   * class, without a message. A null `data` throws.
   */
  function Sussess(data: Option<JObject>): (r: Result<RpcResponse, ResponseError>)
    ensures r.Ok? <==> data.Some?
    ensures r.Ok? ==> r.value.code == 200 && r.value.data == data && r.value.message.None?
    ensures r.Ok? ==> r.value.dataType == Some(data.value.runtimeClass)
  {
    match data
    case None => Err(NullPointerException)
    case Some(obj) => Ok(RpcResponse(200, None, Some(obj.runtimeClass), Some(obj)))
  }

  /** `RpcResponse.fail(msg)`: code 500 carrying `msg`, with neither data nor data type. */
  function Fail(msg: Option<string>): (r: RpcResponse)
    ensures r.code == 500 && r.message == msg
    ensures r.data.None? && r.dataType.None?
  {
    RpcResponse(500, msg, None, None)
  }

  /**
   * A receiver can tell the two factories' responses apart by the code
   * alone, and read back what each was given: the data of a success and
   * the message of a failure.
   */
  lemma ResponsesReadBack(obj: JObject, msg: Option<string>, r: RpcResponse)
    requires r == Sussess(Some(obj)).value || r == Fail(msg)
    ensures r.code == 200 <==> r == Sussess(Some(obj)).value
    ensures r.code == 200 ==> r.data == Some(obj) && r.dataType == Some(obj.runtimeClass)
    ensures r.code != 200 ==> r.code == 500 && r.message == msg && r.data.None?
  {
  }
}
