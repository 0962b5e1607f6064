/** The daemon's side of the control protocol, src/fand/server.c. */
module Server {
  import opened Bytes
  import opened Ipc
  import opened FandCfg
  import opened Errno

  const REQ_EXIT: Byte := 1
  const REQ_UNPRIVILEGED: Byte := 32
  const REQ_SPEED: Byte := 33
  const REQ_TEMP: Byte := 34
  const REQ_MATRIX: Byte := 35
  const VALID_REQUESTS: seq<Byte> := [REQ_EXIT, REQ_SPEED, REQ_TEMP, REQ_MATRIX]

  const SERVER_EXIT: int := 3

  /** What getsockopt(SO_PEERCRED) reports: the peer's uid, or failure with an errno. */
  datatype Credentials = Peer(uid: nat) | Unknown(errno: int)

  ghost predicate Plausible(creds: Credentials) {
    creds.Unknown? ==> creds.errno > 0 && IsInt(creds.errno)
  }

  /** The readings behind fanctrl_get_speed and fanctrl_get_temp at the time of the request. */
  datatype Sensors = Sensors(speed: int, temp: int)

  ghost predicate IntSensors(s: Sensors) { IsInt(s.speed) && IsInt(s.temp) }

  ghost predicate FitsMatrix(config: ConfigRecord) {
    |config.matrix| == 2 * MAX_ROWS && config.matrixRows <= MAX_ROWS
  }

  /** What the server has to say to a request. */
  datatype Answer = Exiting | Speed(percent: int) | Temperature(degrees: int)
    | Rows(nrows: nat, cells: seq<Byte>) | Refused(errno: int)

  function Measured(value: int, answer: Answer): Answer {
    if value < 0 then Refused(EAGAIN) else answer
  }

  function AnswerTo(request: Byte, creds: Credentials, sensors: Sensors, config: ConfigRecord): Answer
    requires FitsMatrix(config)
  {
    if request == REQ_EXIT then
      match creds
      case Peer(uid) => if uid == 0 then Exiting else Refused(EACCES)
      case Unknown(errno) => Refused(errno)
    else if request == REQ_SPEED then Measured(sensors.speed, Speed(sensors.speed))
    else if request == REQ_TEMP then Measured(sensors.temp, Temperature(sensors.temp))
    else if request == REQ_MATRIX then Rows(config.matrixRows, config.matrix[..2 * config.matrixRows])
    else Refused(EINVAL)
  }

  ghost predicate Expressible(a: Answer) {
    match a
    case Exiting => true
    case Speed(v) => IsInt(v)
    case Temperature(v) => IsInt(v)
    case Rows(n, cells) => 1 <= n <= MAX_ROWS && |cells| == 2 * n
    case Refused(e) => IsInt(e)
  }

  /** The reply that carries an answer. */
  function Wire(a: Answer): seq<Byte>
    requires a.Rows? ==> a.nrows <= MAX_ROWS && |a.cells| == 2 * a.nrows
  {
    match a
    case Exiting => EXIT_REPLY
    case Speed(v) => IntReply(0, v)
    case Temperature(v) => IntReply(0, v)
    case Rows(n, cells) => MatrixReply(cells, n)
    case Refused(e) => IntReply(1, e)
  }

  /** Every answer fits the message buffer. */
  lemma WireFits(a: Answer)
    requires Expressible(a)
    ensures 2 <= |Wire(a)| <= 35 < IPC_MAX_MSG_LENGTH == 48
  {
  }

  /** `server_validate_request`, server.c:26. */
  method ValidateRequest(request: Byte, creds: Credentials) returns (status: int)
    requires Plausible(creds)
    ensures request !in VALID_REQUESTS ==> status == EINVAL
    ensures request == REQ_EXIT ==>
      status == match creds case Peer(uid) => if uid == 0 then 0 else EACCES case Unknown(e) => e
    ensures request in VALID_REQUESTS && request != REQ_EXIT ==> status == 0
  {
    var valid := false;
    for i := 0 to |VALID_REQUESTS|
      invariant !valid && request !in VALID_REQUESTS[..i]
    {
      if request == VALID_REQUESTS[i] {
        valid := true;
        break;
      }
    }
    assert VALID_REQUESTS[0] == REQ_EXIT;
    if !valid {
      return EINVAL;
    }
    if request < REQ_UNPRIVILEGED {
      if creds.Unknown? {
        return creds.errno;
      }
      if creds.uid != 0 {
        return EACCES;
      }
    }
    return 0;
  }

  /** `server_pack_result`, server.c:56. */
  method PackResult(buffer: array<Byte>, bufsize: nat, request: Byte, sensors: Sensors) returns (n: int)
    requires bufsize <= buffer.Length
    modifies buffer
    ensures var value :=
        if request == REQ_SPEED then sensors.speed else if request == REQ_TEMP then sensors.temp else -1;
      bufsize >= 6 ==>
        && n == 6
        && buffer[..] == Splice(old(buffer[..]), 0, if value < 0 then IntReply(1, EAGAIN) else IntReply(0, value))
    ensures bufsize < 6 ==> n < 0
  {
    hide Splice, IntReply;
    var rspval := -1;
    if request == REQ_SPEED {
      rspval := sensors.speed;
    } else if request == REQ_TEMP {
      rspval := sensors.temp;
    }
    if rspval < 0 {
      n := PackError(buffer, bufsize, EAGAIN);
    } else if request == REQ_SPEED {
      n := PackSpeed(buffer, bufsize, rspval);
    } else {
      n := PackTemp(buffer, bufsize, rspval);
    }
  }

  lemma LeadingRows(matrix: seq<Byte>, nrows: nat)
    requires nrows <= MAX_ROWS && 2 * nrows <= |matrix|
    ensures MatrixReply(matrix, nrows) == MatrixReply(matrix[..2 * nrows], nrows)
    ensures |MatrixReply(matrix, nrows)| == 2 * nrows + 3
  {
  }

  /** C's `exitcode | 1`. */
  function OrOne(exitcode: int): int { if exitcode % 2 == 0 then exitcode + 1 else exitcode }

  /** What `recv` of the request byte returned. */
  datatype Received = Error | Closed | Request(code: Byte)

  /** The exit status that stops the daemon is returned only for an exit request from uid 0. */
  lemma ExitOnlyForRoot(request: Byte, creds: Credentials, sensors: Sensors, config: ConfigRecord)
    requires FitsMatrix(config)
    ensures AnswerTo(request, creds, sensors, config) == Exiting <==> request == REQ_EXIT && creds == Peer(0)
  {
  }

  /** `server_recv_and_respond`, server.c:141: the exit code and the reply handed to `send`, if any. */
  method RecvAndRespond(received: Received, creds: Credentials, sensors: Sensors, config: ConfigRecord, sent: bool)
    returns (exitcode: int, reply: seq<Byte>)
    requires Plausible(creds) && FitsMatrix(config)
    ensures !received.Request? ==> exitcode == 1 && reply == []
    ensures received.Request? ==>
      var a := AnswerTo(received.code, creds, sensors, config);
      && reply == (if a.Rows? && a.nrows == 0 then [] else Wire(a))
      && exitcode == (if a == Exiting then SERVER_EXIT else if reply == [] || !sent then 1 else 0)
    ensures exitcode == SERVER_EXIT <==> received == Request(REQ_EXIT) && creds == Peer(0)
  {
    hide Splice, IntReply, MatrixReply;
    exitcode, reply := 0, [];
    if !received.Request? {
      return 1, [];
    }
    var buffer := new Byte[IPC_MAX_MSG_LENGTH];
    var request := received.code;
    var rsplen: int;
    LeadingRows(config.matrix, config.matrixRows);
    ghost var was := buffer[..];
    ghost var a := AnswerTo(request, creds, sensors, config);
    ExitOnlyForRoot(request, creds, sensors, config);
    if |Wire(a)| <= |was| {
      SplicePrefix(was, Wire(a));
    }
    assert VALID_REQUESTS[0] == REQ_EXIT && VALID_REQUESTS[1] == REQ_SPEED
      && VALID_REQUESTS[2] == REQ_TEMP && VALID_REQUESTS[3] == REQ_MATRIX;
    var status := ValidateRequest(request, creds);
    if status != 0 {
      rsplen := PackError(buffer, buffer.Length, status);
    } else if request == REQ_EXIT {
      rsplen := PackExitRsp(buffer, buffer.Length);
      exitcode := SERVER_EXIT;
    } else if request == REQ_SPEED || request == REQ_TEMP {
      rsplen := PackResult(buffer, buffer.Length, request, sensors);
    } else {
      rsplen := PackMatrix(buffer, buffer.Length, config.matrix, config.matrixRows);
    }
    if rsplen < 0 {
      return OrOne(exitcode), [];
    }
    reply := buffer[..rsplen];
    if !sent {
      exitcode := OrOne(exitcode);
    }
  }

  lemma IntReplyBytes(code: Byte, v: int)
    ensures IntReply(code, v) == [6, code] + Encode(v, 4)
    ensures 0 <= v < 256 ==> IntReply(code, v) == [6, code, v, 0, 0, 0]
  {
    if 0 <= v < 256 {
      assert Encode(v, 4) == [v] + ([0] + ([0] + ([0] + [])));
    }
  }

  /** The reply to every request byte, as the bytes on the wire: 11 is EAGAIN, 13 EACCES, 22 EINVAL. */
  lemma ReplyBytes(request: Byte, creds: Credentials, sensors: Sensors, config: ConfigRecord)
    requires FitsMatrix(config)
    ensures var reply := Wire(AnswerTo(request, creds, sensors, config));
      match request
      case 1 =>
        (match creds
         case Peer(uid) => reply == if uid == 0 then [2, 0] else [6, 1, 13, 0, 0, 0]
         case Unknown(errno) => reply == [6, 1] + Encode(errno, 4))
      case 33 => reply == if sensors.speed < 0 then [6, 1, 11, 0, 0, 0] else [6, 0] + Encode(sensors.speed, 4)
      case 34 => reply == if sensors.temp < 0 then [6, 1, 11, 0, 0, 0] else [6, 0] + Encode(sensors.temp, 4)
      case 35 =>
        var n: nat := config.matrixRows;
        reply == [2 * n + 3, 0, n] + config.matrix[..2 * n]
      case _ => reply == [6, 1, 22, 0, 0, 0]
  {
    IntReplyBytes(1, 11);
    IntReplyBytes(1, 13);
    IntReplyBytes(1, 22);
    IntReplyBytes(0, sensors.speed);
    IntReplyBytes(0, sensors.temp);
    hide IntReply, Encode;
  }

  /** The exit status is told apart from success and failure, and a reply that cannot be sent does not change it. */
  lemma ExitStatusSurvives()
    ensures OrOne(SERVER_EXIT) == SERVER_EXIT && SERVER_EXIT !in {0, 1}
  {
  }

  lemma AnswerExpressible(request: Byte, creds: Credentials, sensors: Sensors, config: ConfigRecord)
    requires FitsMatrix(config) && Plausible(creds) && IntSensors(sensors) && config.matrixRows > 0
    ensures Expressible(AnswerTo(request, creds, sensors, config))
  {
  }
}

/** The client's side, src/fanctl/request.c and the checks of src/fanctl/format.c. */
module Client {
  import opened Bytes
  import opened Options
  import opened FandCfg
  import opened Ipc
  import opened Server

  /**
    * What amdgpu-fanctl prints about the reply. UnsetErrno is the message for the error field of a result that was
    * never written; ReceiveFailed stands for the messages of client_send_and_recv.
    */
  datatype Shown = ShownSpeed(percent: int) | ShownTemperature(degrees: int) | ShownMatrix(nrows: int, cells: seq<int>)
                 | ShownErrno(errno: int) | UnsetErrno | InvalidResponse(code: int) | InvalidRequest | ReceiveFailed
                 | Done

  /** `format`, format.c:69, after the unpacker's return value was stored in an unsigned char. */
  function Format(r: Result, request: Byte, rsp: Byte): Shown {
    if rsp == 1 then (if r.ErrorCode? then ShownErrno(r.error) else InvalidResponse(rsp))
    else if rsp != 0 then InvalidResponse(rsp)
    else if request == REQ_SPEED && r.Value? then ShownSpeed(r.value)
    else if request == REQ_TEMP && r.Value? then ShownTemperature(r.value)
    else if request == REQ_MATRIX && r.Cells? then ShownMatrix(r.nrows, r.cells)
    else InvalidRequest
  }

  /** What `amdgpu-fanctl get` makes of a reply. */
  function UnderstoodGet(request: Byte, reply: seq<Byte>): Shown {
    if request == REQ_SPEED || request == REQ_TEMP
    then Format(ReadInt(reply).result, request, Octet(ReadInt(reply).ret))
    else if request == REQ_MATRIX then Format(ReadMatrix(reply).result, request, Octet(ReadMatrix(reply).ret))
    else InvalidRequest
  }

  /** What `amdgpu-fanctl exit` makes of the bytes it decodes. */
  function UnderstoodExit(reply: seq<Byte>): Shown {
    var r := ReadExit(reply);
    if Octet(r.ret) == 0 then Done
    else if r.result.ErrorCode? then ShownErrno(r.result.error)
    else UnsetErrno
  }

  /** What the client makes of a reply to a request. */
  function Understood(request: Byte, reply: seq<Byte>): Shown {
    if request == REQ_EXIT then UnderstoodExit(reply) else UnderstoodGet(request, reply)
  }

  /** `request_process_get`, request.c:29; `received` is absent when client_send_and_recv fails. */
  method ProcessGet(request: Byte, received: Option<seq<Byte>>) returns (status: int, shown: Shown)
    requires request == REQ_MATRIX && received.Some? ==> RowsFit(received.value)
    ensures shown == if received.None? then ReceiveFailed else UnderstoodGet(request, received.value)
    ensures status == if shown.ShownSpeed? || shown.ShownTemperature? || shown.ShownMatrix? then 0 else -1
  {
    hide ReadInt, ReadMatrix, ReadExit;
    if received.None? {
      return -1, ReceiveFailed;
    }
    var r: Reading;
    if request == REQ_SPEED || request == REQ_TEMP {
      r := UnpackInt(received.value);
    } else if request == REQ_MATRIX {
      r := UnpackMatrix(received.value);
    } else {
      return -1, InvalidRequest;
    }
    shown := Format(r.result, request, Octet(r.ret));
    status := if shown.ShownErrno? || shown.InvalidResponse? || shown.InvalidRequest? then -1 else 0;
  }

  /**
    * The bytes unpack_exit_rsp sees. The failure value -1 is not tested but passed on as a size, which makes the whole
    * message buffer count as received, with whatever it held before.
    */
  function ExitInput(received: Option<seq<Byte>>, stale: seq<Byte>): seq<Byte> {
    match received
    case Some(reply) => reply
    case None => stale
  }

  /** `request_process_exit`, request.c:63; `stale` is what the uninitialised message buffer holds. */
  method ProcessExit(received: Option<seq<Byte>>, stale: seq<Byte>) returns (status: int, shown: Shown)
    requires |stale| == IPC_MAX_MSG_LENGTH
    ensures shown == UnderstoodExit(ExitInput(received, stale))
    ensures status == if shown == Done then 0 else -1
  {
    hide ReadInt, ReadMatrix, ReadExit;
    var r := UnpackExitRsp(ExitInput(received, stale));
    if Octet(r.ret) != 0 {
      return -1, if r.result.ErrorCode? then ShownErrno(r.result.error) else UnsetErrno;
    }
    return 0, Done;
  }

  /** The exit command succeeds exactly on a received exit reply, or without any reply on stale bytes 2, 0. */
  lemma ExitSucceedsExactly(received: Option<seq<Byte>>, stale: seq<Byte>)
    requires |stale| == IPC_MAX_MSG_LENGTH
    ensures UnderstoodExit(ExitInput(received, stale)) == Done <==>
      match received case Some(reply) => EXIT_REPLY <= reply case None => stale[0] == 2 && stale[1] == 0
  {
    ExitReadExactly(ExitInput(received, stale));
  }

  /** So its success means that the daemon accepted, except when nothing was received and the stale bytes are 2, 0. */
  lemma ExitSuccessTrustworthy(received: Option<seq<Byte>>, stale: seq<Byte>)
    requires |stale| == IPC_MAX_MSG_LENGTH
    ensures (UnderstoodExit(ExitInput(received, stale)) == Done ==> received.Some? && EXIT_REPLY <= received.value)
      <==> !(received.None? && stale[0] == 2 && stale[1] == 0)
  {
    ExitSucceedsExactly(received, stale);
    hide UnderstoodExit;
  }

  /** With no daemon listening, two contents of the uninitialised buffer: one success, one message for no error. */
  lemma ExitWithoutDaemon()
    ensures UnderstoodExit(ExitInput(None, [2, 0] + seq(46, _ => 0))) == Done
    ensures UnderstoodExit(ExitInput(None, seq(48, _ => 0))) == UnsetErrno
  {
  }

  /** What the user should see of an answer. */
  function Meaning(a: Answer): Shown {
    match a
    case Exiting => Done
    case Speed(v) => ShownSpeed(v)
    case Temperature(v) => ShownTemperature(v)
    case Rows(n, cells) => ShownMatrix(n, cells)
    case Refused(e) => ShownErrno(e)
  }

  /** The answers a request can get. */
  predicate Answers(request: Byte, a: Answer) {
    match a
    case Exiting => request == REQ_EXIT
    case Speed(v) => request == REQ_SPEED
    case Temperature(v) => request == REQ_TEMP
    case Rows(n, cells) => request == REQ_MATRIX
    case Refused(e) => request in {REQ_EXIT, REQ_SPEED, REQ_TEMP}
  }

  lemma WireUnderstood(request: Byte, a: Answer)
    requires Expressible(a) && Answers(request, a)
    ensures request == REQ_MATRIX ==> RowsFit(Wire(a))
    ensures Understood(request, Wire(a)) == Meaning(a)
  {
    hide ReadInt, ReadMatrix, ReadExit, IntReply, MatrixReply;
    assert Wire(a) + [] == Wire(a);
    match a {
      case Exiting => ExitReplyDecodes([]);
      case Speed(v) => IntReplyDecodes(0, v, []);
      case Temperature(v) => IntReplyDecodes(0, v, []);
      case Rows(n, cells) =>
        MatrixReplyDecodes(cells, n, []);
        assert cells[..2 * n] == cells;
      case Refused(e) => IntReplyDecodes(1, e, []);
    }
  }

  /** End to end: for each of the four requests the client shows exactly what the server answered. */
  lemma ClientUnderstandsServer(request: Byte, creds: Credentials, sensors: Sensors, config: ConfigRecord)
    requires request in VALID_REQUESTS
    requires FitsMatrix(config) && Plausible(creds) && IntSensors(sensors) && config.matrixRows > 0
    ensures var a := AnswerTo(request, creds, sensors, config);
      && (request == REQ_MATRIX ==> RowsFit(Wire(a)))
      && |Wire(a)| <= IPC_MAX_MSG_LENGTH
      && Understood(request, Wire(a)) == Meaning(a)
  {
    var a := AnswerTo(request, creds, sensors, config);
    AnswerExpressible(request, creds, sensors, config);
    WireFits(a);
    hide Expressible, Wire, Understood, Meaning;
    WireUnderstood(request, a);
  }

  /** A reply cut short is never taken for an answer, and the user is told so. */
  lemma TruncatedReplyNotUnderstood(request: Byte, creds: Credentials, sensors: Sensors, config: ConfigRecord, k: nat)
    requires request in VALID_REQUESTS
    requires FitsMatrix(config) && Plausible(creds) && IntSensors(sensors) && config.matrixRows > 0
    requires k < |Wire(AnswerTo(request, creds, sensors, config))|
    ensures var cut := Wire(AnswerTo(request, creds, sensors, config))[..k];
      && (if request == REQ_EXIT then ReadExit(cut).ret < 0
          else if request == REQ_MATRIX then ReadMatrix(cut).ret < 0
          else ReadInt(cut).ret < 0)
      && (if request == REQ_EXIT then Understood(request, cut) == UnsetErrno
          else Understood(request, cut).InvalidResponse?)
  {
    var cut := Wire(AnswerTo(request, creds, sensors, config))[..k];
    RefusedShown(request, cut);
    hide LoadInt;
  }

  /** A reply the decoder refuses is shown as such. */
  lemma RefusedShown(request: Byte, reply: seq<Byte>)
    requires request in {REQ_SPEED, REQ_TEMP, REQ_MATRIX, REQ_EXIT}
    ensures request in {REQ_SPEED, REQ_TEMP} && ReadInt(reply).ret < 0 ==> Understood(request, reply).InvalidResponse?
    ensures request == REQ_MATRIX && ReadMatrix(reply).ret < 0 ==> Understood(request, reply).InvalidResponse?
    ensures request == REQ_EXIT && |reply| < 6 && ReadExit(reply).ret < 0 ==> Understood(request, reply) == UnsetErrno
  {
    hide LoadInt;
  }

  // ---- What the user is shown, for every reply ----

  /** The value of a speed or temperature request is shown if and only if the reply starts with its ok reply. */
  lemma IntShownExactly(request: Byte, reply: seq<Byte>)
    requires request in {33, 34}
    ensures forall v :: StartsWithInt(reply, 0, v) ==>
      UnderstoodGet(request, reply) == if request == 33 then ShownSpeed(v) else ShownTemperature(v)
    ensures forall e :: StartsWithInt(reply, 1, e) ==> UnderstoodGet(request, reply) == ShownErrno(e)
    ensures
      || (exists v :: StartsWithInt(reply, 0, v))
      || (exists e :: StartsWithInt(reply, 1, e))
      || UnderstoodGet(request, reply).InvalidResponse?
  {
    IntReadExactly(reply);
    hide StartsWithInt, LoadInt;
    if ReadInt(reply).ret < 0 {
      RefusedShown(request, reply);
    } else {
      var code: Byte, v :| StartsWithInt(reply, code, v);
      assert ReadInt(reply).ret == code;
    }
  }

  /** A matrix is shown if and only if the reply starts with a matrix reply, or with 2, 0, 0 as one without rows. */
  lemma MatrixShownExactly(reply: seq<Byte>)
    requires RowsFit(reply)
    ensures forall n: Byte, cells: seq<Byte> :: StartsWithMatrix(reply, n, cells) ==>
      UnderstoodGet(35, reply) == ShownMatrix(n, cells)
    ensures [2, 0, 0] <= reply ==> UnderstoodGet(35, reply) == ShownMatrix(0, [])
    ensures forall e :: StartsWithInt(reply, 1, e) ==> UnderstoodGet(35, reply) == ShownErrno(e)
    ensures
      || (exists n: Byte, cells: seq<Byte> :: StartsWithMatrix(reply, n, cells))
      || [2, 0, 0] <= reply
      || (exists e :: StartsWithInt(reply, 1, e))
      || UnderstoodGet(35, reply).InvalidResponse?
  {
    MatrixReadExactly(reply);
    hide StartsWithInt, StartsWithMatrix, LoadInt;
    if ReadMatrix(reply).ret < 0 {
      RefusedShown(35, reply);
    } else if ReadMatrix(reply).ret > 0 {
      var code: Byte, v :| code > 0 && StartsWithInt(reply, code, v);
      assert ReadMatrix(reply).ret == code;
    }
  }

  /**
    * The number in the message for an invalid response: the code itself, or the error code of the unpacker as an
    * unsigned char. 249 is a reply cut in its head, 251 and 252 one cut later, 255 a wrong length byte.
    */
  lemma InvalidNumbers(request: Byte, reply: seq<Byte>)
    requires request in {33, 34, 35}
    ensures UnderstoodGet(request, reply).InvalidResponse? ==>
      var number := UnderstoodGet(request, reply).code;
      if |reply| < 2 then number == 249
      else if request != 35 || reply[1] != 0 then
        number == if |reply| >= 6 && reply[0] == 6 then reply[1] as int
                  else if |reply| < 6 && request == 35 then 251 else 255
      else if |reply| == 2 then number == 251
      else
        var n: nat := reply[2];
        number == if n > 0 && |reply| < 3 + 2 * n then 252 else 255
  {
    hide LoadInt;
  }

  /** What the exit command shows for every reply, whatever length byte it announces. */
  lemma ExitShownExactly(reply: seq<Byte>)
    ensures UnderstoodExit(reply) ==
      if [2, 0] <= reply then Done
      else if |reply| >= 6 && reply[1] != 0 then ShownErrno(Decode(reply[2..6], true))
      else UnsetErrno
  {
    ExitReadExactly(reply);
    assert |reply| >= 6 ==> reply[2..][..4] == reply[2..6];
    hide Decode;
  }
}
