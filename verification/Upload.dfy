/** The server side of a connection and the file upload carried over it: the handler that writes
  * chunks, the socket that reassembles units and answers them, and the client's chunking loop. */
module Upload {
  import opened Common
  import opened Pdu
  import opened Reassembly

  /** What lies outside: whether the n-th handled unit could open its file, and what the handlers
    * that work on the database and the file system answer to the n-th unit. */
  datatype Env = Env(opens: nat -> bool, answers: nat -> Option<Pdu>)

  /** `file` holds the bytes written since the last successful open. */
  datatype Handler = Handler(fileSize: int, received: int, file: seq<Octet>, isOpen: bool, served: nat)

  const NEW_HANDLER := Handler(0, 0, [], false, 0)

  /** A response that carries one truth value. */
  function Respond(msgType: U32, ok: bool): Pdu {
    Pdu(HEADER, 0, msgType, [if ok then 1 else 0] + Zeros(63), [])
  }

  /** `uploadFileInit`. */
  function InitUpload(h: Handler, env: Env, p: Pdu): (Handler, Option<Pdu>)
  {
    var ok := env.opens(h.served);
    (Handler(From64(p.data[32..40]), 0, if ok then [] else h.file, ok, h.served),
     Some(Respond(UPLOAD_INIT_RESPOND, ok)))
  }

  /** The bytes of the message that its length field announces. */
  function Payload(p: Pdu): seq<Octet> {
    if p.msgLen <= |p.msg| then p.msg[..p.msgLen] else p.msg
  }

  /** `uploadFileData`: a write to a file that is not open fails and is not noticed. */
  function WriteChunk(h: Handler, p: Pdu): (Handler, Option<Pdu>) {
    var file := if h.isOpen then h.file + Payload(p) else h.file;
    var received := h.received + p.msgLen;
    if received < h.fileSize then (h.(file := file, received := received), None)
    else
      (h.(file := file, received := received, isOpen := false),
       Some(Respond(UPLOAD_DATA_RESPOND, received == h.fileSize)))
  }

  /** `handlePDU`: the sixteen other requests are the odd numbers up to 31. */
  function HandleOne(h: Handler, env: Env, p: Pdu): (Handler, Option<Pdu>)
  {
    if p.msgType == UPLOAD_INIT_REQUEST then InitUpload(h, env, p)
    else if p.msgType == UPLOAD_DATA_REQUEST then WriteChunk(h, p)
    else if p.msgType < 32 && p.msgType % 2 == 1 then (h, env.answers(h.served))
    else (h, None)
  }

  function Handle(h: Handler, env: Env, p: Pdu): (Handler, Option<Pdu>)
  {
    var (h', response) := HandleOne(h, env, p);
    (h'.(served := h.served + 1), response)
  }

  /** One response slot per unit. */
  function HandleAll(h: Handler, env: Env, pdus: seq<Pdu>): (r: (Handler, seq<Option<Pdu>>))
    ensures |r.1| == |pdus|
    decreases |pdus|
  {
    if pdus == [] then (h, [])
    else
      var (h', response) := Handle(h, env, pdus[0]);
      var (h'', more) := HandleAll(h', env, pdus[1..]);
      (h'', [response] + more)
  }

  lemma HandleAllCases(h: Handler, env: Env, pdus: seq<Pdu>)
    ensures pdus == [] ==> HandleAll(h, env, pdus) == (h, [])
    ensures pdus != [] ==>
              var (h', response) := Handle(h, env, pdus[0]);
              HandleAll(h, env, pdus) == (HandleAll(h', env, pdus[1..]).0, [response] + HandleAll(h', env, pdus[1..]).1)
  {
    hide Handle;
  }

  lemma {:induction false} HandleAllAppend(h: Handler, env: Env, a: seq<Pdu>, b: seq<Pdu>)
    ensures var h' := HandleAll(h, env, a).0;
            HandleAll(h, env, a + b) ==
            (HandleAll(h', env, b).0, HandleAll(h, env, a).1 + HandleAll(h', env, b).1)
    decreases |a|
  {
    hide Handle, HandleAll;
    HandleAllCases(h, env, a);
    if a == [] {
      assert a + b == b;
      assert [] + HandleAll(h, env, b).1 == HandleAll(h, env, b).1;
    } else {
      var (h1, response) := Handle(h, env, a[0]);
      HandleAllCases(h, env, a + b);
      assert (a + b)[0] == a[0] && (a + b)[1..] == a[1..] + b;
      HandleAllAppend(h1, env, a[1..], b);
      var (ra, rb) := (HandleAll(h1, env, a[1..]).1, HandleAll(HandleAll(h1, env, a[1..]).0, env, b).1);
      assert [response] + (ra + rb) == [response] + ra + rb;
    }
  }

  /** What the socket writes back: the responses that exist, printed. */
  function Sent(responses: seq<Option<Pdu>>): seq<Octet> {
    if responses == [] then []
    else (if responses[0].None? then [] else Print(responses[0].value)) + Sent(responses[1..])
  }

  lemma {:induction false} SentAppend(a: seq<Option<Pdu>>, b: seq<Option<Pdu>>)
    ensures Sent(a + b) == Sent(a) + Sent(b)
  {
    if a == [] {
      assert a + b == b;
    } else {
      assert (a + b)[1..] == a[1..] + b;
      SentAppend(a[1..], b);
    }
  }

  /** A connection: bytes not yet handled, the handler, and the bytes written back. */
  datatype Session = Session(buffer: seq<Octet>, handler: Handler, written: seq<Octet>)

  /** `recvMsg` on one fragment. */
  function Receives(s: Session, env: Env, fragment: seq<Octet>): Session {
    var parsed := Split(s.buffer + fragment);
    var (h, responses) := HandleAll(s.handler, env, parsed.pdus);
    Session(parsed.rest, h, s.written + Sent(responses))
  }

  // ---- The objects ----

  class MsgHandler {
    const env: Env
    var fileSize: int
    var received: int
    var file: seq<Octet>
    var isOpen: bool
    var served: nat

    function State(): Handler
      reads this
    {
      Handler(fileSize, received, file, isOpen, served)
    }

    constructor (env: Env)
      ensures this.env == env && State() == NEW_HANDLER
    {
      this.env := env;
      fileSize, received, file, isOpen, served := 0, 0, [], false, 0;
    }

    method UploadFileInit(p: Pdu) returns (response: Option<Pdu>)
      modifies this
      ensures (State(), response) == InitUpload(old(State()), env, p)
      ensures fileSize == From64(p.data[32..40]) && received == 0 && isOpen == env.opens(old(served))
    {
      fileSize := From64(p.data[32..40]);
      isOpen := false;  // naming a new file closes the old one
      received := 0;
      isOpen := env.opens(served);
      if isOpen {
        file := [];
      }
      response := Some(Respond(UPLOAD_INIT_RESPOND, isOpen));
    }

    /** The handler trusts the message length, so the unit has to hold that much. */
    method UploadFileData(p: Pdu) returns (response: Option<Pdu>)
      requires p.msgLen <= |p.msg|
      modifies this
      ensures (State(), response) == WriteChunk(old(State()), p)
    {
      if isOpen {
        file := file + p.msg[..p.msgLen];
      }
      received := received + p.msgLen;
      if received < fileSize {
        return None;
      }
      isOpen := false;
      response := Some(Respond(UPLOAD_DATA_RESPOND, received == fileSize));
    }

    method HandlePDU(p: Pdu) returns (response: Option<Pdu>)
      requires p.msgType == UPLOAD_DATA_REQUEST ==> p.msgLen <= |p.msg|
      modifies this
      ensures (State(), response) == Handle(old(State()), env, p)
    {
      hide Respond, From64;
      if p.msgType == UPLOAD_INIT_REQUEST {
        response := UploadFileInit(p);
      } else if p.msgType == UPLOAD_DATA_REQUEST {
        response := UploadFileData(p);
      } else if p.msgType < 32 && p.msgType % 2 == 1 {
        response := env.answers(served);
      } else {
        response := None;
      }
      served := served + 1;
    }
  }

  class MyTcpSocket {
    const handler: MsgHandler
    var buffer: seq<Octet>
    var written: seq<Octet>

    function State(): Session
      reads this, handler
    {
      Session(buffer, handler.State(), written)
    }

    constructor (env: Env)
      ensures fresh(handler) && handler.env == env && State() == Session([], NEW_HANDLER, [])
    {
      handler := new MsgHandler(env);
      buffer, written := [], [];
    }

    method SendMsg(p: Option<Pdu>)
      modifies this`written
      ensures written == old(written) + Sent([p])
      ensures written == old(written) + if p.None? then [] else Print(p.value)
    {
      if p.None? {
        return;
      }
      written := written + Print(p.value);
    }

    /** One fragment arrives. The preconditions are those of the source: the loop must not meet a
      * unit that it cannot step over, and upload data must be as long as it says. */
    method RecvMsg(data: seq<Octet>)
      requires !Split(buffer + data).stalled
      requires forall p | p in Split(buffer + data).pdus :: p.msgType == UPLOAD_DATA_REQUEST ==> p.msgLen <= |p.msg|
      modifies this, handler
      ensures State() == Receives(old(State()), handler.env, data)
    {
      hide Print, Handle, HandleAll, Sent, Split, View, Declared, RemoveFront;
      ghost var all := Split(buffer + data).pdus;
      ghost var h := handler.State();
      ghost var done: seq<Pdu> := [];
      HandleNone(h, handler.env);
      buffer := buffer + data;
      while |buffer| >= HEADER
        invariant !Split(buffer).stalled && Split(buffer).rest == Split(old(buffer) + data).rest
        invariant all == done + Split(buffer).pdus
        invariant handler.State() == HandleAll(h, handler.env, done).0
        invariant written == old(written) + Sent(HandleAll(h, handler.env, done).1)
        decreases |buffer|
      {
        SplitCases(buffer);
        if |buffer| < Declared(buffer) {
          break;
        }
        var p := View(buffer);
        TakeHead(all, done, p, Split(buffer[Declared(buffer)..]).pdus);
        var response := handler.HandlePDU(p);
        SendMsg(response);
        HandleOneMore(h, handler.env, done, p);
        SentAppend(HandleAll(h, handler.env, done).1, [response]);
        done := done + [p];
        RemoveWhole(buffer, Declared(buffer));
        buffer := RemoveFront(buffer, Declared(buffer));
      }
      SplitCases(buffer);
      assert done == all;
    }
  }

  lemma TakeHead(all: seq<Pdu>, done: seq<Pdu>, p: Pdu, more: seq<Pdu>)
    requires all == done + ([p] + more)
    ensures p in all && all == (done + [p]) + more
  {}

  lemma RemoveWhole(buf: seq<Octet>, n: int)
    requires 0 < n <= |buf|
    ensures RemoveFront(buf, n) == buf[n..]
  {}

  lemma HandleNone(h: Handler, env: Env)
    ensures HandleAll(h, env, []) == (h, []) && Sent([]) == []
  {}

  lemma HandleOneMore(h: Handler, env: Env, done: seq<Pdu>, p: Pdu)
    ensures var (h', responses) := HandleAll(h, env, done);
            HandleAll(h, env, done + [p]) == (Handle(h', env, p).0, responses + [Handle(h', env, p).1])
  {
    hide Handle, HandleAll;
    HandleAllAppend(h, env, done, [p]);
    var h' := HandleAll(h, env, done).0;
    var (h'', response) := Handle(h', env, p);
    HandleAllCases(h', env, [p]);
    HandleAllCases(h'', env, [p][1..]);
    assert [response] + [] == [response];
  }

  /** Requests other than uploads leave the upload alone: the sixteen about accounts, friends, chat,
    * directories and files get the answer of their handler, anything else gets none. */
  lemma OtherRequestsLeaveUpload(h: Handler, env: Env, p: Pdu)
    requires p.msgType != UPLOAD_INIT_REQUEST && p.msgType != UPLOAD_DATA_REQUEST
    ensures Handle(h, env, p).0 == h.(served := h.served + 1)
    ensures Handle(h, env, p).1 ==
            if p.msgType in {1, 3, 5, 7, 9, 11, 13, 15, 17, 19, 21, 23, 25, 27, 29, 31} then env.answers(h.served) else None
  {}

  /** A response is a bare header of its type whose first parameter byte is the truth value. */
  lemma RespondBytes(msgType: U32, ok: bool)
    ensures |Print(Respond(msgType, ok))| == 76
    ensures Print(Respond(msgType, ok)) ==
            LE32(76) + LE32(0) + LE32(msgType) + [if ok then 1 else 0] + seq(63, _ => 0)
    ensures UPLOAD_INIT_RESPOND == 34 && UPLOAD_DATA_RESPOND == 36
  {
    hide LE32;
  }

  // ---- The upload ----

  function DataPdu(chunk: seq<Octet>): Pdu
    requires HEADER + |chunk| < 0x1_0000_0000
  {
    Pdu(HEADER + |chunk|, |chunk|, UPLOAD_DATA_REQUEST, Zeros(64), chunk)
  }

  /** The request that announces an upload: file name, size, and the directory as message. */
  function InitPdu(name: seq<Octet>, size: int, path: seq<Octet>): Pdu
    requires |name| == 32 && -0x8000_0000_0000_0000 <= size < 0x8000_0000_0000_0000
    requires HEADER + |path| < 0x1_0000_0000
  {
    Pdu(HEADER + |path|, |path|, UPLOAD_INIT_REQUEST, name + LE64(size) + Zeros(24), path)
  }

  /** Where the units of an upload carry what. The announcement has the name in the first 32 parameter
    * bytes, the size in the next eight, and the directory as its message; a data unit has nothing but
    * its chunk. */
  lemma UploadUnitsLayout(name: seq<Octet>, size: int, path: seq<Octet>, chunk: seq<Octet>)
    requires HEADER + |chunk| < 0x1_0000_0000
    requires |name| == 32 && -0x8000_0000_0000_0000 <= size < 0x8000_0000_0000_0000
    requires HEADER + |path| < 0x1_0000_0000
    ensures var p := InitPdu(name, size, path);
            && p.data[..32] == name && p.data[32..40] == LE64(size) && p.msg == path && p.msgType == 33
            && p.msgLen == |path| && p.pduLen == 76 + |path|
    ensures var p := DataPdu(chunk);
            && p.msg == chunk && p.msgType == 35 && p.msgLen == |chunk| && p.pduLen == 76 + |chunk|
            && forall i | 0 <= i < 64 :: p.data[i] == 0
  {
    hide LE64;
  }

  /** The chunks are what `Uploader` can read in one go. */
  predicate Chunked(chunks: seq<seq<Octet>>) {
    forall c | c in chunks :: 1 <= |c| <= 40960
  }

  /** The upload data units of the stream are these chunks in order; everything else is some
    * request that has nothing to do with uploads. */
  ghost predicate Carries(stream: seq<Pdu>, chunks: seq<seq<Octet>>)
    requires Chunked(chunks)
  {
    if stream == [] then chunks == []
    else if stream[0].msgType == UPLOAD_DATA_REQUEST then
      chunks != [] && stream[0] == DataPdu(chunks[0]) && Carries(stream[1..], chunks[1..])
    else stream[0].msgType != UPLOAD_INIT_REQUEST && Carries(stream[1..], chunks)
  }

  lemma CarriesCons(stream: seq<Pdu>, chunks: seq<seq<Octet>>, chunk: seq<Octet>)
    requires Chunked([chunk] + chunks) && Chunked(chunks) && Carries(stream, chunks)
    ensures Carries([DataPdu(chunk)] + stream, [chunk] + chunks)
  {
    var all, pdus := [chunk] + chunks, [DataPdu(chunk)] + stream;
    assert all[1..] == chunks && pdus[1..] == stream;
  }

  /** What the client is told about its data units: nothing until the last, then success. */
  ghost predicate DataResponses(stream: seq<Pdu>, responses: seq<Option<Pdu>>)
    requires |stream| == |responses|
  {
    forall i | 0 <= i < |stream| && stream[i].msgType == UPLOAD_DATA_REQUEST ::
      responses[i] == if exists j :: i < j < |stream| && stream[j].msgType == UPLOAD_DATA_REQUEST
                      then None
                      else Some(Respond(UPLOAD_DATA_RESPOND, true))
  }

  ghost predicate HasData(stream: seq<Pdu>) {
    exists j :: 0 <= j < |stream| && stream[j].msgType == UPLOAD_DATA_REQUEST
  }

  lemma {:induction false} CarriesNone(stream: seq<Pdu>, chunks: seq<seq<Octet>>)
    requires Chunked(chunks) && Carries(stream, chunks)
    ensures chunks == [] <==> !HasData(stream)
    decreases |stream|
  {
    if stream != [] {
      if stream[0].msgType != UPLOAD_DATA_REQUEST {
        CarriesNone(stream[1..], chunks);
        assert forall j | 1 <= j < |stream| :: stream[j] == stream[1..][j - 1];
      }
    }
  }

  lemma ConcatNonEmpty(chunks: seq<seq<Octet>>)
    requires Chunked(chunks)
    ensures chunks == [] <==> Concat(chunks) == []
  {
    if chunks != [] {
      assert |chunks[0]| >= 1;
    }
  }

  /** The server in the middle of an upload, with these chunks still to come. */
  ghost predicate Awaiting(h: Handler, chunks: seq<seq<Octet>>) {
    h.received + |Concat(chunks)| == h.fileSize
  }

  // ---- Whatever size was announced ----

  /** The number of message bytes that the upload data units of a stream announce. */
  function DataBytes(stream: seq<Pdu>): nat {
    if stream == [] then 0
    else (if stream[0].msgType == UPLOAD_DATA_REQUEST then stream[0].msgLen else 0) + DataBytes(stream[1..])
  }

  /** The answer to the unit with which so many bytes have been received. */
  function SizeAnswer(received: int, size: int): Option<Pdu> {
    if received < size then None else Some(Respond(UPLOAD_DATA_RESPOND, received == size))
  }

  ghost predicate AnswersBySize(stream: seq<Pdu>, responses: seq<Option<Pdu>>, received: int, size: int)
    requires |stream| == |responses|
  {
    forall i | 0 <= i < |stream| && stream[i].msgType == UPLOAD_DATA_REQUEST ::
      responses[i] == SizeAnswer(received + DataBytes(stream[..i + 1]), size)
  }

  lemma DataBytesHead(stream: seq<Pdu>, i: nat)
    requires i < |stream|
    ensures DataBytes(stream[..i + 1]) == DataBytes([stream[0]]) + DataBytes(stream[1..][..i])
    ensures stream[0].msgType == UPLOAD_DATA_REQUEST ==> DataBytes([stream[0]]) == stream[0].msgLen
    ensures stream[0].msgType != UPLOAD_DATA_REQUEST ==> DataBytes([stream[0]]) == 0
  {
    assert stream[..i + 1][1..] == stream[1..][..i];
    assert [stream[0]][1..] == [];
  }

  lemma AnswersBySizeCons(stream: seq<Pdu>, responses: seq<Option<Pdu>>, received: int, size: int)
    requires |stream| == |responses| > 0
    requires AnswersBySize(stream[1..], responses[1..], received + DataBytes([stream[0]]), size)
    requires stream[0].msgType == UPLOAD_DATA_REQUEST ==>
               responses[0] == SizeAnswer(received + DataBytes([stream[0]]), size)
    ensures AnswersBySize(stream, responses, received, size)
  {
    hide SizeAnswer, DataBytes;
    forall i | 0 <= i < |stream| && stream[i].msgType == UPLOAD_DATA_REQUEST
      ensures responses[i] == SizeAnswer(received + DataBytes(stream[..i + 1]), size)
    {
      if i == 0 {
        assert stream[..1] == [stream[0]];
      } else {
        assert stream[1..][i - 1] == stream[i] && responses[1..][i - 1] == responses[i];
        DataBytesHead(stream, i);
      }
    }
  }

  lemma OneAnsweredBySize(h: Handler, env: Env, p: Pdu)
    requires p.msgType != UPLOAD_INIT_REQUEST
    ensures var (h1, response) := Handle(h, env, p);
            && h1.fileSize == h.fileSize
            && h1.received == h.received + DataBytes([p])
            && (p.msgType == UPLOAD_DATA_REQUEST ==> response == SizeAnswer(h1.received, h.fileSize))
  {
    DataBytesHead([p], 0);
    assert [p][..1] == [p];
    hide DataBytes, Respond;
  }

  /** Whatever size was announced and however much has been received before: a data unit is left
    * unanswered as long as the bytes so far do not reach the size; the first to reach it and every
    * later one are answered, with success exactly where the bytes so far are the size. */
  lemma {:induction false} AnswersFollowSize(h: Handler, env: Env, stream: seq<Pdu>)
    requires forall p | p in stream :: p.msgType != UPLOAD_INIT_REQUEST
    ensures var (h', responses) := HandleAll(h, env, stream);
            && h'.received == h.received + DataBytes(stream) && h'.fileSize == h.fileSize
            && AnswersBySize(stream, responses, h.received, h.fileSize)
    decreases |stream|
  {
    hide Handle, HandleAll, SizeAnswer, AnswersBySize, DataBytes;
    HandleAllCases(h, env, stream);
    if stream == [] {
      NoAnswersBySize(h.received, h.fileSize);
    } else {
      var (h1, response) := Handle(h, env, stream[0]);
      var responses := HandleAll(h, env, stream).1;
      assert stream[0] in stream;
      OneAnsweredBySize(h, env, stream[0]);
      assert responses[1..] == HandleAll(h1, env, stream[1..]).1;
      AnswersFollowSize(h1, env, stream[1..]);
      AnswersBySizeCons(stream, responses, h.received, h.fileSize);
      DataBytesHead(stream, |stream| - 1);
      assert stream[..|stream|] == stream && stream[1..][..|stream| - 1] == stream[1..];
    }
  }

  lemma NoAnswersBySize(received: int, size: int)
    ensures AnswersBySize([], [], received, size) && DataBytes([]) == 0
  {}

  lemma {:induction false} CarriesBytes(stream: seq<Pdu>, chunks: seq<seq<Octet>>)
    requires Chunked(chunks) && Carries(stream, chunks)
    ensures DataBytes(stream) == |Concat(chunks)|
    ensures forall p | p in stream :: p.msgType != UPLOAD_INIT_REQUEST
    decreases |stream|
  {
    if stream != [] {
      CarriesBytes(stream[1..], if stream[0].msgType == UPLOAD_DATA_REQUEST then chunks[1..] else chunks);
    }
  }

  /** What precedes the last data unit falls short of the whole. */
  lemma {:induction false} EarlierBytesFewer(stream: seq<Pdu>, chunks: seq<seq<Octet>>, i: nat, j: nat)
    requires Chunked(chunks) && Carries(stream, chunks)
    requires i < j < |stream| && stream[j].msgType == UPLOAD_DATA_REQUEST
    ensures DataBytes(stream[..i + 1]) < |Concat(chunks)|
    decreases |stream|
  {
    hide DataBytes, DataPdu, Concat, HasData;
    var rest := RestCarried(stream, chunks);
    DataBytesHead(stream, i);
    assert stream[1..][j - 1] == stream[j];
    if i > 0 {
      EarlierBytesFewer(stream[1..], rest, i - 1, j - 1);
    } else {
      assert HasData(stream[1..]) by {
        DataAt(stream[1..], j - 1);
      }
      CarriesNone(stream[1..], rest);
      ConcatNonEmpty(rest);
      assert DataBytes(stream[1..][..0]) == 0 by {
        NoAnswersBySize(0, 0);
      }
    }
  }

  lemma DataAt(stream: seq<Pdu>, j: nat)
    requires j < |stream| && stream[j].msgType == UPLOAD_DATA_REQUEST
    ensures HasData(stream)
  {}

  /** What the stream carries after its first unit. */
  lemma RestCarried(stream: seq<Pdu>, chunks: seq<seq<Octet>>) returns (rest: seq<seq<Octet>>)
    requires Chunked(chunks) && Carries(stream, chunks) && stream != []
    ensures Chunked(rest) && Carries(stream[1..], rest)
    ensures |Concat(chunks)| == DataBytes([stream[0]]) + |Concat(rest)|
  {
    DataBytesHead(stream, 0);
    rest := if stream[0].msgType == UPLOAD_DATA_REQUEST then chunks[1..] else chunks;
  }

  /** Nothing after the last data unit adds to its bytes. */
  lemma {:induction false} LaterBytesNone(stream: seq<Pdu>, i: nat)
    requires i < |stream| && forall j | i < j < |stream| :: stream[j].msgType != UPLOAD_DATA_REQUEST
    ensures DataBytes(stream[..i + 1]) == DataBytes(stream)
    decreases |stream| - i
  {
    if i + 1 == |stream| {
      assert stream[..i + 1] == stream;
    } else {
      LaterBytesNone(stream, i + 1);
      DataBytesSnoc(stream[..i + 1], stream[i + 1]);
      assert stream[..i + 2] == stream[..i + 1] + [stream[i + 1]];
    }
  }

  lemma {:induction false} DataBytesSnoc(stream: seq<Pdu>, p: Pdu)
    ensures DataBytes(stream + [p]) == DataBytes(stream) + DataBytes([p])
    decreases |stream|
  {
    if stream == [] {
      assert stream + [p] == [p];
    } else {
      assert (stream + [p])[1..] == stream[1..] + [p];
      DataBytesSnoc(stream[1..], p);
    }
  }

  lemma LastData(stream: seq<Pdu>) returns (i: nat)
    requires HasData(stream)
    ensures i < |stream| && stream[i].msgType == UPLOAD_DATA_REQUEST
    ensures forall j | i < j < |stream| :: stream[j].msgType != UPLOAD_DATA_REQUEST
  {
    i := |stream| - 1;
    if stream[i].msgType != UPLOAD_DATA_REQUEST {
      assert forall j | 0 <= j < i :: stream[..i][j] == stream[j];
      i := LastData(stream[..i]);
    }
  }

  /** Answers by size are none until the last data unit and then success exactly if that one
    * completes the size, provided that every data unit adds to the bytes. */
  lemma LastAnswersIff(stream: seq<Pdu>, responses: seq<Option<Pdu>>, received: int, size: int, last: nat)
    requires |stream| == |responses| && AnswersBySize(stream, responses, received, size)
    requires last < |stream| && stream[last].msgType == UPLOAD_DATA_REQUEST
    requires forall j | last < j < |stream| :: stream[j].msgType != UPLOAD_DATA_REQUEST
    requires forall i | 0 <= i < last && stream[i].msgType == UPLOAD_DATA_REQUEST ::
               DataBytes(stream[..i + 1]) < DataBytes(stream[..last + 1])
    ensures DataResponses(stream, responses) <==> received + DataBytes(stream[..last + 1]) == size
  {
    hide DataBytes, Respond;
    AnswersDiffer();
    if received + DataBytes(stream[..last + 1]) == size {
      forall i | 0 <= i < |stream| && stream[i].msgType == UPLOAD_DATA_REQUEST
        ensures responses[i] == if exists j :: i < j < |stream| && stream[j].msgType == UPLOAD_DATA_REQUEST
                                then None
                                else Some(Respond(UPLOAD_DATA_RESPOND, true))
      {}
    } else {
      assert responses[last] != Some(Respond(UPLOAD_DATA_RESPOND, true));
    }
  }

  /** From any point in an upload, with any size announced, the chunks still to come are answered
    * as they should be, once, at the last, with success, exactly when they complete the size. */
  lemma AnsweredWithSuccessIff(h: Handler, env: Env, stream: seq<Pdu>, chunks: seq<seq<Octet>>)
    requires Chunked(chunks) && Carries(stream, chunks) && chunks != []
    ensures DataResponses(stream, HandleAll(h, env, stream).1) <==> Awaiting(h, chunks)
  {
    hide HandleAll, Respond, DataBytes, Carries, DataPdu, Chunked, AnswersBySize, DataResponses;
    CarriesBytes(stream, chunks);
    AnswersFollowSize(h, env, stream);
    CarriesNone(stream, chunks);
    var last := LastData(stream);
    LaterBytesNone(stream, last);
    forall i | 0 <= i < last && stream[i].msgType == UPLOAD_DATA_REQUEST
      ensures DataBytes(stream[..i + 1]) < DataBytes(stream[..last + 1])
    {
      EarlierBytesFewer(stream, chunks, i, last);
    }
    LastAnswersIff(stream, HandleAll(h, env, stream).1, h.received, h.fileSize, last);
  }

  lemma AnswersDiffer()
    ensures Respond(UPLOAD_DATA_RESPOND, true) != Respond(UPLOAD_DATA_RESPOND, false)
  {
    assert Respond(UPLOAD_DATA_RESPOND, true).data[0] == 1 && Respond(UPLOAD_DATA_RESPOND, false).data[0] == 0;
  }

  /** The file is written up to the chunk with which the announced size is reached, or to the end,
    * and is closed in the first case. */
  lemma {:induction false} WrittenUntilReached(
    h: Handler, env: Env, stream: seq<Pdu>, chunks: seq<seq<Octet>>, k: nat)
    requires Chunked(chunks) && Carries(stream, chunks) && h.isOpen && k <= |chunks|
    requires forall j | 0 < j < k :: h.received + |Concat(chunks[..j])| < h.fileSize
    requires k < |chunks| ==> k > 0 && h.received + |Concat(chunks[..k])| >= h.fileSize
    ensures var h' := HandleAll(h, env, stream).0;
            && h'.file == h.file + Concat(chunks[..k])
            && h'.isOpen == (k == 0 || h.received + |Concat(chunks[..k])| < h.fileSize)
    decreases |stream|
  {
    hide Handle, HandleAll, DataPdu, Concat;
    HandleAllCases(h, env, stream);
    if stream == [] {
      NothingConcat();
      assert k == 0 && chunks[..0] == [] && h.file + [] == h.file;
    } else if stream[0].msgType != UPLOAD_DATA_REQUEST {
      OtherRequestsLeaveUpload(h, env, stream[0]);
      WrittenUntilReached(Handle(h, env, stream[0]).0, env, stream[1..], chunks, k);
    } else {
      var h1, rest := Handle(h, env, stream[0]).0, chunks[1..];
      FirstChunkWritten(h, env, chunks);
      FirstPrefix(chunks, k);
      if h1.isOpen {
        PrefixesShift(h, h1, chunks, k);
        WrittenUntilReached(h1, env, stream[1..], rest, k - 1);
        assert h.file + chunks[0] + Concat(rest[..k - 1]) == h.file + Concat(chunks[..k]);
      } else {
        OnePrefix(chunks);
        assert k == 1;
        ClosedStaysClosed(h1, env, stream[1..], rest);
      }
    }
  }

  lemma NothingConcat()
    ensures Concat<Octet>([]) == []
  {}

  lemma OnePrefix(chunks: seq<seq<Octet>>)
    requires chunks != []
    ensures Concat(chunks[..1]) == chunks[0]
  {
    FirstPrefix(chunks, 1);
    assert Concat(chunks[1..][..0]) == [];
  }

  /** What is known about prefixes of the chunks, seen from after the first chunk. */
  lemma PrefixesShift(h: Handler, h1: Handler, chunks: seq<seq<Octet>>, k: nat)
    requires 0 < k <= |chunks| && h1.received == h.received + |chunks[0]| < h1.fileSize == h.fileSize
    requires forall j | 0 < j < k :: h.received + |Concat(chunks[..j])| < h.fileSize
    requires k < |chunks| ==> h.received + |Concat(chunks[..k])| >= h.fileSize
    ensures forall j | 0 < j < k - 1 :: h1.received + |Concat(chunks[1..][..j])| < h1.fileSize
    ensures k < |chunks| ==> k > 1 && h1.received + |Concat(chunks[1..][..k - 1])| >= h1.fileSize
    ensures h1.received + |Concat(chunks[1..][..k - 1])| == h.received + |Concat(chunks[..k])|
    ensures k == 1 ==> h.received + |Concat(chunks[..k])| < h.fileSize
  {
    OnePrefix(chunks);
    FirstPrefix(chunks, k);
    forall j | 0 < j < k - 1
      ensures h1.received + |Concat(chunks[1..][..j])| < h1.fileSize
    {
      FirstPrefix(chunks, j + 1);
    }
  }

  lemma FirstPrefix(chunks: seq<seq<Octet>>, k: nat)
    requires 0 < k <= |chunks|
    ensures Concat(chunks[..k]) == chunks[0] + Concat(chunks[1..][..k - 1])
  {
    assert chunks[..k][1..] == chunks[1..][..k - 1];
  }

  lemma FirstChunkWritten(h: Handler, env: Env, chunks: seq<seq<Octet>>)
    requires Chunked(chunks) && chunks != [] && h.isOpen
    ensures var h1 := Handle(h, env, DataPdu(chunks[0])).0;
            && h1.file == h.file + chunks[0] && h1.received == h.received + |chunks[0]| && h1.fileSize == h.fileSize
            && h1.isOpen == (h1.received < h.fileSize)
  {
    hide Respond, Zeros;
    assert Payload(DataPdu(chunks[0])) == chunks[0];
  }

  lemma {:induction false} ClosedStaysClosed(h: Handler, env: Env, stream: seq<Pdu>, chunks: seq<seq<Octet>>)
    requires Chunked(chunks) && Carries(stream, chunks) && !h.isOpen
    ensures !HandleAll(h, env, stream).0.isOpen && HandleAll(h, env, stream).0.file == h.file
    decreases |stream|
  {
    hide HandleAll, Respond, Payload;
    HandleAllCases(h, env, stream);
    if stream != [] {
      var rest := if stream[0].msgType == UPLOAD_DATA_REQUEST then chunks[1..] else chunks;
      ClosedStaysClosed(Handle(h, env, stream[0]).0, env, stream[1..], rest);
    }
  }

  lemma PrefixShorter(chunks: seq<seq<Octet>>, j: nat)
    requires Chunked(chunks) && j < |chunks|
    ensures |Concat(chunks[..j])| < |Concat(chunks)|
  {
    assert chunks == chunks[..j] + chunks[j..];
    ConcatAppend(chunks[..j], chunks[j..]);
    ConcatNonEmpty(chunks[j..]);
  }

  /** The rest of an upload, from any point in its middle and with other requests in between: the
    * chunks still missing are written if the file is open, then it is closed, and their one
    * answer is success. */
  lemma RestOfUpload(h: Handler, env: Env, stream: seq<Pdu>, chunks: seq<seq<Octet>>)
    requires Chunked(chunks) && Carries(stream, chunks) && Awaiting(h, chunks)
    requires chunks == [] ==> !h.isOpen
    ensures var (h', responses) := HandleAll(h, env, stream);
            && h'.file == (if h.isOpen then h.file + Concat(chunks) else h.file)
            && h'.received == h'.fileSize == h.fileSize && !h'.isOpen
            && DataResponses(stream, responses)
  {
    hide HandleAll, Carries, Respond;
    CarriesBytes(stream, chunks);
    CarriesNone(stream, chunks);
    AnswersFollowSize(h, env, stream);
    if chunks != [] {
      AnsweredWithSuccessIff(h, env, stream, chunks);
    }
    if h.isOpen {
      forall j | 0 < j < |chunks|
        ensures h.received + |Concat(chunks[..j])| < h.fileSize
      {
        PrefixShorter(chunks, j);
      }
      assert chunks[..|chunks|] == chunks;
      WrittenUntilReached(h, env, stream, chunks, |chunks|);
    } else {
      ClosedStaysClosed(h, env, stream, chunks);
    }
  }

  // ---- Through any fragmentation ----

  function ReceivesAll(s: Session, env: Env, fragments: seq<seq<Octet>>): Session {
    if fragments == [] then s
    else Receives(ReceivesAll(s, env, fragments[..|fragments| - 1]), env, fragments[|fragments| - 1])
  }

  /** As long as the loop is not stuck, a fresh connection has handled exactly the units that
    * reassembly finds, whatever the fragments. */
  lemma {:induction false} SessionHandlesReassembledUnits(h: Handler, env: Env, fragments: seq<seq<Octet>>)
    requires !ReceiveAll(fragments).stalled
    ensures ReceivesAll(Session([], h, []), env, fragments) ==
            Session(ReceiveAll(fragments).rest,
                    HandleAll(h, env, ReceiveAll(fragments).pdus).0,
                    Sent(HandleAll(h, env, ReceiveAll(fragments).pdus).1))
  {
    hide HandleAll, Split, Sent;
    if fragments == [] {
      HandleNone(h, env);
    } else {
      var front, last := fragments[..|fragments| - 1], fragments[|fragments| - 1];
      SessionHandlesReassembledUnits(h, env, front);
      var sofar := ReceiveAll(front);
      var more := Split(sofar.rest + last).pdus;
      HandleAllAppend(h, env, sofar.pdus, more);
      SentAppend(HandleAll(h, env, sofar.pdus).1, HandleAll(HandleAll(h, env, sofar.pdus).0, env, more).1);
    }
  }

  /** What an announcement leaves behind and how it is answered, for any file name and size. */
  lemma InitAnnouncesSize(h: Handler, env: Env, name: seq<Octet>, size: int, path: seq<Octet>)
    requires |name| == 32 && -0x8000_0000_0000_0000 <= size < 0x8000_0000_0000_0000
    requires HEADER + |path| < 0x1_0000_0000
    ensures var (h', response) := Handle(h, env, InitPdu(name, size, path));
            && h'.fileSize == size && h'.received == 0 && h'.isOpen == env.opens(h.served)
            && h'.file == (if env.opens(h.served) then [] else h.file)
            && response == Some(Respond(UPLOAD_INIT_RESPOND, env.opens(h.served)))
  {
    hide LE64, From64, Respond;
    RoundTrip64(size);
    assert InitPdu(name, size, path).data[32..40] == LE64(size);
  }

  /** End to end: a non-empty file, cut into chunks of 1 to 40960 bytes and sent after its
    * announcement, interleaved with any requests that are not uploads, through any fragmentation,
    * arrives whole if the server could open its file; and of the answers to the stream those to the
    * chunks are one, at the last one, with success, whether or not it could. */
  lemma UploadArrives(h: Handler, env: Env, name: seq<Octet>, path: seq<Octet>, file: seq<Octet>,
                      chunks: seq<seq<Octet>>, stream: seq<Pdu>, fragments: seq<seq<Octet>>)
    returns (responses: seq<Option<Pdu>>)
    requires |name| == 32 && |file| < 0x8000_0000_0000_0000 && HEADER + |path| < 0x8000_0000
    requires Chunked(chunks) && Concat(chunks) == file && file != []
    requires Carries(stream, chunks) && forall p | p in stream :: WellFormed(p)
    requires Concat(fragments) == PrintAll([InitPdu(name, |file|, path)] + stream)
    ensures responses == HandleAll(Handle(h, env, InitPdu(name, |file|, path)).0, env, stream).1
    ensures var s := ReceivesAll(Session([], h, []), env, fragments);
            var ok := env.opens(h.served);
            && s.buffer == [] && !s.handler.isOpen
            && s.handler.file == (if ok then file else h.file)
            && |responses| == |stream| && DataResponses(stream, responses)
            && s.written == Sent([Some(Respond(UPLOAD_INIT_RESPOND, ok))] + responses)
  {
    hide HandleAll, Sent, Split, PrintAll, Handle, Respond, DataResponses, InitPdu, Carries;
    var init := InitPdu(name, |file|, path);
    var pdus := [init] + stream;
    InitWellFormed(name, |file|, path);
    assert PrintAll(pdus) + [] == PrintAll(pdus);
    PrintedUnitsArrive(pdus, [], fragments);
    SessionHandlesReassembledUnits(h, env, fragments);
    InitAnnouncesSize(h, env, name, |file|, path);
    var (h1, response) := Handle(h, env, init);
    HandleAllCases(h, env, pdus);
    assert pdus[0] == init && pdus[1..] == stream;
    ConcatNonEmpty(chunks);
    RestOfUpload(h1, env, stream, chunks);
    responses := HandleAll(h1, env, stream).1;
    assert [] + file == file;
  }

  lemma InitWellFormed(name: seq<Octet>, size: int, path: seq<Octet>)
    requires |name| == 32 && 0 <= size < 0x8000_0000_0000_0000 && HEADER + |path| < 0x8000_0000
    ensures WellFormed(InitPdu(name, size, path))
  {}

  /** An upload is answered as complete exactly when the file is not empty: an empty file sends
    * no data unit, and the server keeps its file open. */
  lemma UploadCompletesIff(h: Handler, env: Env, stream: seq<Pdu>, chunks: seq<seq<Octet>>)
    requires Chunked(chunks) && Carries(stream, chunks)
    requires h.received == 0 && h.fileSize == |Concat(chunks)| && h.isOpen
    ensures var (h', responses) := HandleAll(h, env, stream);
            && (h'.isOpen <==> Concat(chunks) == [])
            && ((exists i :: 0 <= i < |stream| && stream[i].msgType == UPLOAD_DATA_REQUEST && responses[i].Some?)
                <==> Concat(chunks) != [])
  {
    hide HandleAll, Carries, Respond;
    CarriesNone(stream, chunks);
    ConcatNonEmpty(chunks);
    if chunks == [] {
      WrittenUntilReached(h, env, stream, [], 0);
    } else {
      RestOfUpload(h, env, stream, chunks);
      var i := LastData(stream);
      assert HandleAll(h, env, stream).1[i] == Some(Respond(UPLOAD_DATA_RESPOND, true));
    }
  }

  // ---- The client ----

  /** What one call of `read` delivers: nothing at the end of the file, otherwise at least one byte
    * and at most what was asked for and what is left. A negative wish is a failure. */
  function Delivered(wish: int, left: nat): nat {
    if left == 0 then 0
    else if wish < 1 then 1
    else if wish > 40960 then (if left > 40960 then 40960 else left)
    else if wish > left then left
    else wish
  }

  /** After these chunks, a read with this outcome did not fail and delivered this chunk of a file. */
  ghost predicate ReadsNext(before: seq<seq<Octet>>, chunk: seq<Octet>, length: nat, outcome: int) {
    outcome >= 0 && |Concat(before)| <= length && |chunk| == Delivered(outcome, length - |Concat(before)|)
  }

  ghost predicate ReadInTurn(chunks: seq<seq<Octet>>, length: nat, outcomes: nat -> int) {
    forall i | 0 <= i < |chunks| :: ReadsNext(chunks[..i], chunks[i], length, outcomes(i))
  }

  ghost predicate SentInTurn(sent: seq<seq<Octet>>, chunks: seq<seq<Octet>>)
    requires Chunked(chunks)
  {
    |sent| == |chunks| && forall i | 0 <= i < |sent| :: sent[i] == Print(DataPdu(chunks[i]))
  }

  lemma OneMoreRead(chunks: seq<seq<Octet>>, length: nat, outcomes: nat -> int, chunk: seq<Octet>)
    requires ReadInTurn(chunks, length, outcomes)
    requires ReadsNext(chunks, chunk, length, outcomes(|chunks|))
    ensures ReadInTurn(chunks + [chunk], length, outcomes)
  {
    hide ReadsNext;
    var all := chunks + [chunk];
    forall i | 0 <= i < |all|
      ensures ReadsNext(all[..i], all[i], length, outcomes(i))
    {
      assert all[..i] == chunks[..i];
      assert i == |chunks| ==> chunks[..i] == chunks;
    }
  }

  /** `Uploader::uploadFile`, given whether the file opens and what each of its reads would deliver or,
    * if negative, that it fails. It fails exactly if the file does not open or the read after the
    * last unit sent does; until then every read becomes one unit, and without a failure they carry
    * the whole file. */
  method UploadFile(file: seq<Octet>, opens: bool, outcomes: nat -> int)
    returns (sent: seq<seq<Octet>>, failed: bool, ghost chunks: seq<seq<Octet>>)
    ensures Chunked(chunks) && SentInTurn(sent, chunks) && ReadInTurn(chunks, |file|, outcomes)
    ensures Concat(chunks) <= file && (!failed ==> Concat(chunks) == file)
    ensures !opens ==> failed && sent == []
    ensures opens ==> (failed <==> outcomes(|sent|) < 0)
  {
    hide Print, LE32, Zeros, DataPdu, Concat, ReadInTurn;
    sent, chunks, failed := [], [], false;
    NothingConcat();
    NothingRead(|file|, outcomes);
    if !opens {
      return [], true, [];
    }
    var position := 0;
    while true
      invariant position <= |file| && Concat(chunks) == file[..position]
      invariant Chunked(chunks) && SentInTurn(sent, chunks)
      invariant ReadInTurn(chunks, |file|, outcomes)
      decreases |file| - position
    {
      var pdu := MkPdu(UPLOAD_DATA_REQUEST, 40960);
      var ret := if outcomes(|sent|) < 0 then -1 else Delivered(outcomes(|sent|), |file| - position);
      if ret == 0 {
        break;
      }
      if ret < 0 {
        failed := true;
        break;
      }
      var chunk := file[position..position + ret];
      FillChunk(pdu, chunk);
      sent := sent + [pdu[..HEADER + ret]];
      ConcatSnoc(chunks, chunk);
      OneMoreRead(chunks, |file|, outcomes, chunk);
      chunks := chunks + [chunk];
      position := position + ret;
    }
  }

  lemma NothingRead(length: nat, outcomes: nat -> int)
    ensures ReadInTurn([], length, outcomes)
  {}

  /** The read into the message area and the two length fields that are corrected after it. */
  method FillChunk(pdu: array<Octet>, chunk: seq<Octet>)
    requires pdu[..] == Print(Blank(UPLOAD_DATA_REQUEST, 40960)) && 1 <= |chunk| <= 40960
    modifies pdu
    ensures HEADER + |chunk| <= pdu.Length && pdu[..HEADER + |chunk|] == Print(DataPdu(chunk))
  {
    hide LE32, Print, Blank, DataPdu, Zeros;
    var n := |chunk|;
    BlankParts();
    ghost var start := LE32(UPLOAD_DATA_REQUEST) + Zeros(64);
    for k := 0 to n
      invariant pdu[8..HEADER] == start && pdu[HEADER..HEADER + k] == chunk[..k]
    {
      pdu[HEADER + k] := chunk[k];
    }
    ghost var middle := pdu[..][8..];
    MiddleParts(pdu[..], n);
    PutLengths(pdu, HEADER + n, n);
    assert pdu[..HEADER + n] == LE32(HEADER + n) + LE32(n) + middle[..68 + n];
    PrintParts(chunk);
  }

  lemma MiddleParts(s: seq<Octet>, n: nat)
    requires HEADER + n <= |s|
    ensures s[8..][..68 + n] == s[8..HEADER] + s[HEADER..HEADER + n]
  {}

  lemma BlankParts()
    ensures var s := Print(Blank(UPLOAD_DATA_REQUEST, 40960));
            |s| == HEADER + 40960 && s[8..HEADER] == LE32(UPLOAD_DATA_REQUEST) + Zeros(64)
  {
    hide LE32;
  }

  lemma PrintParts(chunk: seq<Octet>)
    requires |chunk| <= 40960
    ensures Print(DataPdu(chunk)) ==
            LE32(HEADER + |chunk|) + LE32(|chunk|) + (LE32(UPLOAD_DATA_REQUEST) + Zeros(64)) + chunk
  {
    hide LE32;
  }

  // ---- Client and server together ----

  /** The units that carry these chunks and nothing else. */
  function DataPdus(chunks: seq<seq<Octet>>): (pdus: seq<Pdu>)
    requires Chunked(chunks)
    ensures |pdus| == |chunks|
    ensures forall p | p in pdus :: WellFormed(p) && p.msgType == UPLOAD_DATA_REQUEST
  {
    if chunks == [] then [] else [DataPdu(chunks[0])] + DataPdus(chunks[1..])
  }

  /** What `UploadFile` sends is the printed form of the units that carry its chunks. */
  lemma {:induction false} SentIsPrinted(chunks: seq<seq<Octet>>, sent: seq<seq<Octet>>)
    requires Chunked(chunks) && SentInTurn(sent, chunks)
    ensures Concat(sent) == PrintAll(DataPdus(chunks))
    ensures Carries(DataPdus(chunks), chunks)
  {
    hide Print, DataPdu;
    if chunks != [] {
      SentIsPrinted(chunks[1..], sent[1..]);
      CarriesCons(DataPdus(chunks[1..]), chunks[1..], chunks[0]);
      assert [chunks[0]] + chunks[1..] == chunks;
      assert DataPdus(chunks)[1..] == DataPdus(chunks[1..]);
    }
  }

  lemma {:induction false} SentOfLast(responses: seq<Option<Pdu>>, p: Pdu)
    requires responses != [] && responses[|responses| - 1] == Some(p)
    requires forall i | 0 <= i < |responses| - 1 :: responses[i] == None
    ensures Sent(responses) == Print(p)
  {
    hide Print;
    if |responses| == 1 {
      assert responses[1..] == [];
    } else {
      SentOfLast(responses[1..], p);
    }
  }

  lemma OneAnswer(stream: seq<Pdu>, responses: seq<Option<Pdu>>)
    requires |stream| == |responses| > 0 && DataResponses(stream, responses)
    requires forall p | p in stream :: p.msgType == UPLOAD_DATA_REQUEST
    ensures Sent(responses) == Print(Respond(UPLOAD_DATA_RESPOND, true))
  {
    hide Print, Respond, Sent;
    var last := |stream| - 1;
    assert stream[last] in stream;
    forall i | 0 <= i < last
      ensures responses[i] == None
    {
      assert stream[i] in stream;
    }
    SentOfLast(responses, Respond(UPLOAD_DATA_RESPOND, true));
  }

  /** The client announces a non-empty file, the server opens its own, and the client then sends
    * what `UploadFile` makes of it: however the bytes are cut, the server has written the client's
    * file and closed it, and has answered the announcement and, once, the data, with success. */
  lemma ClientsFileArrives(h: Handler, env: Env, name: seq<Octet>, path: seq<Octet>, file: seq<Octet>,
                           chunks: seq<seq<Octet>>, sent: seq<seq<Octet>>, fragments: seq<seq<Octet>>)
    requires |name| == 32 && 0 < |file| < 0x8000_0000_0000_0000 && HEADER + |path| < 0x8000_0000
    requires env.opens(h.served)
    requires Chunked(chunks) && SentInTurn(sent, chunks) && Concat(chunks) == file
    requires Concat(fragments) == Print(InitPdu(name, |file|, path)) + Concat(sent)
    ensures var s := ReceivesAll(Session([], h, []), env, fragments);
            && s.buffer == [] && s.handler.file == file && !s.handler.isOpen
            && s.written == Print(Respond(UPLOAD_INIT_RESPOND, true)) + Print(Respond(UPLOAD_DATA_RESPOND, true))
  {
    hide Print, InitPdu, Respond, Carries, DataResponses, PrintAll, ReceivesAll, Sent, DataPdu, DataPdus;
    var stream := DataPdus(chunks);
    SentIsPrinted(chunks, sent);
    PrintAllOfCons(InitPdu(name, |file|, path), stream);
    ConcatNonEmpty(chunks);
    var responses := UploadArrives(h, env, name, path, file, chunks, stream, fragments);
    OneAnswer(stream, responses);
    SentOfCons(Respond(UPLOAD_INIT_RESPOND, true), responses);
  }

  lemma PrintAllOfCons(p: Pdu, stream: seq<Pdu>)
    ensures PrintAll([p] + stream) == Print(p) + PrintAll(stream)
  {
    hide Print;
    assert ([p] + stream)[1..] == stream;
  }

  lemma SentOfCons(p: Pdu, responses: seq<Option<Pdu>>)
    ensures Sent([Some(p)] + responses) == Print(p) + Sent(responses)
  {
    hide Print;
    assert ([Some(p)] + responses)[1..] == responses;
  }

  /** On such a connection every single fragment meets the preconditions of `RecvMsg`. */
  lemma FragmentsAreAccepted(h: Handler, env: Env, pdus: seq<Pdu>, fragments: seq<seq<Octet>>, k: nat)
    requires forall p | p in pdus :: WellFormed(p)
    requires Concat(fragments) == PrintAll(pdus) && k < |fragments|
    ensures var s := ReceivesAll(Session([], h, []), env, fragments[..k]);
            && !Split(s.buffer + fragments[k]).stalled
            && forall p | p in Split(s.buffer + fragments[k]).pdus :: p.msgType == UPLOAD_DATA_REQUEST ==> p.msgLen <= |p.msg|
  {
    hide Split, ReceiveAll, ReceivesAll, HandleAll, Sent, PrintAll;
    assert PrintAll(pdus) + [] == PrintAll(pdus);
    PrintedUnitsArrive(pdus, [], fragments);
    ReceivedStays(fragments, k);
    ReceivedStays(fragments, k + 1);
    SessionHandlesReassembledUnits(h, env, fragments[..k]);
    LastReceived(fragments[..k + 1]);
    assert fragments[..k + 1][..k] == fragments[..k];
    var s := Split(ReceiveAll(fragments[..k]).rest + fragments[k]);
    forall p | p in s.pdus
      ensures p in pdus
    {
      assert p in ReceiveAll(fragments[..k]).pdus + s.pdus;
    }
  }
}
