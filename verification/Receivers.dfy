/** The receiving half of a connection: four states that cut a byte stream into messages. */
module Receivers {
  import opened Wire
  import opened Buffers

  /** What a socket answers to a read or a write: the bytes moved, 0 when the peer has closed, or a negative
      number for an error, which may be EAGAIN. */
  datatype Answer = Answer(n: int, again: bool) {
    predicate Blocks() {
      n < 0 && again
    }

    predicate Fails() {
      n < 0 && !again
    }
  }

  ghost predicate OneMoreThan(before: seq<Answer>, after: seq<Answer>) {
    |after| == |before| + 1 && before <= after
  }

  ghost function Last(answers: seq<Answer>): (a: Answer)
    requires answers != []
  {
    answers[|answers| - 1]
  }

  /** One direction of a TCP connection: the bytes written and not yet read, and all that the socket has
      answered at either end. */
  class Pipe {
    var bytes: seq<byte>
    ghost var readLog: seq<Answer>
    ghost var writeLog: seq<Answer>

    constructor ()
      ensures bytes == [] && readLog == [] && writeLog == []
    {
      bytes, readLog, writeLog := [], [], [];
    }

    /** A read takes any number of the bytes up to the size asked for, or finds the connection closed
        (n == 0), or fails (n < 0), with EAGAIN or another error. */
    method Read(mem: array<byte>, at: nat, size: nat) returns (n: int, again: bool)
      requires at + size <= mem.Length
      modifies this, mem
      ensures -1 <= n <= size && readLog == old(readLog) + [Answer(n, again)] && writeLog == old(writeLog)
      ensures n <= 0 ==> bytes == old(bytes) && mem[..] == old(mem[..])
      ensures n > 0 ==> n <= |old(bytes)| && bytes == old(bytes)[n..]
      ensures n > 0 ==> mem[..] == old(mem[..at]) + old(bytes)[..n] + old(mem[at + n..])
    {
      n :| -1 <= n <= size && n <= |bytes|;
      again :| again || !again;
      readLog := readLog + [Answer(n, again)];
      if n > 0 {
        forall i | 0 <= i < n {
          mem[at + i] := bytes[i];
        }
        bytes := bytes[n..];
      }
    }

    /** A write takes any number of the bytes offered. */
    method Write(mem: array<byte>, at: nat, size: nat) returns (n: int, again: bool)
      requires at + size <= mem.Length
      modifies this
      ensures -1 <= n <= size && writeLog == old(writeLog) + [Answer(n, again)] && readLog == old(readLog)
      ensures bytes == old(bytes) + if n > 0 then mem[at..at + n] else []
    {
      n :| -1 <= n <= size;
      again :| again || !again;
      writeLog := writeLog + [Answer(n, again)];
      if n > 0 {
        bytes := bytes + mem[at..at + n];
      }
    }
  }

  /** A buffer is being filled from the front: nothing in it yet, or content from its start. */
  ghost predicate Filling(b: Buffer)
    reads b
  {
    && b.Ok()
    && if b.available then b.pos == 0 else b.pos == NULL && b.last == NULL
  }

  /** One read behind the content of a buffer; what is read becomes content. */
  method Fill(b: Buffer, pipe: Pipe) returns (n: int, again: bool)
    requires Filling(b) && |b.Content()| < b.mem.Length
    modifies b, b.mem, pipe
    ensures Filling(b) && n <= |old(pipe.bytes)|
    ensures pipe.readLog == old(pipe.readLog) + [Answer(n, again)] && pipe.writeLog == old(pipe.writeLog)
    ensures n <= 0 ==> pipe.bytes == old(pipe.bytes) && b.Content() == old(b.Content())
    ensures n > 0 ==> pipe.bytes == old(pipe.bytes)[n..]
    ensures n > 0 ==> b.Content() == old(b.Content()) + old(pipe.bytes)[..n]
  {
    var at := if b.last != NULL then b.last + 1 else 0;
    var size := if b.last != NULL then b.UnusedSize() else b.TotalLength();
    ghost var before, taken := b.Content(), pipe.bytes;
    assert before == b.mem[..at];
    n, again := pipe.Read(b.mem, at, size);
    if n > 0 {
      if b.pos == NULL {
        b.SetPos(0);
      }
      b.MoveTailBack(n);
      assert b.mem[..at + n] == before + taken[..n];
    } else {
      assert b.mem[..at] == before;
    }
  }

  datatype RcvState = StartToRcvHeader | RcvingHeader | StartToRcvPayload | RcvingPayload

  /** What one turn of the receive loop came to. */
  datatype Status = More | Pause | Closed | Broken | BadHeader | Aborted {
    predicate Ok() {
      More? || Pause?
    }
  }

  /** What a status has to do with the answer to the read it came from; stopped says that the loop is to stop
      although bytes were read. */
  ghost predicate Told(status: Status, a: Answer, stopped: bool) {
    && (status.Closed? <==> a.n == 0)
    && (status.Broken? <==> a.Fails())
    && (status.Pause? <==> a.Blocks() || (a.n > 0 && stopped))
  }

  /** The status where no bytes were read. */
  function Stalled(n: int, again: bool): (status: Status)
    requires n <= 0
    ensures forall stopped :: Told(status, Answer(n, again), stopped)
    ensures !status.More? && !status.BadHeader? && !status.Aborted?
  {
    if n == 0 then Closed else if again then Pause else Broken
  }

  /** All answers of a call but the last were bytes, and its status is told by the last. */
  ghost predicate Traced(before: seq<Answer>, after: seq<Answer>, status: Status, stopped: bool) {
    && before <= after
    && (forall i | |before| <= i < |after| - 1 :: after[i].n > 0)
    && (after != before ==> Told(status, Last(after), stopped))
  }

  lemma TracedNone(before: seq<Answer>, status: Status, stopped: bool)
    ensures Traced(before, before, status, stopped)
  {
  }

  lemma TracedAborted(before: seq<Answer>, after: seq<Answer>, stopped: bool)
    requires Traced(before, after, More, stopped)
    ensures Traced(before, after, Aborted, stopped)
  {
  }

  lemma TracedMore(before: seq<Answer>, mid: seq<Answer>, on: bool, after: seq<Answer>, status: Status, stopped: bool)
    requires Traced(before, mid, More, on) && OneMoreThan(mid, after) && Told(status, Last(after), stopped)
    ensures |after| > |before| && Traced(before, after, status, stopped)
  {
    assert forall i | 0 <= i < |mid| :: after[i] == mid[i];
  }

  class Receiver {
    const header: Buffer
    var payload: Buffer?
    var state: RcvState
    var id: u64
    var len: nat
    var delivered: seq<Msg>
    ghost var consumed: seq<byte>
    ghost var lost: nat

    /** What has been read of the message under way. */
    ghost function Residue(): (s: seq<byte>)
      requires header.Ok() && (payload != null ==> payload.Ok())
      reads this, header, header.mem, payload, if payload == null then {} else {payload.mem}
    {
      match state
      case StartToRcvHeader => []
      case RcvingHeader => header.Content()
      case StartToRcvPayload => HeaderBytes(id, len)
      case RcvingPayload => HeaderBytes(id, len) + if payload == null then [] else payload.Content()
    }

    ghost predicate Valid()
      reads this, header, header.mem, payload, if payload == null then {} else {payload.mem}
    {
      && header.Ok() && header.mem.Length == HEADER_SIZE
      && (payload != null ==> payload.Ok() && payload != header && payload.mem != header.mem)
      && AllEncodable(delivered)
      && consumed == Stream(delivered) + Residue()
      && (state.StartToRcvPayload? || state.RcvingPayload? ==> len <= MAX_PAYLOAD_SIZE)
      && (state.StartToRcvHeader? ==> payload == null)
      && (state.RcvingHeader? ==> payload == null && Filling(header) && |header.Content()| < HEADER_SIZE)
      && (state.RcvingPayload? ==>
            payload != null && Filling(payload) && payload.mem.Length == len && 0 < |payload.Content()| < len)
    }

    constructor ()
      ensures Valid() && state == StartToRcvHeader && delivered == [] && consumed == [] && lost == 0
      ensures fresh(header) && fresh(header.mem)
    {
      header := new Buffer.Empty(HEADER_SIZE);
      payload, state, id, len, delivered, consumed, lost := null, StartToRcvHeader, 0, 0, [], [], 0;
    }

    /** DecodeMsgHeader: accepts exactly the good headers and returns what they say. */
    method DecodeMsgHeader() returns (ok: bool)
      requires header.Ok() && header.mem.Length == HEADER_SIZE && header.available && header.pos == 0
      modifies this`id, this`len
      ensures ok <==> GoodHeader(header.Content())
      ensures ok ==> len <= MAX_PAYLOAD_SIZE && header.Content() == HeaderBytes(id, len)
    {
      hide Value, Bytes, HeaderBytes, Pow256;
      if header.AvailableLength() < HEADER_SIZE {
        return false;
      }
      ghost var h := header.Content();
      var magic := ReadUInt(header.mem, header.pos, 4);
      assert header.mem[0..4] == h[..4];
      if magic != MESSAGE_MAGIC_NO {
        return false;
      }
      var theId := ReadUInt(header.mem, header.pos + 4, 8);
      assert header.mem[4..12] == h[4..12];
      BytesOfValue(h[4..12]);
      Pow256Values();
      id := theId;
      len := ReadUInt(header.mem, header.pos + 12, 4);
      assert header.mem[12..16] == h[12..];
      ok := len <= MAX_PAYLOAD_SIZE;
      if ok {
        HeaderDecoded(h);
      }
    }

    /** What holds while the bytes of a header are being collected. */
    ghost predicate InHeader()
      reads this, header, header.mem
    {
      && payload == null && header.mem.Length == HEADER_SIZE && Filling(header)
      && AllEncodable(delivered) && consumed == Stream(delivered) + header.Content()
    }

    method ParseHeader() returns (status: Status)
      requires InHeader() && header.available
      modifies this`id, this`len, this`state
      ensures status.More? || status.Pause? || status.BadHeader?
      ensures status.More? || status.Pause? ==> Valid()
      ensures status.More? ==> state.StartToRcvPayload?
      ensures status.Pause? ==> state.RcvingHeader?
      ensures status.BadHeader? ==> state == old(state)
      ensures status.BadHeader? ==> |header.Content()| == HEADER_SIZE && !GoodHeader(header.Content())
    {
      hide Stream, HeaderBytes, GoodHeader, AllEncodable;
      if header.AvailableLength() == header.TotalLength() {
        var ok := DecodeMsgHeader();
        if !ok {
          return BadHeader;
        }
        state := StartToRcvPayload;
        return More;
      } else {
        state := RcvingHeader;
        return Pause;
      }
    }

    /** StartToRcvHeader clears the header buffer. */
    method OpenHeader()
      requires Valid() && (state.StartToRcvHeader? || state.RcvingHeader?)
      modifies header, header.mem
      ensures InHeader() && |header.Content()| < HEADER_SIZE
      ensures state.StartToRcvHeader? ==> header.Content() == []
    {
      hide Stream, HeaderBytes, GoodHeader, AllEncodable;
      if state.StartToRcvHeader? {
        header.BZero();
      }
    }

    lemma HeaderWaits()
      requires InHeader() && |header.Content()| < HEADER_SIZE
      requires state.RcvingHeader? || (state.StartToRcvHeader? && header.Content() == [])
      ensures Valid()
    {
      hide Stream, HeaderBytes, GoodHeader, AllEncodable;
    }

    /** The two header states of the receive loop. */
    method ReadHeader(pipe: Pipe) returns (status: Status)
      requires Valid() && (state.StartToRcvHeader? || state.RcvingHeader?)
      modifies this, header, header.mem, pipe
      ensures payload == null && delivered == old(delivered) && lost == old(lost)
      ensures consumed + pipe.bytes == old(consumed + pipe.bytes)
      ensures status.More? <==> state.StartToRcvPayload?
      ensures status.More? ==> |pipe.bytes| < |old(pipe.bytes)|
      ensures !status.BadHeader? ==> Valid()
      ensures status.BadHeader? ==> InHeader() && |header.Content()| == HEADER_SIZE && !GoodHeader(header.Content())
      ensures !status.Aborted? && OneMoreThan(old(pipe.readLog), pipe.readLog) && pipe.writeLog == old(pipe.writeLog)
      ensures Told(status, Last(pipe.readLog), !status.BadHeader? && state.RcvingHeader?)
    {
      hide Stream, HeaderBytes, GoodHeader, AllEncodable, Stalled, Valid;
      OpenHeader();
      ghost var before, taken := header.Content(), pipe.bytes;
      var n, again := Fill(header, pipe);
      if n > 0 {
        consumed := consumed + taken[..n];
        Collected(old(consumed), taken, n, Stream(delivered), before);
        status := ParseHeader();
      } else {
        status := Stalled(n, again);
        HeaderWaits();
      }
    }

    /** What holds while the bytes of a payload are being collected. */
    ghost predicate InPayload()
      reads this, header, payload, if payload == null then {} else {payload.mem}
    {
      && header.Ok() && header.mem.Length == HEADER_SIZE
      && payload != null && payload != header && payload.mem != header.mem
      && 0 < len <= MAX_PAYLOAD_SIZE && payload.mem.Length == len && Filling(payload)
      && AllEncodable(delivered) && consumed == Stream(delivered) + (HeaderBytes(id, len) + payload.Content())
    }

    method CheckPayload(breakWhenRecvOne: bool) returns (status: Status)
      requires InPayload() && payload.available
      modifies this`state, this`delivered, this`payload
      ensures Valid() && (status.More? || status.Pause?)
      ensures status.Pause? <==> state.RcvingPayload? || breakWhenRecvOne
      ensures state.RcvingPayload? ==> delivered == old(delivered) && payload == old(payload)
      ensures state.StartToRcvHeader? ==> payload == null && delivered == old(delivered + [Msg(id, payload.Content())])
      ensures state.RcvingPayload? || state.StartToRcvHeader?
    {
      hide HeaderBytes;
      if payload.AvailableLength() == len {
        var m := Msg(id, payload.mem[payload.pos..payload.last + 1]);
        OneMore(delivered, m);
        state, delivered, payload := StartToRcvHeader, delivered + [m], null;
        status := if breakWhenRecvOne then Pause else More;
      } else {
        state := RcvingPayload;
        status := Pause;
      }
    }

    /** StartToRcvPayload takes a buffer for the payload; one taken before and not read into is not given
        back. */
    method TakeBuffer()
      requires Valid() && state.StartToRcvPayload? && len > 0
      modifies this`payload, this`lost
      ensures InPayload() && payload.Content() == [] && fresh(payload) && fresh(payload.mem)
      ensures lost == old(lost) + if old(payload) != null then 1 else 0
    {
      if payload != null {
        lost := lost + 1;
      }
      payload := new Buffer.Empty(len);
      assert HeaderBytes(id, len) + [] == HeaderBytes(id, len);
    }

    /** One read into the payload buffer. */
    method FillPayload(pipe: Pipe, breakWhenRecvOne: bool) returns (status: Status)
      requires InPayload() && |payload.Content()| < len
      requires if payload.Content() == [] then state.StartToRcvPayload? else state.RcvingPayload?
      modifies this, payload, payload.mem, pipe
      ensures Valid() && old(delivered) <= delivered && lost == old(lost) && len == old(len)
      ensures consumed + pipe.bytes == old(consumed + pipe.bytes)
      ensures payload == null || payload == old(payload)
      ensures status.More? ==> !breakWhenRecvOne && state.StartToRcvHeader? && |pipe.bytes| < |old(pipe.bytes)|
      ensures !status.Aborted? && !status.BadHeader? && (state.StartToRcvPayload? ==> old(state).StartToRcvPayload?)
      ensures OneMoreThan(old(pipe.readLog), pipe.readLog) && pipe.writeLog == old(pipe.writeLog)
      ensures Told(status, Last(pipe.readLog), state.RcvingPayload? || breakWhenRecvOne)
      ensures |delivered| == |old(delivered)| + if state.StartToRcvHeader? then 1 else 0
      ensures state.StartToRcvHeader? ==> Last(pipe.readLog).n > 0
      ensures Last(pipe.readLog).n > 0 ==> state.RcvingPayload? || state.StartToRcvHeader?
    {
      hide Stream, HeaderBytes, AllEncodable, Valid, Stalled;
      ghost var before, taken := payload.Content(), pipe.bytes;
      var n, again := Fill(payload, pipe);
      if n > 0 {
        consumed := consumed + taken[..n];
        Collected(old(consumed), taken, n, Stream(delivered), HeaderBytes(id, len) + before);
        Assoc(HeaderBytes(id, len), before, taken[..n]);
        status := CheckPayload(breakWhenRecvOne);
      } else {
        status := Stalled(n, again);
        Waiting();
      }
    }

    /** With its buffer not full, the receiver may go on later. */
    lemma Waiting()
      requires InPayload() && |payload.Content()| < len
      requires if payload.Content() == [] then state.StartToRcvPayload? else state.RcvingPayload?
      ensures Valid()
    {
      hide Stream, HeaderBytes, AllEncodable;
      assert HeaderBytes(id, len) + [] == HeaderBytes(id, len);
    }

    /** The two payload states. A header that announces no payload ends in the memory pool's assertion;
        a payload buffer taken before and not read into is not given back. */
    method ReadPayload(pipe: Pipe, breakWhenRecvOne: bool) returns (status: Status)
      requires Valid() && (state.StartToRcvPayload? || state.RcvingPayload?)
      modifies this, payload, if payload == null then {} else {payload.mem}, pipe
      ensures Valid() && old(delivered) <= delivered
      ensures consumed + pipe.bytes == old(consumed + pipe.bytes)
      ensures payload == null || payload == old(payload) || fresh(payload)
      ensures payload == null || payload == old(payload) || fresh(payload.mem)
      ensures status.More? ==> !breakWhenRecvOne && state.StartToRcvHeader? && |pipe.bytes| < |old(pipe.bytes)|
      ensures status.Aborted? <==> old(state.StartToRcvPayload? && len == 0)
      ensures len == old(len) && (state.StartToRcvPayload? ==> old(state).StartToRcvPayload?)
      ensures status.Aborted? ==> state.StartToRcvPayload?
      ensures !status.BadHeader?
      ensures lost == old(lost) + if old(state.StartToRcvPayload? && len > 0 && payload != null) then 1 else 0
      ensures pipe.writeLog == old(pipe.writeLog) && (status.Aborted? ==> pipe.readLog == old(pipe.readLog))
      ensures !status.Aborted? ==> OneMoreThan(old(pipe.readLog), pipe.readLog)
      ensures !status.Aborted? && Last(pipe.readLog).n > 0 ==> state.RcvingPayload? || state.StartToRcvHeader?
      ensures !status.Aborted? ==> Told(status, Last(pipe.readLog), state.RcvingPayload? || breakWhenRecvOne)
      ensures |delivered| == |old(delivered)| + if state.StartToRcvHeader? then 1 else 0
      ensures state.StartToRcvHeader? ==> |pipe.readLog| > 0 && Last(pipe.readLog).n > 0
    {
      hide Stream, HeaderBytes, AllEncodable;
      if state.StartToRcvPayload? {
        if len == 0 {
          return Aborted;
        }
        TakeBuffer();
      }
      status := FillPayload(pipe, breakWhenRecvOne);
    }

    /** Inside a message, or behind one and that is where to stop. */
    ghost predicate Stopped(status: Status, breakWhenRecvOne: bool)
      reads this
    {
      && !status.BadHeader?
      && (state.RcvingHeader? || state.RcvingPayload? || (state.StartToRcvHeader? && breakWhenRecvOne))
    }

    /** One turn of the loop. */
    method TurnOnce(pipe: Pipe, breakWhenRecvOne: bool) returns (status: Status)
      requires Valid()
      modifies this, header, header.mem, payload, if payload == null then {} else {payload.mem}, pipe
      ensures !status.BadHeader? ==> Valid()
      ensures status.BadHeader? ==> InHeader() && |header.Content()| == HEADER_SIZE && !GoodHeader(header.Content())
      ensures old(delivered) <= delivered && consumed + pipe.bytes == old(consumed + pipe.bytes)
      ensures status.Aborted? <==> old(state.StartToRcvPayload? && len == 0)
      ensures status.Aborted? ==> state == old(state) && len == old(len) && pipe.readLog == old(pipe.readLog)
      ensures !status.Aborted? && !status.BadHeader? && !status.More? && state.StartToRcvPayload? ==> len > 0
      ensures payload == null || payload == old(payload) || fresh(payload)
      ensures payload == null || payload == old(payload) || fresh(payload.mem)
      ensures status.More? ==> payload == null && |pipe.bytes| < |old(pipe.bytes)|
      ensures lost == old(lost) + if old(state.StartToRcvPayload? && len > 0 && payload != null) then 1 else 0
      ensures pipe.writeLog == old(pipe.writeLog)
      ensures !status.Aborted? ==> OneMoreThan(old(pipe.readLog), pipe.readLog)
      ensures !status.Aborted? ==> Told(status, Last(pipe.readLog), Stopped(status, breakWhenRecvOne))
      ensures |delivered| <= |old(delivered)| + if breakWhenRecvOne && status.More? then 0 else 1
      ensures status.Pause? && state.StartToRcvHeader? && Last(pipe.readLog).n > 0 ==> |delivered| > |old(delivered)|
    {
      hide Stream, HeaderBytes, GoodHeader, AllEncodable, OneMoreThan;
      if state.StartToRcvHeader? || state.RcvingHeader? {
        status := ReadHeader(pipe);
      } else {
        status := ReadPayload(pipe, breakWhenRecvOne);
      }
    }

    /** The receive loop agrees with the parser: after any sequence of calls that read anything at all,
        in pieces of any size, what was delivered and what is kept is what parsing all the bytes
        consumed so far gives. It stops for good on exactly the headers the parser stops on. What it answers
        is what the socket answered last: closed, failed, nothing for now; and where that was bytes, it stops
        for now exactly inside a message, or behind one if that is asked for. */
    method Recv(pipe: Pipe, breakWhenRecvOne: bool) returns (status: Status)
      requires Valid()
      modifies this, header, header.mem, payload, if payload == null then {} else {payload.mem}, pipe
      ensures !status.More? && old(delivered) <= delivered
      ensures consumed + pipe.bytes == old(consumed + pipe.bytes)
      ensures !status.BadHeader? ==> Valid() && Parse(consumed) == Parsed(delivered, Residue())
      ensures status.BadHeader? ==> header.Ok() && Parse(consumed) == Parsed(delivered, header.Content())
      ensures status.BadHeader? ==> |header.Content()| == HEADER_SIZE && !GoodHeader(header.Content())
      ensures status.Aborted? <==> !status.BadHeader? && state.StartToRcvPayload? && len == 0
      ensures payload == null || payload == old(payload) || fresh(payload)
      ensures payload == null || payload == old(payload) || fresh(payload.mem)
      ensures lost == old(lost) + if old(state.StartToRcvPayload? && len > 0 && payload != null) then 1 else 0
      ensures pipe.writeLog == old(pipe.writeLog)
      ensures |pipe.readLog| > |old(pipe.readLog)| || (status.Aborted? && old(state).StartToRcvPayload?)
      ensures Traced(old(pipe.readLog), pipe.readLog, status, Stopped(status, breakWhenRecvOne))
      ensures breakWhenRecvOne ==> |delivered| <= |old(delivered)| + 1
      ensures status.Pause? && state.StartToRcvHeader? && Last(pipe.readLog).n > 0 ==> |delivered| > |old(delivered)|
    {
      hide Stream, HeaderBytes, GoodHeader, AllEncodable, Parse, Traced, OneMoreThan;
      TracedNone(pipe.readLog, More, Stopped(More, breakWhenRecvOne));
      status := More;
      while status.More?
        invariant !status.BadHeader? ==> Valid()
        invariant status.BadHeader? ==> InHeader() && |header.Content()| == HEADER_SIZE && !GoodHeader(header.Content())
        invariant old(delivered) <= delivered && consumed + pipe.bytes == old(consumed + pipe.bytes)
        invariant status.Aborted? <==> !status.BadHeader? && !status.More? && state.StartToRcvPayload? && len == 0
        invariant payload == null || payload == old(payload) || fresh(payload)
        invariant payload == null || payload == old(payload) || fresh(payload.mem)
        invariant (status.More? && payload == old(payload) && state == old(state)
                   && len == old(len) && lost == old(lost))
               || ((status.More? ==> payload == null)
                   && lost == old(lost) + if old(state.StartToRcvPayload? && len > 0 && payload != null) then 1 else 0)
        invariant pipe.writeLog == old(pipe.writeLog)
        invariant |pipe.readLog| > |old(pipe.readLog)|
          || (status.More? && state == old(state)) || (status.Aborted? && old(state).StartToRcvPayload?)
        invariant Traced(old(pipe.readLog), pipe.readLog, status, Stopped(status, breakWhenRecvOne))
        invariant breakWhenRecvOne ==> |delivered| <= |old(delivered)| + if status.More? then 0 else 1
        invariant status.Pause? && state.StartToRcvHeader? && Last(pipe.readLog).n > 0 ==>
          |delivered| > |old(delivered)|
        decreases status.More?, |pipe.bytes|
      {
        ghost var log, on := pipe.readLog, Stopped(status, breakWhenRecvOne);
        status := TurnOnce(pipe, breakWhenRecvOne);
        if status.Aborted? {
          TracedAborted(old(pipe.readLog), log, on);
        } else {
          TracedMore(old(pipe.readLog), log, on, pipe.readLog, status, Stopped(status, breakWhenRecvOne));
        }
      }
      if status.BadHeader? {
        BadHeaderStops(header.Content());
        ParseStream(delivered, header.Content());
      } else {
        ResidueOpen();
        ParseStream(delivered, Residue());
      }
    }

    /** The receive that a step of the handshake makes inside the delivery of a message. The delivery then
        sets the payload buffer to null, whatever the receive left there: it loses a buffer that was taken,
        and the receiver is left to read into none exactly when the receive stopped inside a payload. */
    method RecvNested(pipe: Pipe) returns (status: Status)
      requires Valid() && state.StartToRcvHeader?
      modifies this, header, header.mem, pipe
      ensures old(delivered) <= delivered && consumed + pipe.bytes == old(consumed + pipe.bytes)
      ensures payload == null && Parse(consumed).msgs == delivered && |delivered| <= |old(delivered)| + 1
      ensures Traced(old(pipe.readLog), pipe.readLog, status, Stopped(status, true))
      ensures !status.BadHeader? ==> (Valid() <==> |Parse(consumed).rest| <= HEADER_SIZE)
      ensures !status.BadHeader? ==> (Valid() <==> !state.RcvingPayload?)
      ensures old(lost) <= lost <= old(lost) + 1 && (!status.BadHeader? && !Valid() ==> lost == old(lost) + 1)
    {
      hide Stream, HeaderBytes, GoodHeader, AllEncodable, Parse, Traced;
      status := Recv(pipe, true);
      if !status.BadHeader? {
        HeaderLength(id, len);
      }
      if payload != null {
        lost := lost + 1;
      }
      payload := null;
    }

    /** The bytes kept are never a whole frame. */
    lemma ResidueOpen()
      requires Valid()
      ensures Parse(Residue()) == Parsed([], Residue())
    {
      if state.StartToRcvPayload? {
        assert HeaderBytes(id, len) + [] == HeaderBytes(id, len);
        FrameOpen(id, len, []);
      } else if state.RcvingPayload? {
        FrameOpen(id, len, payload.Content());
      }
    }
  }

  lemma FrameOpen(id: u64, len: nat, part: seq<byte>)
    requires len <= MAX_PAYLOAD_SIZE && (|part| < len || part == [])
    ensures var s := HeaderBytes(id, len) + part; Parse(s) == Parsed([], s)
  {
    var s := HeaderBytes(id, len) + part;
    HeaderParts(id, len);
    assert s[..HEADER_SIZE] == HeaderBytes(id, len);
  }

  lemma HeaderLength(id: u64, len: nat)
    ensures |HeaderBytes(id, len)| == HEADER_SIZE
  {
  }

  lemma BadHeaderStops(h: seq<byte>)
    requires |h| == HEADER_SIZE && !GoodHeader(h)
    ensures Parse(h) == Parsed([], h)
  {
    assert h[..HEADER_SIZE] == h;
  }

  lemma OneMore(ms: seq<Msg>, m: Msg)
    ensures Stream(ms + [m]) == Stream(ms) + Frame(m)
  {
    StreamAppend(ms, [m]);
    assert Stream([m]) == Frame(m) + Stream([]);
  }

  /** Bytes move from the pipe to the end of what was consumed. */
  lemma Collected(consumed: seq<byte>, taken: seq<byte>, n: nat, stream: seq<byte>, part: seq<byte>)
    requires n <= |taken| && consumed == stream + part
    ensures consumed + taken[..n] + taken[n..] == consumed + taken
    ensures consumed + taken[..n] == stream + (part + taken[..n])
  {
    Assoc(stream, part, taken[..n]);
  }
}
