/** Sender, byte stream and receiver together: what is delivered is what was queued. */
module Framing {
  import opened Wire
  import opened Receivers
  import opened Senders

  /** Whatever has been read, sent and queued, the messages delivered are the first ones that can be
      encoded of those queued, and the bytes kept begin the stream of the rest. */
  lemma DeliveredInOrder(pushed: seq<Msg>, encoded: seq<Msg>, queue: seq<Msg>, written: seq<byte>,
                         consumed: seq<byte>, wire: seq<byte>)
    requires Keep(pushed) == encoded + Keep(queue)
    requires written <= Stream(encoded) && consumed + wire == written
    ensures var p := Parse(consumed);
      p.msgs <= Keep(pushed) && p.rest <= Stream(Keep(pushed)[|p.msgs|..])
  {
    hide Stream, Keep, AllEncodable, Parse;
    ParseBack(consumed);
    StreamAppend(encoded, Keep(queue));
    KeepEncodable(pushed);
    StreamPrefix(Parse(consumed).msgs, Parse(consumed).rest, Keep(pushed));
  }

  /** Once nothing is queued, under way or on the wire, every message that can be encoded was
      delivered, once and in order. */
  lemma DeliveredAll(pushed: seq<Msg>, encoded: seq<Msg>)
    requires Keep(pushed) == encoded + Keep([])
    ensures Parse(Stream(encoded)) == Parsed(Keep(pushed), [])
  {
    hide Parse, Stream;
    KeepEncodable(pushed);
    assert encoded == Keep(pushed);
    assert Parse([]) == Parsed([], []) by { EmptyParse(); }
    ParseStream(encoded, []);
    assert Stream(encoded) + [] == Stream(encoded);
  }

  lemma EmptyParse()
    ensures Parse([]) == Parsed([], [])
  {
  }

  /** The receiver never meets a bad header, or one without payload, in bytes from the sender. */
  lemma HeadersGood(ms: seq<Msg>, h: seq<byte>)
    requires AllEncodable(ms) && h <= Stream(ms) && |h| == HEADER_SIZE
    ensures GoodHeader(h) && Value(h[12..]) > 0
  {
    hide HeaderBytes;
    assert Stream(ms) != [];
    var m := ms[0];
    assert Encodable(m);
    HeaderParts(m.id, |m.payload|);
    assert Frame(m)[..HEADER_SIZE] == HeaderBytes(m.id, |m.payload|);
    assert h == Stream(ms)[..HEADER_SIZE] == Frame(m)[..HEADER_SIZE];
  }

  /** So neither outcome of the receive loop that gives the stream up comes about. */
  lemma NeverRefused(s: Sender, r: Receiver, pipe: Pipe, status: Status)
    requires s.Cut() && r.consumed + pipe.bytes == s.written
    requires !status.BadHeader? ==> r.Valid() && Parse(r.consumed) == Parsed(r.delivered, r.Residue())
    requires status.BadHeader? ==> r.header.Ok() && Parse(r.consumed) == Parsed(r.delivered, r.header.Content())
    requires status.BadHeader? ==> |r.header.Content()| == HEADER_SIZE && !GoodHeader(r.header.Content())
    requires status.Aborted? ==> r.state.StartToRcvPayload? && r.len == 0
    ensures !status.BadHeader? && !status.Aborted?
  {
    hide Stream, Keep, Parse, GoodHeader, HeaderBytes;
    var kept := Keep(s.pushed);
    DeliveredInOrder(s.pushed, s.encoded, s.queue, s.written, r.consumed, pipe.bytes);
    KeepEncodable(s.pushed);
    if status.BadHeader? {
      HeadersGood(kept[|r.delivered|..], r.header.Content());
    } else if status.Aborted? {
      HeadersGood(kept[|r.delivered|..], r.Residue());
      HeaderParts(r.id, r.len);
    }
  }

  datatype Op = Push(m: Msg) | DoSend | DoRecv(breakWhenRecvOne: bool)

  /** One direction of a connection. Up says whether an end is still in service. */
  class Connection {
    const s: Sender
    const r: Receiver
    const pipe: Pipe
    var sendUp: bool
    var recvUp: bool

    ghost function SendSide(): (objs: set<object>)
      reads this, s
    {
      {s} + if s.sending == null then {} else {s.sending, s.sending.mem}
    }

    ghost function RecvSide(): (objs: set<object>)
      reads this, r
    {
      {r, r.header, r.header.mem} + if r.payload == null then {} else {r.payload, r.payload.mem}
    }

    ghost predicate Valid()
      reads this, pipe, SendSide(), RecvSide()
    {
      && SendSide() !! RecvSide()
      && s.Cut() && (sendUp ==> s.Valid())
      && r.Valid() && Parse(r.consumed).msgs == r.delivered
      && r.consumed + pipe.bytes == s.written
    }

    constructor (maxSize: nat)
      ensures Valid() && sendUp && recvUp && s.pushed == [] && s.queueMaxSize == maxSize
      ensures fresh(SendSide() + RecvSide() + {pipe})
    {
      hide Stream, Keep, AllEncodable, Parse;
      s := new Sender(maxSize);
      r := new Receiver();
      pipe := new Pipe();
      sendUp, recvUp := true, true;
      EmptyParse();
    }

    method Push(m: Msg) returns (ok: bool)
      requires Valid() && sendUp
      modifies s
      ensures Valid() && SendSide() == old(SendSide())
      ensures ok <==> s.queueMaxSize == 0 || |old(s.queue)| < s.queueMaxSize
      ensures s.pushed == old(s.pushed) + if ok then [m] else []
    {
      hide Stream, Keep, AllEncodable, Parse;
      ok := s.InsertMessage(m);
    }

    /** The worker sends; the end stays in service exactly as long as no write finds the connection closed or
        fails, and the queue is sent empty unless a write would block or a message cannot be encoded. */
    method Send() returns (sent: Sent)
      requires Valid() && sendUp
      modifies this`sendUp, SendSide(), pipe
      ensures Valid() && fresh(SendSide() - old(SendSide())) && s.pushed == old(s.pushed)
      ensures TracedSent(old(pipe.writeLog), pipe.writeLog, sent) && pipe.readLog == old(pipe.readLog)
      ensures sendUp <==> !sent.PeerClosed? && !sent.Failed?
      ensures sent.Idle? ==> s.queue == [] && s.sending == null
    {
      hide Stream, Keep, AllEncodable, Parse;
      hide Receiver.Valid, TracedSent, Encodable;
      sent := s.Send(pipe, r.consumed);
      assert RecvSide() == old(RecvSide()) && SendSide() !! RecvSide();
      sendUp := sent.Ok() || sent.Threw?;
    }

    /** The worker receives; the end stays in service exactly as long as no read finds the connection closed or
        fails. */
    method Recv(breakWhenRecvOne: bool) returns (status: Status)
      requires Valid() && recvUp
      modifies this`recvUp, RecvSide(), pipe
      ensures Valid() && fresh(RecvSide() - old(RecvSide())) && pipe.writeLog == old(pipe.writeLog)
      ensures |pipe.readLog| > |old(pipe.readLog)|
      ensures Traced(old(pipe.readLog), pipe.readLog, status, r.Stopped(status, breakWhenRecvOne))
      ensures recvUp <==> !status.Closed? && !status.Broken?
    {
      hide Stream, Keep, AllEncodable, Parse, GoodHeader, HeaderBytes, Sender.Valid, Sender.Cut;
      hide Receiver.Valid, Receiver.Residue, Traced;
      status := r.Recv(pipe, breakWhenRecvOne);
      NeverRefused(s, r, pipe, status);
      assert SendSide() == old(SendSide()) && SendSide() !! RecvSide();
      recvUp := status.Ok();
    }

    /** A caller queues a message, or the worker sends or receives, while that end is in service. */
    method Step(op: Op)
      requires Valid()
      modifies this`sendUp, this`recvUp, SendSide(), RecvSide(), pipe
      ensures Valid() && fresh(SendSide() - old(SendSide())) && fresh(RecvSide() - old(RecvSide()))
      ensures sendUp ==> old(sendUp)
      ensures sendUp && s.queueMaxSize == 0 ==> s.pushed == old(s.pushed) + if op.Push? then [op.m] else []
    {
      hide Valid;
      match op {
        case Push(m) =>
          if sendUp {
            var _ := Push(m);
          }
        case DoSend =>
          if sendUp {
            var _ := Send();
          }
        case DoRecv(one) =>
          if recvUp {
            var _ := Recv(one);
          }
      }
    }

    /** In every state: a prefix of the messages queued, and all of them once everything is through. */
    lemma Safe()
      requires Valid()
      ensures r.delivered <= Keep(s.pushed)
      ensures sendUp && s.queue == [] && s.sending == null && pipe.bytes == [] ==> r.delivered == Keep(s.pushed)
    {
      hide Stream, Keep, AllEncodable, Parse;
      DeliveredInOrder(s.pushed, s.encoded, s.queue, s.written, r.consumed, pipe.bytes);
      if sendUp && s.queue == [] && s.sending == null && pipe.bytes == [] {
        DeliveredAll(s.pushed, s.encoded);
        assert r.consumed == Stream(s.encoded);
      }
    }
  }

  function Pushes(ops: seq<Op>): (ms: seq<Msg>) {
    if ops == [] then []
    else Pushes(ops[..|ops| - 1]) + match ops[|ops| - 1] { case Push(m) => [m] case _ => [] }
  }

  /** Any run of one direction of a connection: queueing, sending and receiving in any order, every read
      and write as short as it may be. */
  method Run(ops: seq<Op>, maxSize: nat) returns (c: Connection)
    ensures c.r.delivered <= Keep(c.s.pushed)
    ensures c.sendUp && maxSize == 0 ==> c.s.pushed == Pushes(ops)
    ensures c.sendUp && c.s.queue == [] && c.s.sending == null && c.pipe.bytes == [] ==>
      c.r.delivered == Keep(c.s.pushed)
  {
    hide Connection.Valid, Keep;
    c := new Connection(maxSize);
    for i := 0 to |ops|
      invariant c.s.queueMaxSize == maxSize && (c.sendUp && maxSize == 0 ==> c.s.pushed == Pushes(ops[..i]))
      invariant c.Valid() && fresh(c) && fresh(c.SendSide() + c.RecvSide() + {c.pipe})
    {
      assert ops[..i + 1][..i] == ops[..i];
      c.Step(ops[i]);
    }
    assert ops[..|ops|] == ops;
    c.Safe();
  }
}
