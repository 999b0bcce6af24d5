/** The sending half of a connection: messages encoded, queued and written to the socket. */
module Senders {
  import opened Wire
  import opened Buffers
  import opened Receivers

  /** encode_header: the three fields at the head of the buffer, the cursor behind them. */
  method EncodeHeader(b: Buffer, id: u64, len: nat)
    requires b.Ok() && b.available && b.pos == 0 && b.last == b.mem.Length - 1
    requires HEADER_SIZE < b.mem.Length < 0x1_0000_0000
    modifies b, b.mem
    ensures b.Ok() && b.available && b.pos == HEADER_SIZE && b.last == b.mem.Length - 1
    ensures b.mem[..HEADER_SIZE] == HeaderBytes(id, len)
  {
    hide Bytes;
    WriteUInt(b.mem, b.pos, 4, MESSAGE_MAGIC_NO);
    assert b.mem[..4] == Bytes(MESSAGE_MAGIC_NO, 4);
    b.MoveHeadBack(4);
    WriteUInt(b.mem, b.pos, 8, id);
    assert b.mem[..4] == Bytes(MESSAGE_MAGIC_NO, 4) && b.mem[4..12] == Bytes(id, 8);
    b.MoveHeadBack(8);
    WriteUInt(b.mem, b.pos, 4, len);
    assert b.mem[..4] == Bytes(MESSAGE_MAGIC_NO, 4) && b.mem[4..12] == Bytes(id, 8);
    assert b.mem[12..16] == Bytes(len, 4);
    b.MoveHeadBack(4);
    assert b.mem[..16] == b.mem[..4] + b.mem[4..12] + b.mem[12..16];
  }

  /** Encode: the frame of the message as the content of a new buffer, or null where the source throws. */
  method Encode(m: Msg) returns (b: Buffer?)
    ensures b == null <==> !Encodable(m)
    ensures b != null ==> fresh(b) && fresh(b.mem) && b.Ok() && b.mem.Length < 0x1_0000_0000
    ensures b != null ==> b.Content() == Frame(m)
  {
    var size := |m.payload|;
    if size <= 0 || size > MAX_PAYLOAD_SIZE {
      return null;
    }
    b := new Buffer.Whole(HEADER_SIZE + size);
    EncodeHeader(b, m.id, size);
    var i := 0;
    while i < size
      modifies b.mem
      invariant 0 <= i <= size
      invariant b.mem[..HEADER_SIZE] == HeaderBytes(m.id, size)
      invariant b.mem[HEADER_SIZE..HEADER_SIZE + i] == m.payload[..i]
    {
      b.mem[b.pos + i] := m.payload[i];
      i := i + 1;
    }
    b.SetPos(0);
    assert b.mem[..] == b.mem[..HEADER_SIZE] + b.mem[HEADER_SIZE..];
  }

  /** The messages that can be encoded, in order. */
  function Keep(ms: seq<Msg>): (r: seq<Msg>) {
    if ms == [] then [] else (if Encodable(ms[0]) then [ms[0]] else []) + Keep(ms[1..])
  }

  lemma {:induction false} KeepAppend(a: seq<Msg>, b: seq<Msg>)
    ensures Keep(a + b) == Keep(a) + Keep(b)
  {
    hide Encodable;
    if a == [] {
      assert a + b == b;
    } else {
      KeepAppend(a[1..], b);
      assert (a + b)[1..] == a[1..] + b;
      MsgAssoc(if Encodable(a[0]) then [a[0]] else [], Keep(a[1..]), Keep(b));
    }
  }

  lemma MsgAssoc(x: seq<Msg>, y: seq<Msg>, z: seq<Msg>)
    ensures (x + y) + z == x + (y + z)
  {
  }

  lemma {:induction false} KeepEncodable(ms: seq<Msg>)
    ensures AllEncodable(Keep(ms))
  {
    if ms != [] {
      KeepEncodable(ms[1..]);
    }
  }

  lemma NextKept(queue: seq<Msg>, encoded: seq<Msg>)
    requires queue != [] && AllEncodable(encoded)
    ensures Encodable(queue[0]) ==>
      encoded + Keep(queue) == encoded + [queue[0]] + Keep(queue[1..]) && AllEncodable(encoded + [queue[0]])
    ensures !Encodable(queue[0]) ==> Keep(queue) == Keep(queue[1..])
  {
    MsgAssoc(encoded, [queue[0]], Keep(queue[1..]));
    assert [] + Keep(queue[1..]) == Keep(queue[1..]);
  }

  datatype Sent = Idle | Blocked | PeerClosed | Failed | Threw {
    predicate Ok() {
      Idle? || Blocked?
    }
  }

  /** What a status has to do with the answer to the last write. */
  ghost predicate ToldSent(r: Sent, a: Answer) {
    && (r.PeerClosed? <==> a.n == 0)
    && (r.Failed? <==> a.Fails())
    && (r.Blocked? <==> a.Blocks())
  }

  /** All answers of a call but the last were bytes, and its status is told by the last; without any, it is none
      of the socket's. */
  ghost predicate TracedSent(before: seq<Answer>, after: seq<Answer>, r: Sent) {
    && before <= after
    && (forall i | |before| <= i < |after| - 1 :: after[i].n > 0)
    && (if after == before then r.Idle? || r.Threw? else ToldSent(r, Last(after)))
  }

  /** Whether the socket is still good for writing. */
  lemma TracedGood(before: seq<Answer>, after: seq<Answer>, r: Sent)
    requires TracedSent(before, after, r)
    ensures before <= after
    ensures r.Ok() || r.Threw? <==> after == before || Last(after).n > 0 || Last(after).Blocks()
    ensures r.Blocked? ==> after != before && Last(after).Blocks()
  {
  }

  lemma TracedNothing(before: seq<Answer>)
    ensures TracedSent(before, before, Idle)
  {
  }

  lemma TracedWrite(before: seq<Answer>, mid: seq<Answer>, after: seq<Answer>, r: Sent)
    requires TracedSent(before, mid, Idle) && OneMoreThan(mid, after) && ToldSent(r, Last(after))
    ensures TracedSent(before, after, r)
  {
    assert forall i | 0 <= i < |mid| :: after[i] == mid[i];
  }

  lemma TracedPop(before: seq<Answer>, after: seq<Answer>, r: Sent)
    requires TracedSent(before, after, Idle) && (r.Idle? || r.Threw?)
    ensures TracedSent(before, after, r)
  {
  }

  class Sender {
    var queue: seq<Msg>
    const queueMaxSize: nat
    var sending: Buffer?
    ghost var pushed: seq<Msg>
    ghost var encoded: seq<Msg>
    ghost var written: seq<byte>

    ghost predicate Shape()
      reads this, sending
    {
      sending != null ==> sending.Ok() && sending.available && sending.mem.Length < 0x1_0000_0000
    }

    /** The bytes of the frame under way that are still to be written. */
    ghost function Pending(): (s: seq<byte>)
      requires Shape()
      reads this, sending, if sending == null then {} else {sending.mem}
    {
      if sending == null then [] else sending.Content()
    }

    ghost predicate Valid()
      reads this, sending, if sending == null then {} else {sending.mem}
    {
      && Shape()
      && written + Pending() == Stream(encoded)
      && AllEncodable(encoded)
      && Keep(pushed) == encoded + Keep(queue)
    }

    constructor (maxSize: nat)
      ensures Valid() && pushed == [] && written == [] && queue == [] && queueMaxSize == maxSize && sending == null
    {
      queueMaxSize := maxSize;
      queue, sending, pushed, encoded, written := [], null, [], [], [];
    }

    /** TryPush: refused exactly when a bounded queue is full. */
    method InsertMessage(m: Msg) returns (ok: bool)
      requires Valid()
      modifies this`queue, this`pushed
      ensures Valid()
      ensures ok <==> queueMaxSize == 0 || |old(queue)| < queueMaxSize
      ensures queue == old(queue) + (if ok then [m] else []) && pushed == old(pushed) + if ok then [m] else []
    {
      if queueMaxSize != 0 && |queue| >= queueMaxSize {
        assert queue + [] == queue && pushed + [] == pushed;
        return false;
      }
      hide Encodable, Stream, AllEncodable, Keep;
      KeepAppend(queue, [m]);
      KeepAppend(pushed, [m]);
      MsgAssoc(encoded, Keep(queue), Keep([m]));
      queue, pushed := queue + [m], pushed + [m];
      ok := true;
    }

    /** What is left of the invariant once a frame was given up. */
    ghost predicate Cut()
      reads this, sending
    {
      && Shape()
      && written <= Stream(encoded)
      && AllEncodable(encoded)
      && Keep(pushed) == encoded + Keep(queue)
    }

    /** The frame under way after some of its bytes were written; a frame written entirely is done. */
    method Advance(n: nat)
      requires Valid() && sending != null && 0 < n <= |Pending()|
      modifies this`sending, this`written, sending
      ensures Valid() && written == old(written) + old(Pending())[..n] && |Pending()| == |old(Pending())| - n
      ensures sending == null || sending == old(sending)
    {
      hide Stream, AllEncodable, Keep;
      ghost var pending := Pending();
      written := written + pending[..n];
      sending.MoveHeadBack(n);
      Assoc(old(written), pending[..n], pending[n..]);
      assert pending == pending[..n] + pending[n..];
      if sending.AvailableLength() <= 0 {
        sending := null;
      }
    }

    /** One write of the frame under way; taken is what the peer has read. */
    method WriteSome(pipe: Pipe, ghost taken: seq<byte>) returns (r: Sent)
      requires Valid() && sending != null && taken + pipe.bytes == written
      modifies this`sending, this`written, sending, pipe
      ensures Cut() && taken + pipe.bytes == written && old(written) <= written
      ensures r.Ok() ==> Valid()
      ensures !r.Threw? && (r.Blocked? ==> sending != null && written == old(written))
      ensures sending == null || sending == old(sending)
      ensures r.Idle? ==> |Pending()| < |old(Pending())|
      ensures r.PeerClosed? || r.Failed? ==> sending == null
      ensures OneMoreThan(old(pipe.writeLog), pipe.writeLog) && pipe.readLog == old(pipe.readLog)
      ensures ToldSent(r, Last(pipe.writeLog))
    {
      hide Stream, AllEncodable, Keep;
      ghost var pending := Pending();
      var n, again := pipe.Write(sending.mem, sending.pos, sending.AvailableLength());
      if n > 0 {
        Assoc(taken, old(pipe.bytes), pending[..n]);
        Advance(n);
        r := Idle;
      } else if n < 0 && again {
        r := Blocked;
      } else {
        sending := null;
        r := if n == 0 then PeerClosed else Failed;
      }
    }

    /** Takes the next message off the queue and encodes it; an oversized or empty one is gone. */
    method PopNext() returns (r: Sent)
      requires Valid() && sending == null && queue != []
      modifies this
      ensures Valid() && pushed == old(pushed) && written == old(written) && queue == old(queue)[1..]
      ensures r == if Encodable(old(queue)[0]) then Idle else Threw
      ensures r.Threw? ==> encoded == old(encoded)
      ensures r.Idle? ==> encoded == old(encoded) + [old(queue)[0]]
      ensures sending != null ==> fresh(sending) && fresh(sending.mem)
    {
      hide Stream, Encodable, Frame, Keep, AllEncodable;
      var m := queue[0];
      NextKept(queue, encoded);
      queue := queue[1..];
      sending := Encode(m);
      if sending == null {
        r := Threw;
      } else {
        OneMore(encoded, m);
        assert written + [] == written;
        encoded := encoded + [m];
        r := Idle;
      }
    }

    /** The send loop: bytes reach the pipe in the order of the queue, frame after frame, through any
        pattern of short writes; it is idle only with everything written. What it answers is what the socket
        answered last, unless a message could not be encoded. */
    method Send(pipe: Pipe, ghost taken: seq<byte>) returns (r: Sent)
      requires Valid() && taken + pipe.bytes == written
      modifies this, sending, pipe
      ensures Cut() && (r.Ok() || r.Threw? ==> Valid())
      ensures pushed == old(pushed) && taken + pipe.bytes == written && old(written) <= written
      ensures old(encoded) <= encoded
      ensures |queue| <= |old(queue)| && queue == old(queue)[|old(queue)| - |queue|..]
      ensures r.Idle? ==> queue == [] && sending == null
      ensures r.Blocked? ==> sending != null
      ensures r.Threw? ==> |queue| < |old(queue)| && !Encodable(old(queue)[|old(queue)| - |queue| - 1])
      ensures sending == null || sending == old(sending) || fresh(sending)
      ensures sending == null || sending == old(sending) || fresh(sending.mem)
      ensures r.PeerClosed? || r.Failed? ==> sending == null
      ensures TracedSent(old(pipe.writeLog), pipe.writeLog, r) && pipe.readLog == old(pipe.readLog)
    {
      hide Stream, AllEncodable, Keep, Encodable, TracedSent, ToldSent, OneMoreThan;
      TracedNothing(pipe.writeLog);
      r := Idle;
      ghost var popped := 0;
      while sending != null || queue != []
        invariant Valid() && r.Idle?
        invariant pushed == old(pushed) && taken + pipe.bytes == written && old(written) <= written
        invariant old(encoded) <= encoded
        invariant popped == |old(queue)| - |queue| >= 0 && queue == old(queue)[popped..]
        invariant sending == null || sending == old(sending) || fresh(sending)
        invariant sending == null || sending == old(sending) || fresh(sending.mem)
        invariant TracedSent(old(pipe.writeLog), pipe.writeLog, Idle) && pipe.readLog == old(pipe.readLog)
        decreases |queue|, |Pending()|
      {
        if sending != null {
          ghost var log := pipe.writeLog;
          r := WriteSome(pipe, taken);
          TracedWrite(old(pipe.writeLog), log, pipe.writeLog, r);
        } else {
          assert queue[0] == old(queue)[popped];
          r := PopNext();
          TracedPop(old(pipe.writeLog), pipe.writeLog, r);
          popped := popped + 1;
        }
        if !r.Idle? {
          return;
        }
      }
    }
  }
}
