/** The connection handshake between nodes that may all dial each other, as a transition system. */
module Handshake {
  import opened Options
  import opened Manager

  type Node = nat
  datatype Side = Ini | Acc
  datatype Wire = Request | OkMsg | ErrorMsg | Data

  datatype IniState = IConnecting | ConnectSe | WaitLastACK | IConnected | IFailed | IClosed
  datatype AccState = AConnecting | ConnectingRe | AConnected | AFailed | AClosed

  /** A connection: both ends, all each end has sent and how much of it the other has received, and
      whether the acceptor's node has had it registered. */
  datatype Conn = Conn(ini: Node, acc: Node, i: IniState, a: AccState,
                       sentI: seq<Wire>, gotI: nat, sentA: seq<Wire>, gotA: nat, enrolled: bool)

  datatype Net = Net(conns: map<nat, Conn>, reg: map<Node, Registry<(nat, Side)>>)

  function RegOf(net: Net, n: Node): (r: Registry<(nat, Side)>) {
    if n in net.reg then net.reg[n] else map[]
  }

  /** The handler of one end, filed at its own node. Logical endpoints are canonical: the one an
      acceptor is told is the one others dial. */
  function HandlerOf(c: nat, conn: Conn, side: Side): (h: Handler<(nat, Side)>) {
    match side
    case Ini => Handler((c, Ini), Endpoint(conn.acc), Endpoint(conn.acc))
    case Acc => Handler((c, Acc), Endpoint(conn.ini), Ephemeral(c))
  }

  function Home(conn: Conn, side: Side): (n: Node) {
    if side.Ini? then conn.ini else conn.acc
  }

  /** What can happen. Sent says whether a message could be sent, nb whether the socket could be made
      non-blocking afterwards; where not, the end's handler is deleted. An end that is Connected sends and
      receives the messages of the application. */
  datatype Event =
    | Dial(c: nat, x: Node, y: Node)
    | IniStart(c: nat, sent: bool)
    | AccRequest(c: nat, sent: bool)
    | IniReply(c: nat, sent: bool)
    | AccFinal(c: nat, sent: bool, nb: bool)
    | IniFinal(c: nat, nb: bool)
    | Send(c: nat, side: Side)
    | Receive(c: nat, side: Side)
    | Drop(c: nat, side: Side)
    | End(c: nat, side: Side)
    | Cut(x: Node, p: Peer)

  /** Whether an end may take a step now: it is in the right state and, to receive, there is a message. */
  predicate Ready(k: Conn, ev: Event) {
    match ev
    case IniStart(_, _) => k.i.IConnecting?
    case AccRequest(_, _) => k.a.AConnecting? && k.gotI < |k.sentI|
    case IniReply(_, _) => k.i.ConnectSe? && k.gotA < |k.sentA|
    case AccFinal(_, _, _) => k.a.ConnectingRe? && k.gotI < |k.sentI|
    case IniFinal(_, _) => k.i.WaitLastACK? && k.gotA < |k.sentA|
    case Send(_, Ini) => k.i.IConnected?
    case Send(_, Acc) => k.a.AConnected?
    case Receive(_, Ini) => k.i.IConnected? && k.gotA < |k.sentA|
    case Receive(_, Acc) => k.a.AConnected? && k.gotI < |k.sentI|
    case Drop(_, Ini) => k.i.ConnectSe? || k.i.WaitLastACK?
    case Drop(_, Acc) => k.a.AConnecting? || k.a.ConnectingRe?
    case End(_, Ini) => k.i.IConnected?
    case End(_, Acc) => k.a.AConnected?
    case _ => false
  }

  /** What a step does to the connection; free says that the end's node has no handler for its peer. */
  function Next(k: Conn, ev: Event, free: bool): (r: Conn)
    requires Ready(k, ev)
  {
    match ev
    case IniStart(_, sent) =>
      if sent then k.(i := ConnectSe, sentI := k.sentI + [Request]) else k.(i := IFailed)
    case AccRequest(_, sent) =>
      if k.sentI[k.gotI] != Request then
        k.(a := AFailed, gotI := k.gotI + 1, sentA := if sent then k.sentA + [ErrorMsg] else k.sentA)
      else if sent then k.(a := ConnectingRe, gotI := k.gotI + 1, sentA := k.sentA + [OkMsg])
      else k.(a := AFailed, gotI := k.gotI + 1)
    case IniReply(_, sent) =>
      if k.sentA[k.gotA] != OkMsg || !sent then k.(i := IFailed, gotA := k.gotA + 1)
      else k.(i := WaitLastACK, gotA := k.gotA + 1, sentI := k.sentI + [OkMsg])
    case AccFinal(_, sent, nb) =>
      k.(a := if free && sent && nb then AConnected else AFailed, gotI := k.gotI + 1,
         sentA := if sent then k.sentA + [if free then OkMsg else ErrorMsg] else k.sentA,
         enrolled := k.enrolled || free)
    case IniFinal(_, nb) =>
      k.(i := if k.sentA[k.gotA] == OkMsg && free && nb then IConnected else IFailed, gotA := k.gotA + 1)
    case Send(_, Ini) => k.(sentI := k.sentI + [Data])
    case Send(_, Acc) => k.(sentA := k.sentA + [Data])
    case Receive(_, Ini) => k.(gotA := k.gotA + 1)
    case Receive(_, Acc) => k.(gotI := k.gotI + 1)
    case Drop(_, Ini) => k.(i := IFailed)
    case Drop(_, Acc) => k.(a := AFailed)
    case End(_, Ini) => k.(i := IClosed)
    case End(_, Acc) => k.(a := AClosed)
  }

  predicate Enabled(net: Net, ev: Event) {
    match ev
    case Dial(c, _, _) => c !in net.conns
    case Cut(_, _) => true
    case _ => ev.c in net.conns && Ready(net.conns[ev.c], ev)
  }

  /** Whether the node of an end would register its handler. */
  predicate Free(net: Net, c: nat, side: Side)
    requires c in net.conns
  {
    HandlerOf(c, net.conns[c], side).logicPeer !in RegOf(net, Home(net.conns[c], side))
  }

  function After(net: Net, ev: Event): (conn: Conn)
    requires Enabled(net, ev) && !ev.Cut?
  {
    if ev.Dial? then Conn(ev.x, ev.y, IConnecting, AConnecting, [], 0, [], 0, false)
    else Next(net.conns[ev.c], ev, Free(net, ev.c, if ev.AccFinal? then Acc else Ini))
  }

  /** What a step asks of the manager of a node. */
  ghost function Asks(net: Net, ev: Event): (r: Option<(Node, Op<(nat, Side)>)>)
    requires Enabled(net, ev)
  {
    match ev
    case AccFinal(c, _, _) => Some((net.conns[c].acc, Put(HandlerOf(c, net.conns[c], Acc))))
    case IniFinal(c, _) =>
      var k := net.conns[c];
      if k.sentA[k.gotA] == OkMsg then Some((k.ini, Put(HandlerOf(c, k, Ini)))) else None
    case End(c, side) => Some((Home(net.conns[c], side), Finish(HandlerOf(c, net.conns[c], side))))
    case Cut(x, p) => Some((x, Disconnect(p)))
    case _ => None
  }

  ghost function Step(net: Net, ev: Event): (r: Net) {
    if !Enabled(net, ev) then net
    else
      var conns := if ev.Cut? then net.conns else net.conns[ev.c := After(net, ev)];
      match Asks(net, ev)
      case None => Net(conns, net.reg)
      case Some((n, op)) => Net(conns, net.reg[n := Apply(RegOf(net, n), op)])
  }

  ghost function Run(net: Net, evs: seq<Event>): (r: Net) {
    if evs == [] then net else Step(Run(net, evs[..|evs| - 1]), evs[|evs| - 1])
  }

  const START := Net(map[], map[])

  // ----- what every step keeps, one connection at a time

  /** The initiator sends its request, its answer and then data; the acceptor sends OK, its verdict and then
      data. Each message of the handshake answers the one before, the verdict is OK only after the
      connection was registered, otherwise an error, and no data comes before it. */
  ghost predicate ConnInv(k: Conn) {
    && k.gotI <= |k.sentI| && k.gotA <= |k.sentA|
    && (|k.sentA| > 0 ==> k.gotI > 0) && (|k.sentA| > 1 ==> k.gotI > 1) && (|k.sentI| > 1 ==> k.gotA > 0)
    && (|k.sentI| > 0 ==> k.sentI[0] == Request) && (|k.sentI| > 1 ==> k.sentI[1] == OkMsg)
    && (|k.sentA| > 0 ==> k.sentA[0] == OkMsg) && (|k.sentA| > 1 ==> k.sentA[1] != Data)
    && (|k.sentA| > 1 ==> (k.sentA[1] == OkMsg <==> k.enrolled))
    && (k.enrolled ==> k.gotI > 1)
    && (forall j | 2 <= j < |k.sentI| :: k.sentI[j] == Data)
    && (forall j | 2 <= j < |k.sentA| :: k.sentA[j] == Data)
    && (match k.i
        case IConnecting => |k.sentI| == 0
        case ConnectSe => |k.sentI| == 1 && k.gotA == 0
        case WaitLastACK => |k.sentI| == 2 && k.gotA == 1
        case IConnected => |k.sentI| >= 2 && k.gotA >= 2 && k.sentA[1] == OkMsg
        case IClosed => k.enrolled
        case IFailed => true)
    && (match k.a
        case AConnecting => k.gotI == 0 && |k.sentA| == 0
        case ConnectingRe => k.gotI == 1 && |k.sentA| == 1
        case AConnected => k.gotI >= 2 && |k.sentA| >= 2 && k.sentA[1] == OkMsg
        case AClosed => k.enrolled
        case AFailed => true)
  }

  ghost predicate AllConns(net: Net) {
    forall c | c in net.conns :: ConnInv(net.conns[c])
  }

  lemma NextIni(k: Conn, ev: Event, free: bool)
    requires ConnInv(k) && Ready(k, ev) && (ev.IniStart? || ev.IniReply? || ev.IniFinal?)
    ensures ConnInv(Next(k, ev, free))
  {
  }

  lemma NextAcc(k: Conn, ev: Event, free: bool)
    requires ConnInv(k) && Ready(k, ev) && (ev.AccRequest? || ev.AccFinal?)
    ensures ConnInv(Next(k, ev, free))
  {
  }

  lemma NextInv(k: Conn, ev: Event, free: bool)
    requires ConnInv(k) && Ready(k, ev)
    ensures ConnInv(Next(k, ev, free))
  {
    if ev.IniStart? || ev.IniReply? || ev.IniFinal? {
      NextIni(k, ev, free);
    } else if ev.AccRequest? || ev.AccFinal? {
      NextAcc(k, ev, free);
    }
  }

  lemma DialInv(x: Node, y: Node)
    ensures ConnInv(Conn(x, y, IConnecting, AConnecting, [], 0, [], 0, false))
  {
  }

  lemma {:induction false} RunConns(evs: seq<Event>)
    ensures AllConns(Run(START, evs))
  {
    hide ConnInv, Next, Ready, Free;
    if evs != [] {
      var net, ev := Run(START, evs[..|evs| - 1]), evs[|evs| - 1];
      RunConns(evs[..|evs| - 1]);
      if ev.Dial? {
        DialInv(ev.x, ev.y);
      } else if Enabled(net, ev) && !ev.Cut? {
        assert ConnInv(net.conns[ev.c]);
        NextInv(net.conns[ev.c], ev, Free(net, ev.c, if ev.AccFinal? then Acc else Ini));
      }
    }
  }

  // ----- what holds in every run

  /** An initiator becomes Connected only after the acceptor's node had registered the same connection,
      and only after the acceptor sent its second OK, which is what it waited for. */
  lemma InitiatorLast(evs: seq<Event>, c: nat, nb: bool)
    requires var net := Run(START, evs); c in net.conns && !net.conns[c].i.IConnected?
    requires var after := Step(Run(START, evs), IniFinal(c, nb)); after.conns[c].i.IConnected?
    ensures var k := Run(START, evs).conns[c]; k.enrolled && k.sentI == [Request, OkMsg] && [OkMsg, OkMsg] <= k.sentA
  {
    hide Run;
    RunConns(evs);
    assert ConnInv(Run(START, evs).conns[c]);
  }

  /** An end that is or was Connected has had the connection registered at the acceptor. */
  lemma ConnectedEnrolled(evs: seq<Event>, c: nat)
    requires c in Run(START, evs).conns
    ensures var k := Run(START, evs).conns[c];
      k.i.IConnected? || k.i.IClosed? || k.a.AConnected? || k.a.AClosed? ==> k.enrolled
  {
    RunConns(evs);
    assert ConnInv(Run(START, evs).conns[c]);
  }

  /** The branches for a corrupt request, a refused request, and a message in an unexpected state are
      never entered, and no message of the application is taken for one of the handshake or the other way
      round: an end in its handshake gets the right message, one that is Connected gets only data. */
  lemma ExpectedMessages(evs: seq<Event>, c: nat)
    requires c in Run(START, evs).conns
    ensures var k := Run(START, evs).conns[c];
      && (k.gotI < |k.sentI| ==>
            && (k.a.AConnecting? ==> k.sentI[k.gotI] == Request)
            && (k.a.ConnectingRe? ==> k.sentI[k.gotI] == OkMsg)
            && (k.a.AConnected? ==> k.sentI[k.gotI] == Data))
      && (k.gotA < |k.sentA| ==>
            && !k.i.IConnecting?
            && (k.i.ConnectSe? ==> k.sentA[k.gotA] == OkMsg)
            && (k.i.WaitLastACK? ==> k.sentA[k.gotA] != Data)
            && (k.i.IConnected? ==> k.sentA[k.gotA] == Data))
  {
    RunConns(evs);
    assert ConnInv(Run(START, evs).conns[c]);
  }

  /** In every run the last step of an acceptor that can send has the acceptor send exactly one verdict, its
      second message: OK if its node had no handler for the peer, which it then registers, otherwise an error. */
  lemma Verdict(evs: seq<Event>, c: nat, sent: bool, nb: bool)
    requires Enabled(Run(START, evs), AccFinal(c, sent, nb))
    ensures var net := Run(START, evs); var after := Step(net, AccFinal(c, sent, nb));
      && after.conns[c].sentA == [OkMsg] + (if !sent then [] else if Free(net, c, Acc) then [OkMsg] else [ErrorMsg])
      && (after.conns[c].enrolled <==> Free(net, c, Acc))
  {
    hide Run;
    RunConns(evs);
    assert ConnInv(Run(START, evs).conns[c]);
  }

  /** A step of the handshake fails its end exactly when the message it got is not the one awaited, when its own
      cannot be sent, when its node has a handler for the peer already, or when the socket cannot be set. */
  lemma FailsExactly(k: Conn, ev: Event, free: bool)
    requires Ready(k, ev)
    ensures ev.IniStart? ==> (Next(k, ev, free).i.IFailed? <==> !ev.sent)
    ensures ev.AccRequest? ==> (Next(k, ev, free).a.AFailed? <==> k.sentI[k.gotI] != Request || !ev.sent)
    ensures ev.IniReply? ==> (Next(k, ev, free).i.IFailed? <==> k.sentA[k.gotA] != OkMsg || !ev.sent)
    ensures ev.AccFinal? ==> (Next(k, ev, free).a.AFailed? <==> !free || !ev.sent || !ev.nb)
    ensures ev.IniFinal? ==> (Next(k, ev, free).i.IFailed? <==> k.sentA[k.gotA] != OkMsg || !free || !ev.nb)
    ensures ev.Drop? ==> if ev.side.Ini? then Next(k, ev, free).i.IFailed? else Next(k, ev, free).a.AFailed?
  {
  }

  /** What is sent arrives once and in order: a step takes at most the next message, and sends at most one behind
      all others. */
  lemma OneAtATime(k: Conn, ev: Event, free: bool)
    requires Ready(k, ev)
    ensures var r := Next(k, ev, free);
      && k.sentI <= r.sentI && k.sentA <= r.sentA && |r.sentI| + |r.sentA| <= |k.sentI| + |k.sentA| + 1
      && (r.gotI == k.gotI + if ev.AccRequest? || ev.AccFinal? || (ev.Receive? && ev.side.Acc?) then 1 else 0)
      && (r.gotA == k.gotA + if ev.IniReply? || ev.IniFinal? || (ev.Receive? && ev.side.Ini?) then 1 else 0)
      && (ev.AccRequest? && ev.sent ==>
            r.sentA == k.sentA + [if k.sentI[k.gotI] == Request then OkMsg else ErrorMsg])
      && (ev.AccRequest? && !ev.sent ==> r.sentA == k.sentA)
      && (ev.Send? && ev.side.Ini? ==> r.sentI == k.sentI + [Data])
      && (ev.Send? && ev.side.Acc? ==> r.sentA == k.sentA + [Data])
  {
  }

  /** The states an end may go to from one. */
  predicate IniForward(from: IniState, to: IniState) {
    match from
    case IConnecting => to.ConnectSe? || to.IFailed?
    case ConnectSe => to.WaitLastACK? || to.IFailed?
    case WaitLastACK => to.IConnected? || to.IFailed?
    case IConnected => to.IClosed?
    case _ => false
  }

  predicate AccForward(from: AccState, to: AccState) {
    match from
    case AConnecting => to.ConnectingRe? || to.AFailed?
    case ConnectingRe => to.AConnected? || to.AFailed?
    case AConnected => to.AClosed?
    case _ => false
  }

  /** A step moves at most one end, and that forward: so an end that is Connected never fails, it is closed, and
      one that has failed or was closed stays so. */
  lemma StatesForward(k: Conn, ev: Event, free: bool)
    requires Ready(k, ev)
    ensures var r := Next(k, ev, free);
      && (r.i == k.i || (IniForward(k.i, r.i) && r.a == k.a)) && (r.a == k.a || (AccForward(k.a, r.a) && r.i == k.i))
      && (r.i == k.i && r.a == k.a <==> ev.Send? || ev.Receive?)
  {
  }

  predicate Over(k: Conn) {
    (k.i.IFailed? || k.i.IClosed?) && (k.a.AFailed? || k.a.AClosed?)
  }

  /** How the initiator's end can be brought to an end, whatever its state. */
  function IniEnds(c: nat, k: Conn): (evs: seq<Event>) {
    match k.i
    case IConnecting => [IniStart(c, false)]
    case ConnectSe => [Drop(c, Ini)]
    case WaitLastACK => [Drop(c, Ini)]
    case IConnected => [End(c, Ini)]
    case _ => []
  }

  function AccEnds(c: nat, k: Conn): (evs: seq<Event>) {
    match k.a
    case AConnecting => [Drop(c, Acc)]
    case ConnectingRe => [Drop(c, Acc)]
    case AConnected => [End(c, Acc)]
    case _ => []
  }

  /** No connection is stuck: from every state, one step of each end at most brings it to its end. */
  lemma CanBeOver(net: Net, c: nat)
    requires c in net.conns
    ensures var k := net.conns[c]; var evs := IniEnds(c, k) + AccEnds(c, k);
      c in Run(net, evs).conns && Over(Run(net, evs).conns[c])
  {
    hide Ready, Next, Step, IniEnds, AccEnds;
    var k := net.conns[c];
    var a, b := IniEnds(c, k), AccEnds(c, k);
    IniEnded(net, c);
    RunShort(net, a);
    var mid := Run(net, a);
    assert AccEnds(c, mid.conns[c]) == b by { SameAcc(c, mid.conns[c], k); }
    AccEnded(mid, c);
    if b == [] {
      assert a + b == a;
    } else {
      assert (a + b)[..|a + b| - 1] == a && (a + b)[|a + b| - 1] == b[0];
      assert Run(net, a + b) == Step(mid, b[0]);
    }
  }

  lemma IniEnded(net: Net, c: nat)
    requires c in net.conns
    ensures var evs := IniEnds(c, net.conns[c]); var r := if evs == [] then net else Step(net, evs[0]);
      && |evs| <= 1 && c in r.conns && r.conns[c].a == net.conns[c].a
      && (r.conns[c].i.IFailed? || r.conns[c].i.IClosed?)
  {
  }

  lemma AccEnded(net: Net, c: nat)
    requires c in net.conns
    ensures var evs := AccEnds(c, net.conns[c]); var r := if evs == [] then net else Step(net, evs[0]);
      && |evs| <= 1 && c in r.conns && r.conns[c].i == net.conns[c].i
      && (r.conns[c].a.AFailed? || r.conns[c].a.AClosed?)
  {
  }

  lemma SameAcc(c: nat, k: Conn, j: Conn)
    requires k.a == j.a
    ensures AccEnds(c, k) == AccEnds(c, j)
  {
  }

  lemma RunShort(net: Net, evs: seq<Event>)
    requires |evs| <= 1
    ensures Run(net, evs) == if evs == [] then net else Step(net, evs[0])
  {
    if evs != [] {
      assert evs[..0] == [];
    }
  }

  /** Whatever a Connected end sends arrives at a Connected peer that has taken all before it. */
  lemma DataArrives(net: Net, c: nat, side: Side)
    requires c in net.conns && net.conns[c].i.IConnected? && net.conns[c].a.AConnected?
    requires net.conns[c].gotI == |net.conns[c].sentI| && net.conns[c].gotA == |net.conns[c].sentA|
    ensures var k := net.conns[c];
      var r := Step(Step(net, Send(c, side)), Receive(c, if side.Ini? then Acc else Ini));
      && r.reg == net.reg
      && r.conns == net.conns[c := if side.Ini? then k.(sentI := k.sentI + [Data], gotI := |k.sentI| + 1)
                                   else k.(sentA := k.sentA + [Data], gotA := |k.sentA| + 1)]
  {
  }

  // ----- the registries

  /** A step changes the registry of one node at most: a last step files the end if its peer has none there, the
      end of a Connected one takes off what is filed for both its endpoints, and a disconnect what is filed for
      the peer. */
  lemma RegistryStep(net: Net, ev: Event, n: Node)
    requires ev.Cut? || Enabled(net, ev)
    ensures var was, now := RegOf(net, n), RegOf(Step(net, ev), n);
      match ev
      case AccFinal(c, _, _) =>
        now == if n == net.conns[c].acc && Endpoint(net.conns[c].ini) !in was
              then was[Endpoint(net.conns[c].ini) := Handler((c, Acc), Endpoint(net.conns[c].ini), Ephemeral(c))]
              else was
      case IniFinal(c, _) =>
        var k := net.conns[c];
        now == if n == k.ini && k.sentA[k.gotA] == OkMsg && Endpoint(k.acc) !in was
              then was[Endpoint(k.acc) := Handler((c, Ini), Endpoint(k.acc), Endpoint(k.acc))] else was
      case End(c, Ini) =>
        var k := net.conns[c];
        now == if n == k.ini && Endpoint(k.acc) in was && was[Endpoint(k.acc)].realPeer == Endpoint(k.acc)
              then was - {Endpoint(k.acc)} else was
      case End(c, Acc) =>
        var k := net.conns[c];
        now == if n == k.acc && Endpoint(k.ini) in was && was[Endpoint(k.ini)].realPeer == Ephemeral(c)
              then was - {Endpoint(k.ini)} else was
      case Cut(x, p) => now == if n == x then was - {p} else was
      case _ => now == was
  {
    hide Next, Ready;
  }

  ghost predicate Up(conn: Conn, side: Side) {
    if side.Ini? then conn.i.IConnected? else conn.a.AConnected?
  }

  /** A handler filed at a node belongs to an end of a connection of that node. */
  ghost predicate Owned(net: Net, n: Node, p: Peer, h: Handler<(nat, Side)>, live: bool) {
    var c, side := h.ptr.0, h.ptr.1;
    && c in net.conns && h == HandlerOf(c, net.conns[c], side) && Home(net.conns[c], side) == n
    && h.logicPeer == p && net.conns[c].enrolled
    && (live ==> Up(net.conns[c], side))
  }

  ghost predicate RegInv(net: Net, live: bool) {
    forall n, p | p in RegOf(net, n) :: Owned(net, n, p, RegOf(net, n)[p], live)
  }

  /** Nothing goes wrong once an end has registered: the last message can be sent and the socket set. */
  ghost predicate Sound(ev: Event) {
    (ev.AccFinal? ==> ev.sent && ev.nb) && (ev.IniFinal? ==> ev.nb)
  }

  lemma NextFrame(k: Conn, ev: Event, free: bool, side: Side)
    requires Ready(k, ev)
    ensures var r := Next(k, ev, free);
      && r.ini == k.ini && r.acc == k.acc && (k.enrolled ==> r.enrolled)
      && (Up(k, side) && !(ev.End? && ev.side == side) ==> Up(r, side))
  {
  }

  /** A filed handler that a step leaves on file is still that of an end of the node. */
  lemma KeptEntry(net: Net, ev: Event, n: Node, p: Peer, h: Handler<(nat, Side)>, live: bool)
    requires Enabled(net, ev) && Owned(net, n, p, h, live)
    requires ev.End? ==> h.ptr != (ev.c, ev.side)
    ensures Owned(Step(net, ev), n, p, h, live)
  {
    hide Next, Ready, Free, Asks;
    if !ev.Cut? && !ev.Dial? && ev.c == h.ptr.0 {
      NextFrame(net.conns[ev.c], ev, Free(net, ev.c, if ev.AccFinal? then Acc else Ini), h.ptr.1);
    }
  }

  /** The end of a connection takes its own handler off. */
  lemma EndTakesOff(net: Net, ev: Event, n: Node, p: Peer, live: bool)
    requires RegInv(net, live) && Enabled(net, ev) && ev.End? && p in RegOf(Step(net, ev), n)
    ensures p in RegOf(net, n) && RegOf(Step(net, ev), n)[p] == RegOf(net, n)[p]
    ensures RegOf(net, n)[p].ptr != (ev.c, ev.side)
  {
    hide Next, Ready;
    assert Owned(net, n, p, RegOf(net, n)[p], live);
  }

  /** Only the two last steps of the handshake file a handler. */
  lemma NewEntry(net: Net, ev: Event, n: Node, p: Peer, live: bool)
    requires AllConns(net) && Enabled(net, ev) && (live ==> Sound(ev)) && !ev.End?
    requires p in RegOf(Step(net, ev), n)
    ensures (p in RegOf(net, n) && RegOf(Step(net, ev), n)[p] == RegOf(net, n)[p])
      || Owned(Step(net, ev), n, p, RegOf(Step(net, ev), n)[p], live)
  {
    if ev.IniFinal? || ev.AccFinal? {
      assert ConnInv(net.conns[ev.c]);
    } else {
      hide Next, Ready;
    }
  }

  lemma StepReg(net: Net, ev: Event, live: bool)
    requires AllConns(net) && RegInv(net, live) && Enabled(net, ev) && (live ==> Sound(ev))
    ensures RegInv(Step(net, ev), live)
  {
    hide Next, Ready, Step, Owned, Sound, ConnInv, Enabled;
    var after := Step(net, ev);
    forall n, p | p in RegOf(after, n)
      ensures Owned(after, n, p, RegOf(after, n)[p], live)
    {
      if ev.End? {
        EndTakesOff(net, ev, n, p, live);
        KeptEntry(net, ev, n, p, RegOf(net, n)[p], live);
      } else {
        NewEntry(net, ev, n, p, live);
        if p in RegOf(net, n) && RegOf(after, n)[p] == RegOf(net, n)[p] {
          KeptEntry(net, ev, n, p, RegOf(net, n)[p], live);
        }
      }
    }
  }

  lemma {:induction false} RunReg(evs: seq<Event>, live: bool)
    requires live ==> forall ev | ev in evs :: Sound(ev)
    ensures RegInv(Run(START, evs), live)
  {
    hide Step, Owned, Sound, ConnInv, Next, Ready;
    if evs != [] {
      var net, ev := Run(START, evs[..|evs| - 1]), evs[|evs| - 1];
      RunReg(evs[..|evs| - 1], live);
      RunConns(evs[..|evs| - 1]);
      if Enabled(net, ev) {
        StepReg(net, ev, live);
      } else {
        Stutter(net, ev);
      }
    }
  }

  lemma Stutter(net: Net, ev: Event)
    requires !Enabled(net, ev)
    ensures Step(net, ev) == net
  {
  }

  // ----- the registries are those of the managers

  /** What a run asks of the manager of a node, in order. */
  ghost function OpsOf(evs: seq<Event>, n: Node): (ops: seq<Op<(nat, Side)>>) {
    if evs == [] then []
    else
      var net, ev := Run(START, evs[..|evs| - 1]), evs[|evs| - 1];
      OpsOf(evs[..|evs| - 1], n)
      + if Enabled(net, ev) && Asks(net, ev).Some? && Asks(net, ev).value.0 == n then [Asks(net, ev).value.1] else []
  }

  lemma {:induction false} OpsMakeReg(evs: seq<Event>, n: Node)
    ensures RegOf(Run(START, evs), n) == Manager.Run(map[], OpsOf(evs, n))
  {
    hide Asks, Enabled, After, Apply;
    if evs != [] {
      var before, ev := evs[..|evs| - 1], evs[|evs| - 1];
      var net := Run(START, before);
      OpsMakeReg(before, n);
      if Enabled(net, ev) && Asks(net, ev).Some? && Asks(net, ev).value.0 == n {
        DoAllSteps(Empty(), OpsOf(before, n), Asks(net, ev).value.1);
      } else {
        assert OpsOf(evs, n) == OpsOf(before, n);
      }
    }
  }

  /** A handler is that of an end of a connection there is. */
  ghost predicate OfConn(net: Net, h: Handler<(nat, Side)>) {
    h.ptr.0 in net.conns && h == HandlerOf(h.ptr.0, net.conns[h.ptr.0], h.ptr.1)
  }

  lemma StepOfConn(net: Net, ev: Event, h: Handler<(nat, Side)>)
    requires OfConn(net, h)
    ensures OfConn(Step(net, ev), h)
  {
    hide Next, Ready, Free, Asks;
    if Enabled(net, ev) && !ev.Cut? && !ev.Dial? && ev.c == h.ptr.0 {
      NextFrame(net.conns[ev.c], ev, Free(net, ev.c, if ev.AccFinal? then Acc else Ini), h.ptr.1);
    }
  }

  lemma AsksOfConn(net: Net, ev: Event, h: Handler<(nat, Side)>)
    requires Enabled(net, ev) && Asks(net, ev).Some? && About(Asks(net, ev).value.1, h)
    ensures OfConn(net, h)
  {
    hide Next, Ready, Free;
  }

  lemma {:induction false} OpsOfConns(evs: seq<Event>, n: Node)
    ensures forall i, h | 0 <= i < |OpsOf(evs, n)| && About(OpsOf(evs, n)[i], h) :: OfConn(Run(START, evs), h)
  {
    hide Asks, Enabled, Step, OfConn, About;
    if evs != [] {
      var before, ev := evs[..|evs| - 1], evs[|evs| - 1];
      var net := Run(START, before);
      OpsOfConns(before, n);
      forall i, h | 0 <= i < |OpsOf(evs, n)| && About(OpsOf(evs, n)[i], h)
        ensures OfConn(Run(START, evs), h)
      {
        if i < |OpsOf(before, n)| {
          assert About(OpsOf(before, n)[i], h);
        } else {
          AsksOfConn(net, ev, h);
        }
        StepOfConn(net, ev, h);
      }
    }
  }

  /** Two ends with one real endpoint have one logical endpoint, and two at one address are one. */
  lemma SameEnd(net: Net, h: Handler<(nat, Side)>, g: Handler<(nat, Side)>)
    requires OfConn(net, h) && OfConn(net, g)
    ensures h.realPeer == g.realPeer ==> h.logicPeer == g.logicPeer
    ensures h.ptr == g.ptr ==> h == g
  {
  }

  /** In every run the registry of every node is what its manager's maps hold, and they agree: what a run asks
      of a manager meets what that needs. */
  lemma ManagersAgree(evs: seq<Event>, n: Node)
    ensures var ops := OpsOf(evs, n);
      && Consistent(ops)
      && (forall i | 0 <= i < |ops| :: Fresh(DoAll(Empty(), ops[..i]).workers, ops[i]))
      && RegOf(Run(START, evs), n) == DoAll(Empty(), ops).workers
      && Mirrored(DoAll(Empty(), ops))
  {
    hide OfConn, Mirrored, Do, Apply;
    var ops, net := OpsOf(evs, n), Run(START, evs);
    OpsOfConns(evs, n);
    OpsMakeReg(evs, n);
    OpsConsistent(net, ops);
    RunConsistent(ops);
    forall i | 0 <= i < |ops|
      ensures Fresh(DoAll(Empty(), ops[..i]).workers, ops[i])
    {
      OpFresh(net, ops, i);
    }
  }

  lemma OpsConsistent(net: Net, ops: seq<Op<(nat, Side)>>)
    requires forall i, h | 0 <= i < |ops| && About(ops[i], h) :: OfConn(net, h)
    ensures Consistent(ops)
  {
    hide OfConn;
    forall h, g, i, j | 0 <= i < |ops| && 0 <= j < |ops| && About(ops[i], h) && About(ops[j], g)
                        && h.realPeer == g.realPeer
      ensures h.logicPeer == g.logicPeer
    {
      SameEnd(net, h, g);
    }
  }

  lemma OpFresh(net: Net, ops: seq<Op<(nat, Side)>>, k: nat)
    requires forall i, h | 0 <= i < |ops| && About(ops[i], h) :: OfConn(net, h)
    requires k < |ops|
    ensures Fresh(DoAll(Empty(), ops[..k]).workers, ops[k])
  {
    hide OfConn, Mirrored, Do, Apply;
    assert forall i, h | 0 <= i < k && About(ops[..k][i], h) :: About(ops[i], h);
    OpsConsistent(net, ops[..k]);
    RunConsistent(ops[..k]);
    var reg := DoAll(Empty(), ops[..k]).workers;
    if ops[k].Put? {
      forall p | p in reg && reg[p].ptr == ops[k].h.ptr
        ensures reg[p] == ops[k].h
      {
        RunPuts(map[], ops[..k], p);
        var i :| 0 <= i < k && ops[..k][i] == Put(reg[p]);
        assert About(ops[i], reg[p]) && About(ops[k], ops[k].h);
        SameEnd(net, reg[p], ops[k].h);
      }
    }
  }

  ghost predicate Filed(net: Net, c: nat, side: Side)
    requires c in net.conns
  {
    Registered(RegOf(net, Home(net.conns[c], side)), HandlerOf(c, net.conns[c], side))
  }

  /** In every run a node that has a connection on file can rely on the acceptor having had it on file;
      and where the last message of a handshake and the setting of the socket never fail, every handler on
      file is that of a Connected end. */
  lemma FiledAreUp(evs: seq<Event>, n: Node, p: Peer)
    requires p in RegOf(Run(START, evs), n)
    ensures var net := Run(START, evs); var h := RegOf(net, n)[p];
      && h.ptr.0 in net.conns && h == HandlerOf(h.ptr.0, net.conns[h.ptr.0], h.ptr.1)
      && Home(net.conns[h.ptr.0], h.ptr.1) == n && net.conns[h.ptr.0].enrolled
      && ((forall ev | ev in evs :: Sound(ev)) ==> Up(net.conns[h.ptr.0], h.ptr.1))
  {
    var net := Run(START, evs);
    RunReg(evs, false);
    assert Owned(net, n, p, RegOf(net, n)[p], false);
    if forall ev | ev in evs :: Sound(ev) {
      RunReg(evs, true);
      assert Owned(net, n, p, RegOf(net, n)[p], true);
    }
  }

  /** Without that, a handler stays on file after its end has failed and been deleted: the acceptor's
      exactly when it could be filed and one of the two did fail, the initiator's exactly when it got the
      OK, could be filed and its socket could not be set. */
  lemma FailedOnFile(net: Net, c: nat, sent: bool, nb: bool)
    ensures Enabled(net, AccFinal(c, sent, nb)) && !Filed(net, c, Acc) ==>
      var after := Step(net, AccFinal(c, sent, nb));
      (after.conns[c].a.AFailed? && Filed(after, c, Acc) <==> Free(net, c, Acc) && !(sent && nb))
    ensures Enabled(net, IniFinal(c, nb)) && !Filed(net, c, Ini) ==>
      var after, k := Step(net, IniFinal(c, nb)), net.conns[c];
      (after.conns[c].i.IFailed? && Filed(after, c, Ini) <==> k.sentA[k.gotA] == OkMsg && Free(net, c, Ini) && !nb)
  {
  }

  /** A remark: since a registry is a map, at no time are two connections between the same two nodes on file
      at both ends, whichever of the nodes dialled them. */
  lemma OneAtBothEnds(net: Net, c: nat, d: nat)
    requires c in net.conns && d in net.conns
    requires Filed(net, c, Ini) && Filed(net, c, Acc) && Filed(net, d, Ini) && Filed(net, d, Acc)
    requires var k, l := net.conns[c], net.conns[d]; {k.ini, k.acc} == {l.ini, l.acc}
    ensures c == d
  {
    var k, l := net.conns[c], net.conns[d];
    assert k.ini in {l.ini, l.acc} && k.acc in {l.ini, l.acc} && l.ini in {k.ini, k.acc} && l.acc in {k.ini, k.acc};
  }

  // ----- runs

  lemma RunSnoc(net: Net, evs: seq<Event>, ev: Event)
    ensures Run(net, evs + [ev]) == Step(Run(net, evs), ev)
  {
    var all := evs + [ev];
    assert all[..|all| - 1] == evs;
  }

  /** A connection just before the acceptor's last step, and just before the initiator's. */
  ghost function Asked(x: Node, y: Node): (k: Conn) {
    Conn(x, y, WaitLastACK, ConnectingRe, [Request, OkMsg], 1, [OkMsg], 1, false)
  }

  ghost function Answered(x: Node, y: Node): (k: Conn) {
    Conn(x, y, WaitLastACK, AConnected, [Request, OkMsg], 2, [OkMsg, OkMsg], 1, true)
  }

  /** A dial takes its connection to that point and leaves the rest of the network alone. */
  lemma DialAsks(net: Net, c: nat, x: Node, y: Node)
    requires c !in net.conns
    ensures Run(net, [Dial(c, x, y), IniStart(c, true), AccRequest(c, true), IniReply(c, true)])
         == Net(net.conns[c := Asked(x, y)], net.reg)
  {
    var n1 := Step(net, Dial(c, x, y));
    var n2 := Step(n1, IniStart(c, true));
    var n3 := Step(n2, AccRequest(c, true));
    var n4 := Step(n3, IniReply(c, true));
    assert n1.conns[c] == Conn(x, y, IConnecting, AConnecting, [], 0, [], 0, false);
    assert n2.conns[c] == Conn(x, y, ConnectSe, AConnecting, [Request], 0, [], 0, false);
    assert n3.conns[c] == Conn(x, y, ConnectSe, ConnectingRe, [Request], 1, [OkMsg], 0, false);
    assert n4.conns[c] == Asked(x, y);
    RunFour(net, Dial(c, x, y), IniStart(c, true), AccRequest(c, true), IniReply(c, true));
  }

  lemma RunFour(net: Net, a: Event, b: Event, c: Event, d: Event)
    ensures Run(net, [a, b, c, d]) == Step(Step(Step(Step(net, a), b), c), d)
  {
    hide Step;
    assert [a, b, c, d] == [] + [a] + [b] + [c] + [d];
    RunSnoc(net, [], a);
    RunSnoc(net, [] + [a], b);
    RunSnoc(net, [] + [a] + [b], c);
    RunSnoc(net, [] + [a] + [b] + [c], d);
  }

  /** The acceptor files the connection if its node has none with that peer. */
  lemma AccAnswers(net: Net, c: nat, x: Node, y: Node)
    requires c in net.conns && net.conns[c] == Asked(x, y) && Endpoint(x) !in RegOf(net, y)
    ensures Step(net, AccFinal(c, true, true)) == Net(net.conns[c := Answered(x, y)],
      net.reg[y := RegOf(net, y)[Endpoint(x) := Handler((c, Acc), Endpoint(x), Ephemeral(c))]])
  {
    assert [OkMsg] + [OkMsg] == [OkMsg, OkMsg];
  }

  /** The initiator gives up where its node has one with that peer by then. */
  lemma IniLate(net: Net, c: nat, x: Node, y: Node)
    requires c in net.conns && net.conns[c] == Answered(x, y) && Endpoint(y) in RegOf(net, x)
    ensures var r := Step(net, IniFinal(c, true));
      r.conns == net.conns[c := Answered(x, y).(i := IFailed, gotA := 2)] && forall n :: RegOf(r, n) == RegOf(net, n)
  {
  }

  lemma {:induction false} RunAppend(net: Net, a: seq<Event>, b: seq<Event>)
    ensures Run(net, a + b) == Run(Run(net, a), b)
    decreases |b|
  {
    hide Step;
    if b == [] {
      assert a + b == a;
    } else {
      var ev := b[|b| - 1];
      assert a + b == (a + b[..|b| - 1]) + [ev];
      RunAppend(net, a, b[..|b| - 1]);
      RunSnoc(net, a + b[..|b| - 1], ev);
    }
  }

  ghost function DialEvents(c: nat, x: Node, y: Node): (evs: seq<Event>) {
    [Dial(c, x, y), IniStart(c, true), AccRequest(c, true), IniReply(c, true)]
  }

  /** A single dial ends with both ends Connected, unless a node dials itself. */
  lemma OneDial(x: Node, y: Node)
    ensures var net := Run(START, DialEvents(0, x, y) + [AccFinal(0, true, true)] + [IniFinal(0, true)]);
      0 in net.conns && (Up(net.conns[0], Ini) && Up(net.conns[0], Acc) <==> x != y)
  {
    hide Run;
    var evs := DialEvents(0, x, y);
    RunSnoc(START, evs, AccFinal(0, true, true));
    RunSnoc(START, evs + [AccFinal(0, true, true)], IniFinal(0, true));
    DialAsks(START, 0, x, y);
    AccAnswers(Run(START, evs), 0, x, y);
  }

  /** A connection that was refused: the acceptor said so and both ends gave up. */
  ghost function Refused(x: Node, y: Node): (k: Conn) {
    Conn(x, y, IFailed, AFailed, [Request, OkMsg], 2, [OkMsg, ErrorMsg], 2, false)
  }

  /** A dial to a node that has a handler for the one that dials is refused, and changes nothing else. */
  lemma RefusedDial(net: Net, d: nat, x: Node, y: Node)
    requires d !in net.conns && Endpoint(x) in RegOf(net, y)
    ensures var r := Run(net, DialEvents(d, x, y) + Finals(d));
      r.conns == net.conns[d := Refused(x, y)] && forall n :: RegOf(r, n) == RegOf(net, n)
  {
    hide Run;
    var asked := Net(net.conns[d := Asked(x, y)], net.reg);
    DialAsks(net, d, x, y);
    RunAppend(net, DialEvents(d, x, y), Finals(d));
    RunTwo(asked, AccFinal(d, true, true), IniFinal(d, true));
    var told := Step(asked, AccFinal(d, true, true));
    assert [OkMsg] + [ErrorMsg] == [OkMsg, ErrorMsg];
    assert told.conns[d] == Conn(x, y, WaitLastACK, AFailed, [Request, OkMsg], 2, [OkMsg, ErrorMsg], 1, false);
    RegistryStep(asked, AccFinal(d, true, true), y);
    forall n
      ensures RegOf(told, n) == RegOf(net, n)
    {
      RegistryStep(asked, AccFinal(d, true, true), n);
    }
    forall n
      ensures RegOf(Step(told, IniFinal(d, true)), n) == RegOf(net, n)
    {
      RegistryStep(told, IniFinal(d, true), n);
    }
  }

  lemma RunTwo(net: Net, a: Event, b: Event)
    ensures Run(net, [a, b]) == Step(Step(net, a), b)
  {
    hide Step;
    assert [a, b] == [] + [a] + [b];
    RunSnoc(net, [], a);
    RunSnoc(net, [] + [a], b);
  }

  /** So of two dials of one node to another, one after the other, the first stays up at both ends and the second
      is refused. */
  lemma SecondDial(x: Node, y: Node)
    requires x != y
    ensures var net := Run(START, DialEvents(0, x, y) + Finals(0) + (DialEvents(1, x, y) + Finals(1)));
      && BothUp(net, 0) && Filed(net, 0, Ini) && Filed(net, 0, Acc)
      && 1 in net.conns && net.conns[1] == Refused(x, y) && !Filed(net, 1, Ini) && !Filed(net, 1, Acc)
  {
    hide Run, Step;
    var first := Run(START, DialEvents(0, x, y) + Finals(0));
    FirstUp(x, y);
    RunAppend(START, DialEvents(0, x, y) + Finals(0), DialEvents(1, x, y) + Finals(1));
    RefusedDial(first, 1, x, y);
  }

  lemma FirstUp(x: Node, y: Node)
    requires x != y
    ensures var net := Run(START, DialEvents(0, x, y) + Finals(0));
      BothUp(net, 0) && 1 !in net.conns && Filed(net, 0, Ini) && Filed(net, 0, Acc)
      && net.conns[0].ini == x && net.conns[0].acc == y
  {
    hide Run;
    var asked := Net(map[0 := Asked(x, y)], map[]);
    DialAsks(START, 0, x, y);
    assert START.conns[0 := Asked(x, y)] == map[0 := Asked(x, y)];
    RunAppend(START, DialEvents(0, x, y), Finals(0));
    RunTwo(asked, AccFinal(0, true, true), IniFinal(0, true));
    AccAnswers(asked, 0, x, y);
  }

  /** Every way two sequences of events may come one among the other. */
  ghost predicate Interleaves(a: seq<Event>, b: seq<Event>, r: seq<Event>)
    decreases |a| + |b|
  {
    if a == [] then r == b
    else if b == [] then r == a
    else
      && r != []
      && ((r[0] == a[0] && Interleaves(a[1..], b, r[1..])) || (r[0] == b[0] && Interleaves(a, b[1..], r[1..])))
  }

  /** The last two steps of a handshake. */
  ghost function Finals(c: nat): (evs: seq<Event>) {
    [AccFinal(c, true, true), IniFinal(c, true)]
  }

  ghost predicate BothUp(net: Net, c: nat) {
    c in net.conns && Up(net.conns[c], Ini) && Up(net.conns[c], Acc)
  }

  /** Two connections, dialled by two nodes towards each other, before either node has answered. */
  ghost predicate Crossed(net: Net, c: nat, d: nat, x: Node, y: Node) {
    && c != d && x != y && c in net.conns && d in net.conns
    && net.conns[c] == Asked(x, y) && net.conns[d] == Asked(y, x)
    && Endpoint(x) !in RegOf(net, y) && Endpoint(y) !in RegOf(net, x)
  }

  /** Two nodes that dial each other at once lose both connections exactly when both answer as acceptor
      before either hears the other's answer as initiator: each has then filed the connection the other
      dialled, and gives its own up. In every other order one connection comes up at both ends. */
  lemma CrossedDials(net: Net, c: nat, d: nat, x: Node, y: Node, order: seq<Event>)
    requires Crossed(net, c, d, x, y) && Interleaves(Finals(c), Finals(d), order)
    ensures |order| == 4
    ensures !BothUp(Run(net, order), c) && !BothUp(Run(net, order), d)
      <==> order[0].AccFinal? && order[1].AccFinal?
  {
    hide Run, Step;
    FourEvents(c, d, order);
    RunFour(net, order[0], order[1], order[2], order[3]);
    if order[0] == AccFinal(c, true, true) {
      FirstAnswer(net, c, d, x, y, order);
    } else {
      FirstAnswer(net, d, c, y, x, order);
    }
  }

  lemma FourEvents(c: nat, d: nat, order: seq<Event>)
    requires Interleaves(Finals(c), Finals(d), order)
    ensures |order| == 4 && order == [order[0], order[1], order[2], order[3]]
    ensures var a, i, a', i' := AccFinal(c, true, true), IniFinal(c, true), AccFinal(d, true, true), IniFinal(d, true);
      order in {[a, i, a', i'], [a, a', i, i'], [a, a', i', i], [a', a, i, i'], [a', a, i', i], [a', i', a, i]}
  {
    var a, i, a', i' := AccFinal(c, true, true), IniFinal(c, true), AccFinal(d, true, true), IniFinal(d, true);
    var r := order[1..];
    assert order == [order[0]] + r && Finals(c)[1..] == [i] && Finals(d)[1..] == [i'];
    if order[0] == a && Interleaves([i], [a', i'], r) {
      OneAmongTwo(i, a', i', r);
    } else {
      TwoAndOne(a, i, i', r);
    }
  }

  lemma OneAndOne(a: Event, b: Event, r: seq<Event>)
    requires Interleaves([a], [b], r)
    ensures r in {[a, b], [b, a]}
  {
    assert [a][1..] == [] && [b][1..] == [] && r == [r[0]] + r[1..];
    if r[0] == a && Interleaves([], [b], r[1..]) {
      assert r == [a, b];
    } else {
      assert r == [b, a];
    }
  }

  lemma OneAmongTwo(a: Event, b: Event, c: Event, r: seq<Event>)
    requires Interleaves([a], [b, c], r)
    ensures r in {[a, b, c], [b, a, c], [b, c, a]}
  {
    assert [a][1..] == [] && [b, c][1..] == [c] && r == [r[0]] + r[1..];
    if r[0] == a && Interleaves([], [b, c], r[1..]) {
      assert r == [a, b, c];
    } else {
      OneAndOne(a, c, r[1..]);
      assert r == [b, a, c] || r == [b, c, a];
    }
  }

  lemma TwoAndOne(a: Event, b: Event, c: Event, r: seq<Event>)
    requires Interleaves([a, b], [c], r)
    ensures r in {[c, a, b], [a, c, b], [a, b, c]}
  {
    assert [c][1..] == [] && [a, b][1..] == [b] && r == [r[0]] + r[1..];
    if r[0] == c && Interleaves([a, b], [], r[1..]) {
      assert r == [c, a, b];
    } else {
      OneAndOne(b, c, r[1..]);
      assert r == [a, b, c] || r == [a, c, b];
    }
  }

  /** The initiator files the connection if its node has none with that peer. */
  lemma IniConnects(net: Net, c: nat, x: Node, y: Node)
    requires c in net.conns && net.conns[c] == Answered(x, y) && Endpoint(y) !in RegOf(net, x)
    ensures BothUp(Step(net, IniFinal(c, true)), c)
  {
  }

  lemma OthersStay(net: Net, c: nat, ev: Event)
    requires c in net.conns && (ev.AccFinal? || ev.IniFinal?) && ev.c != c
    ensures c in Step(net, ev).conns && Step(net, ev).conns[c] == net.conns[c]
  {
  }

  lemma FirstAnswer(net: Net, c: nat, d: nat, x: Node, y: Node, order: seq<Event>)
    requires Crossed(net, c, d, x, y) && |order| == 4
    requires var a, i, a', i' := AccFinal(c, true, true), IniFinal(c, true), AccFinal(d, true, true), IniFinal(d, true);
      order in {[a, i, a', i'], [a, a', i, i'], [a, a', i', i]}
    ensures var end := Step(Step(Step(Step(net, order[0]), order[1]), order[2]), order[3]);
      !BothUp(end, c) && !BothUp(end, d) <==> order[1].AccFinal?
  {
    hide Step;
    AccAnswers(net, c, x, y);
    var n1 := Step(net, order[0]);
    var n2 := Step(n1, order[1]);
    var n3 := Step(n2, order[2]);
    if order[1].IniFinal? {
      IniConnects(n1, c, x, y);
      OthersStay(n2, c, order[2]);
      OthersStay(n3, c, order[3]);
    } else {
      AccAnswers(n1, d, y, x);
      if order[2].c == c {
        IniLate(n2, c, x, y);
        IniLate(n3, d, y, x);
      } else {
        IniLate(n2, d, y, x);
        IniLate(n3, c, x, y);
      }
    }
  }

  /** Both orders come about: two dials lead to such a pair. */
  lemma CrossedReached(x: Node, y: Node)
    requires x != y
    ensures Crossed(Run(START, DialEvents(0, x, y) + DialEvents(1, y, x)), 0, 1, x, y)
  {
    hide Run, Step;
    DialAsks(START, 0, x, y);
    DialAsks(Run(START, DialEvents(0, x, y)), 1, y, x);
    RunAppend(START, DialEvents(0, x, y), DialEvents(1, y, x));
  }
}
