/** Mail between machines (network/post.cc, machine/network.cc).

    A message is put into a packet, byte for byte, and sent to the socket of its destination,
    or lost.  On each machine a poll moves one packet at a time from the socket into a
    one-packet inbox and signals messageAvailable; the postal worker waits for the signal,
    takes the packet and puts the message into its mailbox.  Any number of machines send,
    poll, deliver and receive in any order. */
module PostOffices {
  import opened Bytes
  import opened Basics
  import opened Semaphores

  const MAX_WIRE_SIZE := 64
  const HEADER_SIZE := 12       // of a PacketHeader and of a MailHeader: three ints
  const MAX_PACKET_SIZE := MAX_WIRE_SIZE - HEADER_SIZE
  const MAX_MAIL_SIZE := MAX_PACKET_SIZE - HEADER_SIZE

  datatype Header = Header(to: Int32, from: Int32, length: Int32)

  // What the caller of Send hands over and what the caller of Receive gets.
  datatype Mail = Mail(pkt: Header, mail: Header, data: seq<Byte>)

  // --- wire format

  function EncodeHeader(h: Header): (b: seq<Byte>)
    ensures |b| == HEADER_SIZE
  {
    Encode32(h.to) + Encode32(h.from) + Encode32(h.length)
  }

  function DecodeHeader(b: seq<Byte>): Header
    requires |b| >= HEADER_SIZE
  {
    Header(Decode32(b[0..4]), Decode32(b[4..8]), Decode32(b[8..12]))
  }

  lemma HeaderRoundTrip(h: Header, rest: seq<Byte>)
    ensures DecodeHeader(EncodeHeader(h) + rest) == h
    ensures (EncodeHeader(h) + rest)[HEADER_SIZE..] == rest
  {
    var b := EncodeHeader(h) + rest;
    assert b[0..4] == Encode32(h.to);
    assert b[4..8] == Encode32(h.from);
    assert b[8..12] == Encode32(h.length);
    RoundTrip32(h.to);
    RoundTrip32(h.from);
    RoundTrip32(h.length);
  }

  ghost predicate WellFormed(m: Mail, boxes: nat) {
    && |m.data| <= MAX_MAIL_SIZE && m.mail.length == |m.data|
    && m.pkt.length == m.mail.length + HEADER_SIZE
    && 0 <= m.mail.to < boxes
  }

  // PostOffice::Send and Network::Send: mail header and data are the payload of the packet;
  // what is left of the fixed-size buffer is whatever was there (`pad`).
  function Wire(m: Mail, pad: seq<Byte>): seq<Byte> {
    EncodeHeader(m.pkt) + (EncodeHeader(m.mail) + m.data + pad)
  }

  // Network::CheckPktAvail splits a packet into header and payload.
  function Payload(wire: seq<Byte>): seq<Byte>
    requires |wire| >= HEADER_SIZE
  {
    var n := DecodeHeader(wire).length;
    if 0 <= n <= |wire| - HEADER_SIZE then wire[HEADER_SIZE..HEADER_SIZE + n] else []
  }

  // PostOffice::PostalDelivery and MailBox::Put parse the payload.
  function ParseMail(pkt: Header, payload: seq<Byte>): Mail {
    if |payload| < HEADER_SIZE then Mail(pkt, Header(0, 0, 0), [])
    else
      var mail := DecodeHeader(payload);
      if 0 <= mail.length <= |payload| - HEADER_SIZE
      then Mail(pkt, mail, payload[HEADER_SIZE..HEADER_SIZE + mail.length])
      else Mail(pkt, mail, [])
  }

  function Unwire(wire: seq<Byte>): Mail {
    if |wire| != MAX_WIRE_SIZE then Mail(Header(0, 0, 0), Header(0, 0, 0), [])
    else ParseMail(DecodeHeader(wire), Payload(wire))
  }

  /** What is parsed at the receiving end is the message that was sent, byte for byte. */
  lemma WireRoundTrip(m: Mail, pad: seq<Byte>, boxes: nat)
    requires WellFormed(m, boxes) && |Wire(m, pad)| == MAX_WIRE_SIZE
    ensures Unwire(Wire(m, pad)) == m
  {
    var body := EncodeHeader(m.mail) + m.data;
    HeaderRoundTrip(m.pkt, body + pad);
    assert Wire(m, pad)[HEADER_SIZE..] == body + pad && m.pkt.length == |body|;
    assert Payload(Wire(m, pad)) == Wire(m, pad)[HEADER_SIZE..][..|body|];
    assert (body + pad)[..|body|] == body;
    HeaderRoundTrip(m.mail, m.data);
    assert body[HEADER_SIZE..HEADER_SIZE + m.mail.length] == m.data;
  }

  // ---------------------------------------------------------------------------
  // Sequences of mail

  function Filter(s: seq<Mail>, p: Mail -> bool): seq<Mail> {
    if s == [] then []
    else
      var front, last := s[..|s| - 1], s[|s| - 1];
      if p(last) then Filter(front, p) + [last] else Filter(front, p)
  }

  ghost predicate Subsequence(x: seq<Mail>, y: seq<Mail>)
    decreases |y|
  {
    || x == []
    || (y != [] &&
        (|| (x[|x| - 1] == y[|y| - 1] && Subsequence(x[..|x| - 1], y[..|y| - 1]))
         || Subsequence(x, y[..|y| - 1])))
  }

  lemma SubsequenceSnoc(x: seq<Mail>, y: seq<Mail>, e: Mail)
    requires Subsequence(x, y)
    ensures Subsequence(x, y + [e]) && Subsequence(x + [e], y + [e])
  {
    assert (y + [e])[..|y|] == y && (x + [e])[..|x|] == x;
  }

  lemma {:induction false} SubsequenceFront(x: seq<Mail>, y: seq<Mail>)
    requires x != [] && Subsequence(x, y)
    ensures Subsequence(x[..|x| - 1], y)
    decreases |y|
  {
    var front := x[..|x| - 1];
    if Subsequence(x, y[..|y| - 1]) {
      SubsequenceFront(x, y[..|y| - 1]);
    }
    if front != [] {
      assert Subsequence(front, y[..|y| - 1]);
    }
  }

  lemma {:induction false} SubsequencePrefix(x: seq<Mail>, y: seq<Mail>, k: nat)
    requires k <= |x| && Subsequence(x, y)
    ensures Subsequence(x[..k], y)
    decreases |x|
  {
    if k < |x| {
      SubsequenceFront(x, y);
      assert x[..|x| - 1][..k] == x[..k];
      SubsequencePrefix(x[..|x| - 1], y, k);
    } else {
      assert x[..k] == x;
    }
  }

  lemma {:induction false} SubsequenceFilter(x: seq<Mail>, y: seq<Mail>, p: Mail -> bool)
    requires Subsequence(x, y)
    ensures Subsequence(Filter(x, p), Filter(y, p))
    decreases |y|
  {
    if x != [] {
      var fx, fy := x[..|x| - 1], y[..|y| - 1];
      if x[|x| - 1] == y[|y| - 1] && Subsequence(fx, fy) {
        SubsequenceFilter(fx, fy, p);
        SubsequenceSnoc(Filter(fx, p), Filter(fy, p), y[|y| - 1]);
      } else {
        SubsequenceFilter(x, fy, p);
        SubsequenceSnoc(Filter(x, p), Filter(fy, p), y[|y| - 1]);
      }
    }
  }

  lemma {:induction false} FilterConcat(x: seq<Mail>, y: seq<Mail>, p: Mail -> bool)
    ensures Filter(x + y, p) == Filter(x, p) + Filter(y, p)
    decreases |y|
  {
    if y == [] {
      assert x + y == x;
    } else {
      assert (x + y)[..|x + y| - 1] == x + y[..|y| - 1];
      FilterConcat(x, y[..|y| - 1], p);
    }
  }

  lemma FilterSnoc(s: seq<Mail>, m: Mail, p: Mail -> bool)
    ensures Filter(s + [m], p) == if p(m) then Filter(s, p) + [m] else Filter(s, p)
  {
    assert (s + [m])[..|s|] == s;
  }

  lemma {:induction false} FilterSwap(s: seq<Mail>, p: Mail -> bool, q: Mail -> bool)
    ensures Filter(Filter(s, p), q) == Filter(Filter(s, q), p)
  {
    if s != [] {
      var front, last := s[..|s| - 1], s[|s| - 1];
      FilterSwap(front, p, q);
      FilterSnoc(Filter(front, p), last, q);
      FilterSnoc(Filter(front, q), last, p);
    }
  }

  // ---------------------------------------------------------------------------
  // Machines

  datatype Worker = Waiting | Taking | Putting(pkt: Header, buffer: seq<Byte>)

  datatype Machine = Machine(
    sock: seq<seq<Byte>>,          // packets on their way to this machine
    inHdr: Header,                 // length 0 means that the inbox is empty
    inbox: seq<Byte>,
    available: Sem,                // messageAvailable
    worker: Worker,
    boxes: seq<seq<Mail>>,
    sent: seq<Mail>,               // history: messages sent from this machine
    delivered: seq<Mail>,          // history: messages put into mailboxes here
    received: seq<seq<Mail>>)      // history: messages taken out of each mailbox

  type Net = map<Int32, Machine>

  const WORKER: Tid := 0           // only the postal worker waits on messageAvailable

  datatype Step =
    | Send(a: Int32, to: Int32, mail: Header, data: seq<Byte>, pad: seq<Byte>, lost: bool)
    | Poll(a: Int32) | TryWait(a: Int32) | Take(a: Int32) | Put(a: Int32)
    | Receive(a: Int32, box: nat)

  ghost predicate Init(net: Net, nBoxes: nat) {
    forall a | a in net ::
      && net[a].sock == [] && net[a].inHdr.length == 0 && net[a].available == NewSem(0) && net[a].worker == Waiting
      && |net[a].boxes| == |net[a].received| == nBoxes
      && (forall b | 0 <= b < nBoxes :: net[a].boxes[b] == [] && net[a].received[b] == [])
      && net[a].sent == [] && net[a].delivered == []
  }

  // The message that Send makes of its arguments: it fills in `from` and `length`.
  function Message(a: Int32, to: Int32, mail: Header, data: seq<Byte>): Mail
    requires |data| <= MAX_MAIL_SIZE
  {
    Mail(Header(to, a, |data| + HEADER_SIZE), mail, data)
  }

  ghost predicate Next(net: Net, nBoxes: nat, step: Step, net': Net) {
    && step.a in net
    && var me := net[step.a];
       match step
       case Send(a, to, mail, data, pad, lost) =>
         && |data| == mail.length <= MAX_MAIL_SIZE && 0 <= mail.to < nBoxes
         && var m := Message(a, to, mail, data);
            && |Wire(m, pad)| == MAX_WIRE_SIZE
            && var net1 := net[a := me.(sent := me.sent + [m])];
               net' == if lost || to !in net then net1
                       else net1[to := net1[to].(sock := net1[to].sock + [Wire(m, pad)])]
       case Poll(a) =>
         && me.inHdr.length == 0 && me.sock != [] && |me.sock[0]| >= HEADER_SIZE
         && net' == net[a := me.(sock := me.sock[1..], inHdr := DecodeHeader(me.sock[0]), inbox := Payload(me.sock[0]),
                                 available := V(me.available))]
       case TryWait(a) =>
         && me.worker == Waiting && WORKER !in me.available.queue
         && var (sem, ok) := TryP(me.available, WORKER);
            net' == net[a := me.(available := sem, worker := if ok then Taking else Waiting)]
       case Take(a) =>
         && me.worker == Taking
         && net' == net[a := me.(worker := Putting(me.inHdr, if me.inHdr.length != 0 then me.inbox else []),
                                 inHdr := me.inHdr.(length := 0))]
       case Put(a) =>
         && me.worker.Putting?
         && var m := ParseMail(me.worker.pkt, me.worker.buffer);
            && 0 <= m.mail.to < |me.boxes|
            && net' == net[a := me.(boxes := me.boxes[m.mail.to := me.boxes[m.mail.to] + [m]],
                                    delivered := me.delivered + [m], worker := Waiting)]
       case Receive(a, box) =>
         && box < |me.boxes| == |me.received| && me.boxes[box] != []
         && net' == net[a := me.(boxes := me.boxes[box := me.boxes[box][1..]],
                                 received := me.received[box := me.received[box] + [me.boxes[box][0]]])]
  }

  // ---------------------------------------------------------------------------
  // Invariant

  function From(a: Int32): Mail -> bool { (m: Mail) => m.pkt.from == a }
  function To(a: Int32): Mail -> bool { (m: Mail) => m.pkt.to == a }
  function InBox(b: nat): Mail -> bool { (m: Mail) => m.mail.to == b }

  function UnwireAll(sock: seq<seq<Byte>>): seq<Mail> {
    seq(|sock|, i requires 0 <= i < |sock| => Unwire(sock[i]))
  }

  function WithWorker(w: Worker): seq<Mail> {
    if w.Putting? then [ParseMail(w.pkt, w.buffer)] else []
  }

  function InInbox(hdr: Header, inbox: seq<Byte>): seq<Mail> {
    if hdr.length != 0 then [ParseMail(hdr, inbox)] else []
  }

  // What is on its way to the mailboxes of a machine, oldest first.
  function Coming(me: Machine): seq<Mail> {
    WithWorker(me.worker) + InInbox(me.inHdr, me.inbox) + UnwireAll(me.sock)
  }

  function Pipe(me: Machine): seq<Mail> {
    me.delivered + Coming(me)
  }

  // The signal and the inbox agree, and only the worker waits.
  ghost predicate SignalPart(me: Machine) {
    && me.available.value + (if me.worker == Taking then 1 else 0) == (if me.inHdr.length != 0 then 1 else 0)
    && (me.available.queue != [] ==> me.available.queue == [WORKER] && me.available.value == 0 && me.worker == Waiting)
  }

  ghost predicate BoxPart(me: Machine, nBoxes: nat) {
    && |me.boxes| == |me.received| == nBoxes
    && (forall b: nat | b < nBoxes :: me.received[b] + me.boxes[b] == Filter(me.delivered, InBox(b)))
  }

  ghost predicate PacketPart(net: Net, a: Int32, nBoxes: nat)
    requires a in net
  {
    && (forall w | w in net[a].sock :: |w| == MAX_WIRE_SIZE)
    && (forall m | m in Pipe(net[a]) :: WellFormed(m, nBoxes) && m.pkt.to == a && m.pkt.from in net)
  }

  ghost predicate OrderPart(net: Net, a: Int32, src: Int32)
    requires a in net && src in net
  {
    Subsequence(Filter(Pipe(net[a]), From(src)), Filter(net[src].sent, To(a)))
  }

  ghost predicate Inv(net: Net, nBoxes: nat) {
    && (forall a | a in net :: SignalPart(net[a]) && BoxPart(net[a], nBoxes) && PacketPart(net, a, nBoxes))
    && (forall a, src | a in net && src in net :: OrderPart(net, a, src))
  }

  ghost predicate SamePipes(net: Net, net': Net) {
    net'.Keys == net.Keys && forall a | a in net :: Pipe(net'[a]) == Pipe(net[a])
  }

  // A step within machine a that leaves its pipe and what it has sent alone.
  ghost predicate Local(net: Net, nBoxes: nat, a: Int32, me': Machine) {
    && a in net && Pipe(me') == Pipe(net[a]) && me'.sent == net[a].sent
    && SignalPart(me') && BoxPart(me', nBoxes) && (forall w | w in me'.sock :: w in net[a].sock)
  }

  lemma LocalPackets(net: Net, nBoxes: nat, a: Int32, me': Machine, b: Int32)
    requires Local(net, nBoxes, a, me') && b in net && PacketPart(net, b, nBoxes)
    ensures PacketPart(net[a := me'], b, nBoxes)
  {
  }

  lemma LocalOrder(net: Net, nBoxes: nat, a: Int32, me': Machine, b: Int32, src: Int32)
    requires Local(net, nBoxes, a, me') && b in net && src in net && OrderPart(net, b, src)
    ensures OrderPart(net[a := me'], b, src)
  {
  }

  lemma LocalPipes(net: Net, nBoxes: nat, a: Int32, me': Machine)
    requires Local(net, nBoxes, a, me')
    ensures SamePipes(net, net[a := me'])
  {
  }

  lemma LocalStep(net: Net, nBoxes: nat, a: Int32, me': Machine)
    requires Inv(net, nBoxes) && Local(net, nBoxes, a, me')
    ensures Inv(net[a := me'], nBoxes) && SamePipes(net, net[a := me'])
  {
    var net' := net[a := me'];
    LocalPipes(net, nBoxes, a, me');
    forall b | b in net' ensures PacketPart(net', b, nBoxes) && SignalPart(net'[b]) && BoxPart(net'[b], nBoxes) {
      LocalPackets(net, nBoxes, a, me', b);
    }
    forall b, src | b in net' && src in net' ensures OrderPart(net', b, src) {
      LocalOrder(net, nBoxes, a, me', b, src);
    }
  }

  lemma PollLength(net: Net, nBoxes: nat, a: Int32)
    requires a in net && PacketPart(net, a, nBoxes) && net[a].sock != []
    ensures |net[a].sock[0]| == MAX_WIRE_SIZE
    ensures 0 < DecodeHeader(net[a].sock[0]).length <= MAX_PACKET_SIZE && DecodeHeader(net[a].sock[0]).to == a
  {
    var w := net[a].sock[0];
    assert w in net[a].sock;
    assert Unwire(w) == UnwireAll(net[a].sock)[0];
    assert Unwire(w) in UnwireAll(net[a].sock);
    assert Unwire(w) in Coming(net[a]);
    assert Unwire(w) in Pipe(net[a]);
  }

  lemma PollPipe(me: Machine, me': Machine)
    requires me.inHdr.length == 0 && me.sock != [] && |me.sock[0]| == MAX_WIRE_SIZE
    requires me'.sock == me.sock[1..] && me'.inHdr == DecodeHeader(me.sock[0]) && me'.inbox == Payload(me.sock[0])
    requires me'.inHdr.length != 0 && me'.worker == me.worker
    ensures Coming(me') == Coming(me)
  {
    var w := me.sock[0];
    assert UnwireAll(me.sock) == [Unwire(w)] + UnwireAll(me.sock[1..]);
    assert InInbox(me'.inHdr, me'.inbox) == [Unwire(w)];
    var a, c := WithWorker(me.worker), UnwireAll(me'.sock);
    assert a + [] + ([Unwire(w)] + c) == a + [Unwire(w)] + c;
  }

  lemma PollStep(net: Net, nBoxes: nat, a: Int32, net': Net)
    requires Inv(net, nBoxes) && Next(net, nBoxes, Poll(a), net')
    ensures Inv(net', nBoxes) && SamePipes(net, net')
  {
    assert SignalPart(net[a]) && BoxPart(net[a], nBoxes) && PacketPart(net, a, nBoxes);
    PollLength(net, nBoxes, a);
    PollPipe(net[a], net'[a]);
    LocalStep(net, nBoxes, a, net'[a]);
  }

  lemma TakePipe(me: Machine, me': Machine)
    requires me.worker == Taking && me.inHdr.length != 0 && me'.sock == me.sock
    requires me'.worker == Putting(me.inHdr, me.inbox) && me'.inHdr.length == 0
    ensures Coming(me') == Coming(me)
  {
    var m := ParseMail(me.inHdr, me.inbox);
    assert WithWorker(me'.worker) == [m] && InInbox(me'.inHdr, me'.inbox) == [];
    assert WithWorker(me.worker) == [] && InInbox(me.inHdr, me.inbox) == [m];
    assert [m] + [] == [] + [m];
  }

  lemma TakeStep(net: Net, nBoxes: nat, a: Int32, net': Net)
    requires Inv(net, nBoxes) && Next(net, nBoxes, Take(a), net')
    ensures Inv(net', nBoxes) && SamePipes(net, net')
  {
    assert SignalPart(net[a]) && BoxPart(net[a], nBoxes);
    TakePipe(net[a], net'[a]);
    LocalStep(net, nBoxes, a, net'[a]);
  }

  lemma PutBoxes(me: Machine, nBoxes: nat, m: Mail, me': Machine)
    requires BoxPart(me, nBoxes) && 0 <= m.mail.to < nBoxes
    requires me'.boxes == me.boxes[m.mail.to := me.boxes[m.mail.to] + [m]]
    requires me'.received == me.received && me'.delivered == me.delivered + [m]
    ensures BoxPart(me', nBoxes)
  {
    forall b: nat | b < nBoxes ensures me'.received[b] + me'.boxes[b] == Filter(me'.delivered, InBox(b)) {
      assert me'.delivered[..|me'.delivered| - 1] == me.delivered;
      assert me.received[b] + me.boxes[b] + [m] == me.received[b] + (me.boxes[b] + [m]);
    }
  }

  lemma PutPipe(me: Machine, me': Machine)
    requires me.worker.Putting? && me'.worker == Waiting
    requires me'.sock == me.sock && me'.inHdr == me.inHdr && me'.inbox == me.inbox
    requires me'.delivered == me.delivered + [ParseMail(me.worker.pkt, me.worker.buffer)]
    ensures Pipe(me') == Pipe(me)
  {
    var m := ParseMail(me.worker.pkt, me.worker.buffer);
    var c := InInbox(me.inHdr, me.inbox) + UnwireAll(me.sock);
    assert Coming(me) == [m] + c && Coming(me') == c;
    assert me.delivered + ([m] + c) == me.delivered + [m] + c;
  }

  lemma PutStep(net: Net, nBoxes: nat, a: Int32, net': Net)
    requires Inv(net, nBoxes) && Next(net, nBoxes, Put(a), net')
    ensures Inv(net', nBoxes) && SamePipes(net, net')
  {
    assert SignalPart(net[a]) && BoxPart(net[a], nBoxes);
    PutBoxes(net[a], nBoxes, ParseMail(net[a].worker.pkt, net[a].worker.buffer), net'[a]);
    PutPipe(net[a], net'[a]);
    LocalStep(net, nBoxes, a, net'[a]);
  }

  lemma ReceiveBoxes(me: Machine, nBoxes: nat, box: nat, me': Machine)
    requires BoxPart(me, nBoxes) && box < nBoxes && me.boxes[box] != [] && me'.delivered == me.delivered
    requires me'.boxes == me.boxes[box := me.boxes[box][1..]]
    requires me'.received == me.received[box := me.received[box] + [me.boxes[box][0]]]
    ensures BoxPart(me', nBoxes)
  {
    forall b: nat | b < nBoxes ensures me'.received[b] + me'.boxes[b] == me.received[b] + me.boxes[b] { }
  }

  lemma ReceiveStep(net: Net, nBoxes: nat, a: Int32, box: nat, net': Net)
    requires Inv(net, nBoxes) && Next(net, nBoxes, Receive(a, box), net')
    ensures Inv(net', nBoxes) && SamePipes(net, net')
  {
    assert SignalPart(net[a]) && BoxPart(net[a], nBoxes);
    ReceiveBoxes(net[a], nBoxes, box, net'[a]);
    LocalStep(net, nBoxes, a, net'[a]);
  }

  lemma TryWaitStep(net: Net, nBoxes: nat, a: Int32, net': Net)
    requires Inv(net, nBoxes) && Next(net, nBoxes, TryWait(a), net')
    ensures Inv(net', nBoxes) && SamePipes(net, net')
  {
    assert SignalPart(net[a]) && BoxPart(net[a], nBoxes);
    assert net[a].available.queue == [];
    LocalStep(net, nBoxes, a, net'[a]);
  }

  // Sending m to machine b, or losing it on the way, keeps the order of what src sent to b.
  lemma OrderStep(pipe: seq<Mail>, sent: seq<Mail>, m: Mail, b: Int32, src: Int32, pipe': seq<Mail>, sent': seq<Mail>)
    requires Subsequence(Filter(pipe, From(src)), Filter(sent, To(b)))
    requires pipe' == pipe || (pipe' == pipe + [m] && m.pkt.to == b)
    requires sent' == if src == m.pkt.from then sent + [m] else sent
    ensures Subsequence(Filter(pipe', From(src)), Filter(sent', To(b)))
  {
    if src == m.pkt.from {
      FilterSnoc(pipe, m, From(src));
      FilterSnoc(sent, m, To(b));
      SubsequenceSnoc(Filter(pipe, From(src)), Filter(sent, To(b)), m);
    } else {
      FilterSnoc(pipe, m, From(src));
    }
  }

  lemma ArrivePipe(me: Machine, m: Mail, pad: seq<Byte>, nBoxes: nat, me': Machine)
    requires WellFormed(m, nBoxes) && |Wire(m, pad)| == MAX_WIRE_SIZE
    requires me'.sock == me.sock + [Wire(m, pad)] && me'.worker == me.worker
    requires me'.inHdr == me.inHdr && me'.inbox == me.inbox && me'.delivered == me.delivered
    ensures Pipe(me') == Pipe(me) + [m]
  {
    WireRoundTrip(m, pad, nBoxes);
    assert UnwireAll(me'.sock) == UnwireAll(me.sock) + [m];
    var a := WithWorker(me.worker) + InInbox(me.inHdr, me.inbox);
    assert Coming(me') == a + (UnwireAll(me.sock) + [m]) == Coming(me) + [m];
  }

  // What a Send does to any one machine b.
  lemma SendEffect(net: Net, nBoxes: nat, step: Step, net': Net, b: Int32)
    requires step.Send? && Next(net, nBoxes, step, net') && b in net
    ensures net'.Keys == net.Keys
    ensures var m := Message(step.a, step.to, step.mail, step.data);
      && WellFormed(m, nBoxes) && |Wire(m, step.pad)| == MAX_WIRE_SIZE
      && net'[b].sent == (if b == step.a then net[b].sent + [m] else net[b].sent)
      && net'[b].sock == (if b == step.to && !step.lost then net[b].sock + [Wire(m, step.pad)] else net[b].sock)
    ensures net'[b] == net[b].(sent := net'[b].sent, sock := net'[b].sock)
  {
  }

  lemma SendPipe(net: Net, nBoxes: nat, step: Step, net': Net, b: Int32)
    requires step.Send? && Next(net, nBoxes, step, net') && b in net
    ensures b in net' && |step.data| <= MAX_MAIL_SIZE
    ensures Pipe(net'[b]) == if b == step.to && !step.lost
      then Pipe(net[b]) + [Message(step.a, step.to, step.mail, step.data)] else Pipe(net[b])
  {
    SendEffect(net, nBoxes, step, net', b);
    if b == step.to && !step.lost {
      ArrivePipe(net[b], Message(step.a, step.to, step.mail, step.data), step.pad, nBoxes, net'[b]);
    }
  }

  lemma SendPackets(net: Net, nBoxes: nat, step: Step, net': Net, b: Int32)
    requires step.Send? && Next(net, nBoxes, step, net') && b in net
    requires SignalPart(net[b]) && BoxPart(net[b], nBoxes) && PacketPart(net, b, nBoxes)
    ensures b in net' && SignalPart(net'[b]) && BoxPart(net'[b], nBoxes) && PacketPart(net', b, nBoxes)
  {
    SendEffect(net, nBoxes, step, net', b);
    SendPipe(net, nBoxes, step, net', b);
  }

  lemma SendStep(net: Net, nBoxes: nat, step: Step, net': Net)
    requires Inv(net, nBoxes) && step.Send? && Next(net, nBoxes, step, net')
    ensures Inv(net', nBoxes)
  {
    SendEffect(net, nBoxes, step, net', step.a);
    var m := Message(step.a, step.to, step.mail, step.data);
    forall b | b in net' ensures SignalPart(net'[b]) && BoxPart(net'[b], nBoxes) && PacketPart(net', b, nBoxes) {
      SendPackets(net, nBoxes, step, net', b);
    }
    forall b, src | b in net' && src in net' ensures OrderPart(net', b, src) {
      assert OrderPart(net, b, src);
      SendPipe(net, nBoxes, step, net', b);
      SendEffect(net, nBoxes, step, net', src);
      OrderStep(Pipe(net[b]), net[src].sent, m, b, src, Pipe(net'[b]), net'[src].sent);
    }
  }

  lemma NextKeepsInv(net: Net, nBoxes: nat, step: Step, net': Net)
    requires Inv(net, nBoxes) && Next(net, nBoxes, step, net')
    ensures Inv(net', nBoxes)
  {
    match step
    case Send(_, _, _, _, _, _) => SendStep(net, nBoxes, step, net');
    case Poll(a) => PollStep(net, nBoxes, a, net');
    case TryWait(a) => TryWaitStep(net, nBoxes, a, net');
    case Take(a) => TakeStep(net, nBoxes, a, net');
    case Put(a) => PutStep(net, nBoxes, a, net');
    case Receive(a, box) => ReceiveStep(net, nBoxes, a, box, net');
  }

  // ---------------------------------------------------------------------------
  // Whole runs

  ghost predicate Run(nets: seq<Net>, steps: seq<Step>, nBoxes: nat) {
    && |nets| == |steps| + 1
    && Init(nets[0], nBoxes)
    && forall i | 0 <= i < |steps| :: Next(nets[i], nBoxes, steps[i], nets[i + 1])
  }

  lemma InitInv(net: Net, nBoxes: nat)
    requires Init(net, nBoxes)
    ensures Inv(net, nBoxes)
  {
    forall a | a in net ensures Pipe(net[a]) == [] { }
  }

  lemma {:induction false} RunInv(nets: seq<Net>, steps: seq<Step>, nBoxes: nat, i: nat)
    requires Run(nets, steps, nBoxes) && i < |nets|
    ensures Inv(nets[i], nBoxes)
  {
    if i == 0 {
      InitInv(nets[0], nBoxes);
    } else {
      RunInv(nets, steps, nBoxes, i - 1);
      NextKeepsInv(nets[i - 1], nBoxes, steps[i - 1], nets[i]);
    }
  }

  lemma FilterPrefix(x: seq<Mail>, y: seq<Mail>, p: Mail -> bool)
    requires x <= y
    ensures Filter(x, p) <= Filter(y, p)
  {
    assert y == x + y[|x|..];
    FilterConcat(x, y[|x|..], p);
  }

  // What is received is the front of what has been delivered, and that of the pipe.
  lemma ReceivedFirst(me: Machine, nBoxes: nat, src: Int32, box: nat)
    requires BoxPart(me, nBoxes) && box < nBoxes
    ensures Filter(me.received[box], From(src)) <= Filter(Filter(Pipe(me), From(src)), InBox(box))
  {
    FilterPrefix(me.delivered, Pipe(me), InBox(box));
    assert me.received[box] <= Filter(me.delivered, InBox(box));
    FilterPrefix(me.received[box], Filter(Pipe(me), InBox(box)), From(src));
    FilterSwap(Pipe(me), From(src), InBox(box));
  }

  /** Ordered delivery: the messages received from a mailbox that came from one machine are, in
      order and byte for byte, a subsequence of those that machine sent to that mailbox. */
  lemma ReceivedInOrder(nets: seq<Net>, steps: seq<Step>, nBoxes: nat, i: nat, a: Int32, src: Int32, box: nat)
    requires Run(nets, steps, nBoxes) && i < |nets| && a in nets[i] && src in nets[i] && box < nBoxes
    ensures |nets[i][a].received| == nBoxes
    ensures Subsequence(Filter(nets[i][a].received[box], From(src)),
                        Filter(Filter(nets[i][src].sent, To(a)), InBox(box)))
  {
    RunInv(nets, steps, nBoxes, i);
    assert OrderPart(nets[i], a, src) && BoxPart(nets[i][a], nBoxes);
    ReceivedOrdered(nets[i][a], nBoxes, Filter(nets[i][src].sent, To(a)), src, box);
  }

  lemma ReceivedOrdered(me: Machine, nBoxes: nat, sent: seq<Mail>, src: Int32, box: nat)
    requires BoxPart(me, nBoxes) && box < nBoxes && Subsequence(Filter(Pipe(me), From(src)), sent)
    ensures Subsequence(Filter(me.received[box], From(src)), Filter(sent, InBox(box)))
  {
    var got, all := Filter(me.received[box], From(src)), Filter(Filter(Pipe(me), From(src)), InBox(box));
    SubsequenceFilter(Filter(Pipe(me), From(src)), sent, InBox(box));
    ReceivedFirst(me, nBoxes, src, box);
    assert got == all[..|got|];
    SubsequencePrefix(all, Filter(sent, InBox(box)), |got|);
  }

  /** In every state of every run, for every machine: the signal count matches the inbox, so that the
      worker never takes from an empty one, and the mail it holds passes every check of Mail and of
      PostalDelivery, the mailbox number included. */
  lemma InboxMatchesSignal(nets: seq<Net>, steps: seq<Step>, nBoxes: nat, i: nat, a: Int32)
    requires Run(nets, steps, nBoxes) && i < |nets| && a in nets[i]
    ensures var me := nets[i][a];
      && me.available.value + (if me.worker == Taking then 1 else 0) == (if me.inHdr.length != 0 then 1 else 0)
      && (me.worker == Taking ==> me.inHdr.length != 0)
      && (me.worker.Putting? ==> WellFormed(ParseMail(me.worker.pkt, me.worker.buffer), nBoxes) && |me.boxes| == nBoxes)
  {
    RunInv(nets, steps, nBoxes, i);
    var me := nets[i][a];
    assert SignalPart(me) && BoxPart(me, nBoxes) && PacketPart(nets[i], a, nBoxes);
    if me.worker.Putting? {
      assert ParseMail(me.worker.pkt, me.worker.buffer) in Pipe(me);
    }
  }

  /** A poll finds the inbox free, so that no packet is overwritten, and what it puts there is for this
      machine and of a size CheckPktAvail allows. */
  lemma PollFindsRoom(nets: seq<Net>, steps: seq<Step>, nBoxes: nat, i: nat)
    requires Run(nets, steps, nBoxes) && i < |steps| && steps[i].Poll?
    ensures var a := steps[i].a;
      && a in nets[i] && nets[i][a].inHdr.length == 0
      && a in nets[i + 1] && nets[i + 1][a].inHdr.to == a && 0 < nets[i + 1][a].inHdr.length <= MAX_PACKET_SIZE
  {
    RunInv(nets, steps, nBoxes, i);
    assert Next(nets[i], nBoxes, steps[i], nets[i + 1]);
    assert PacketPart(nets[i], steps[i].a, nBoxes);
    PollLength(nets[i], nBoxes, steps[i].a);
  }

  // ---------------------------------------------------------------------------
  // Nothing but what Send lost goes missing

  // The messages of the Sends to machine a that were not lost, in the order they were sent.
  function Arrived(steps: seq<Step>, a: Int32): seq<Mail> {
    if steps == [] then []
    else
      var front, last := Arrived(steps[..|steps| - 1], a), steps[|steps| - 1];
      if last.Send? && last.to == a && !last.lost && |last.data| <= MAX_MAIL_SIZE
      then front + [Message(last.a, last.to, last.mail, last.data)]
      else front
  }

  lemma LocalPipe(net: Net, nBoxes: nat, step: Step, net': Net)
    requires Inv(net, nBoxes) && Next(net, nBoxes, step, net') && !step.Send?
    ensures SamePipes(net, net')
  {
    match step
    case Poll(a) => PollStep(net, nBoxes, a, net');
    case TryWait(a) => TryWaitStep(net, nBoxes, a, net');
    case Take(a) => TakeStep(net, nBoxes, a, net');
    case Put(a) => PutStep(net, nBoxes, a, net');
    case Receive(a, box) => ReceiveStep(net, nBoxes, a, box, net');
  }

  lemma ArrivedSnoc(steps: seq<Step>, step: Step, b: Int32)
    ensures Arrived(steps + [step], b) == Arrived(steps, b) + Arrived([step], b)
    ensures Arrived([step], b) == if step.Send? && step.to == b && !step.lost && |step.data| <= MAX_MAIL_SIZE
      then [Message(step.a, step.to, step.mail, step.data)] else []
  {
    assert (steps + [step])[..|steps|] == steps;
    assert [step][..0] == [];
  }

  lemma SendArrives(net: Net, nBoxes: nat, step: Step, net': Net, b: Int32)
    requires step.Send? && Next(net, nBoxes, step, net') && b in net
    ensures b in net' && Pipe(net'[b]) == Pipe(net[b]) + Arrived([step], b)
  {
    ArrivedSnoc([], step, b);
    SendPipe(net, nBoxes, step, net', b);
  }

  lemma NothingArrives(step: Step, pipe: seq<Mail>, b: Int32)
    requires !step.Send?
    ensures pipe + Arrived([step], b) == pipe
  {
    ArrivedSnoc([], step, b);
  }

  lemma NextPipe(net: Net, nBoxes: nat, step: Step, net': Net, b: Int32)
    requires Inv(net, nBoxes) && Next(net, nBoxes, step, net') && b in net
    ensures b in net' && Pipe(net'[b]) == Pipe(net[b]) + Arrived([step], b)
  {
    if step.Send? {
      SendArrives(net, nBoxes, step, net', b);
    } else {
      LocalPipe(net, nBoxes, step, net');
      NothingArrives(step, Pipe(net[b]), b);
    }
  }

  lemma RunPipe(nets: seq<Net>, steps: seq<Step>, nBoxes: nat, i: nat, a: Int32)
    requires Run(nets, steps, nBoxes) && i < |steps| && a in nets[i]
    ensures a in nets[i + 1] && Pipe(nets[i + 1][a]) == Pipe(nets[i][a]) + Arrived([steps[i]], a)
  {
    RunInv(nets, steps, nBoxes, i);
    NextPipe(nets[i], nBoxes, steps[i], nets[i + 1], a);
  }

  /** In every state of every run a machine has delivered, or has on its way to its mailboxes, exactly the
      messages sent to it that were not lost, in the order they were sent. */
  lemma {:induction false} PipeIsArrived(nets: seq<Net>, steps: seq<Step>, nBoxes: nat, i: nat, a: Int32)
    requires Run(nets, steps, nBoxes) && i < |nets| && a in nets[0]
    ensures a in nets[i] && Pipe(nets[i][a]) == Arrived(steps[..i], a)
  {
    if i > 0 {
      PipeIsArrived(nets, steps, nBoxes, i - 1, a);
      RunPipe(nets, steps, nBoxes, i - 1, a);
      assert steps[..i] == steps[..i - 1] + [steps[i - 1]];
      ArrivedSnoc(steps[..i - 1], steps[i - 1], a);
    }
  }

  /** What was received from a mailbox, what lies in it and what is on its way to it are together the messages for
      it that were not lost; once nothing is on its way, those are the received ones and those in the mailbox. */
  lemma NothingElseLost(nets: seq<Net>, steps: seq<Step>, nBoxes: nat, i: nat, a: Int32, box: nat)
    requires Run(nets, steps, nBoxes) && i < |nets| && a in nets[0] && box < nBoxes
    ensures a in nets[i] && |nets[i][a].boxes| == |nets[i][a].received| == nBoxes
    ensures nets[i][a].received[box] + nets[i][a].boxes[box] + Filter(Coming(nets[i][a]), InBox(box))
      == Filter(Arrived(steps[..i], a), InBox(box))
    ensures nets[i][a].sock == [] && nets[i][a].inHdr.length == 0 && nets[i][a].worker == Waiting ==>
      nets[i][a].received[box] + nets[i][a].boxes[box] == Filter(Arrived(steps[..i], a), InBox(box))
  {
    PipeIsArrived(nets, steps, nBoxes, i, a);
    RunInv(nets, steps, nBoxes, i);
    assert BoxPart(nets[i][a], nBoxes);
    FilterConcat(nets[i][a].delivered, Coming(nets[i][a]), InBox(box));
  }

  // The steps it takes to deliver all that is on its way.
  function Stages(me: Machine): nat {
    4 * |me.sock| + (if me.inHdr.length == 0 then 0 else if me.worker == Taking then 2 else 3)
    + (if me.worker.Putting? then 1 else 0)
  }

  // Something on its way moves one stage on.
  function MovesOn(me: Machine, a: Int32): Step {
    match me.worker
    case Putting(_, _) => Put(a)
    case Taking => Take(a)
    case Waiting => if me.inHdr.length != 0 then TryWait(a) else Poll(a)
  }

  lemma PutMoves(net: Net, nBoxes: nat, a: Int32) returns (net': Net)
    requires Inv(net, nBoxes) && a in net && net[a].worker.Putting?
    ensures Next(net, nBoxes, Put(a), net') && a in net' && Stages(net'[a]) < Stages(net[a])
  {
    var me := net[a];
    assert BoxPart(me, nBoxes) && PacketPart(net, a, nBoxes);
    var m := ParseMail(me.worker.pkt, me.worker.buffer);
    assert m in Pipe(me);
    net' := net[a := me.(boxes := me.boxes[m.mail.to := me.boxes[m.mail.to] + [m]],
                         delivered := me.delivered + [m], worker := Waiting)];
  }

  lemma TakeMoves(net: Net, nBoxes: nat, a: Int32) returns (net': Net)
    requires Inv(net, nBoxes) && a in net && net[a].worker == Taking
    ensures Next(net, nBoxes, Take(a), net') && a in net' && Stages(net'[a]) < Stages(net[a])
  {
    var me := net[a];
    assert SignalPart(me);
    net' := net[a := me.(worker := Putting(me.inHdr, me.inbox), inHdr := me.inHdr.(length := 0))];
  }

  lemma WaitMoves(net: Net, nBoxes: nat, a: Int32) returns (net': Net)
    requires Inv(net, nBoxes) && a in net && net[a].worker == Waiting && net[a].inHdr.length != 0
    ensures Next(net, nBoxes, TryWait(a), net') && a in net' && Stages(net'[a]) < Stages(net[a])
  {
    var me := net[a];
    assert SignalPart(me);
    net' := net[a := me.(available := TryP(me.available, WORKER).0, worker := Taking)];
  }

  lemma PollMoves(net: Net, nBoxes: nat, a: Int32) returns (net': Net)
    requires Inv(net, nBoxes) && a in net && net[a].worker == Waiting && net[a].inHdr.length == 0 && net[a].sock != []
    ensures Next(net, nBoxes, Poll(a), net') && a in net' && Stages(net'[a]) < Stages(net[a])
  {
    var me := net[a];
    assert PacketPart(net, a, nBoxes);
    PollLength(net, nBoxes, a);
    net' := net[a := me.(sock := me.sock[1..], inHdr := DecodeHeader(me.sock[0]), inbox := Payload(me.sock[0]),
                         available := V(me.available))];
  }

  /** Mail that is on its way never gets stuck: in every reachable state the machine's poll or its postal worker
      can take a step that brings the mail one stage nearer to the mailboxes. */
  lemma MailMoves(net: Net, nBoxes: nat, a: Int32) returns (net': Net)
    requires Inv(net, nBoxes) && a in net && Coming(net[a]) != []
    ensures Next(net, nBoxes, MovesOn(net[a], a), net')
    ensures a in net' && Stages(net'[a]) < Stages(net[a])
  {
    var me := net[a];
    match me.worker
    case Putting(_, _) => net' := PutMoves(net, nBoxes, a);
    case Taking => net' := TakeMoves(net, nBoxes, a);
    case Waiting =>
      if me.inHdr.length != 0 {
        net' := WaitMoves(net, nBoxes, a);
      } else {
        net' := PollMoves(net, nBoxes, a);
      }
  }
}
