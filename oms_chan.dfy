/** The serial channel of src/mqoms.c (struct _OmsChan) as an object whose
    methods update its fields in place. Each method is proved to do what
    the value-level functions of OmsSpec say; the ghost `trace` records
    what the channel does that is visible outside it, in order. */
module OmsChan {
  import opened Wrappers
  import opened OmnistatWire
  import opened CText
  import opened GListExtra
  import opened Timeval
  import opened OmsTypes
  import opened OmsSpec

  /** The frame oms_chan_dispatch assembles in its local buffer: address,
      length and command nibbles, the data bytes, and the byte sum. */
  method FrameBytes(m: Message) returns (frame: seq<byte>)
    requires m.Sendable()
    ensures frame == FrameOf(m)
  {
    var len := m.slength - 1;
    var pbuf := new byte[256];
    FillHead(m, pbuf);
    ghost var head := pbuf[..len + 2];
    StoreSum(pbuf, len + 2);
    frame := pbuf[..len + 3];
    assert frame == head + [Checksum(head)];
  }

  /** The head of the frame of m written at the start of pbuf: address,
      the length and command nibbles, then the memcpy of the data. */
  method FillHead(m: Message, pbuf: array<byte>)
    requires m.Sendable() && pbuf.Length == 256
    modifies pbuf
    ensures pbuf[..m.slength + 1] == FrameHead(m.nodeno, m.sdata[0], m.sdata[1..m.slength])
  {
    var len := m.slength - 1;
    ghost var data := m.sdata[1..m.slength];
    ghost var head := FrameHead(m.nodeno, m.sdata[0], data);
    assert |head| == len + 2 && head[0] == m.nodeno && head[1] == len * 16 + m.sdata[0] % 16;
    assert forall k :: 2 <= k < len + 2 ==> head[k] == data[k - 2] == m.sdata[k - 1];
    pbuf[0] := m.nodeno;
    pbuf[1] := len * 16 + m.sdata[0] % 16;
    var j := 0;
    while j < len
      invariant 0 <= j <= len
      invariant forall k :: 0 <= k < 2 + j ==> pbuf[k] == head[k]
    {
      pbuf[2 + j] := m.sdata[1 + j];
      j := j + 1;
    }
  }

  /** pbuf[n] becomes the byte sum of the n bytes before it, accumulated
      in place; those bytes are left as they were. */
  method StoreSum(pbuf: array<byte>, n: nat)
    requires n < pbuf.Length
    modifies pbuf
    ensures pbuf[..n] == old(pbuf[..n]) && pbuf[n] == Checksum(pbuf[..n])
  {
    pbuf[n] := 0;
    var i := 0;
    while i < n
      invariant 0 <= i <= n
      invariant pbuf[..n] == old(pbuf[..n])
      invariant pbuf[n] == Checksum(pbuf[..n][..i])
    {
      ChecksumStep(pbuf[..n], i);
      pbuf[n] := (pbuf[n] as int + pbuf[i]) % 256;
      i := i + 1;
    }
    assert pbuf[..n][..n] == pbuf[..n];
  }

  /** The end of per_minute_callback: the next whole minute after
      (tvSec, tvUsec), the timeval_subtract of the two, and the delay in
      milliseconds from the difference. */
  method MinuteDelay(tvSec: int, tvUsec: int) returns (delay: int)
    ensures delay == MinuteDelayMs(tvSec, tvUsec)
  {
    var now := new Timeval(tvSec, tvUsec);
    var next := new Timeval(tvSec + (60 - CRem(tvSec, 60)), 0);
    var delta := new Timeval(0, 0);
    var _ := Subtract(delta, next, now);
    delay := delta.sec * 1000 + CDiv(delta.usec, 1000) + 1;
  }

  /** The objects a read may change through the captured message. */
  ghost function Footprint(msg: Message?): set<object> {
    if msg == null then {} else {msg, msg.rbuf}
  }

  /** The reply side of the captured message; a read with no message
      touches no reply side. */
  ghost function RxOr(msg: Message?): Rx
    reads Footprint(msg)
    requires msg != null ==> msg.Wf()
  {
    if msg == null then Rx(0, 0, ZeroPacket) else msg.Reply()
  }

  /** One serial channel (struct _OmsChan). The timer is kept as whether a
      reply timeout is armed; the file descriptor and the verbose flags are
      not modelled. `msgId` and `lastHour` stand for the function-static
      counters of oms_chan_send_msg and per_minute_callback. */
  class Channel {
    var state: int
    var rcrc: byte
    var rlen: int
    var raddr: byte
    var rstatus: byte
    var sendq: seq<Message>
    var outstanding: Message?
    var timer: bool
    const timeout: nat
    const nodes: array<Node?>
    var msgId: nat
    var lastHour: int
    /** Frames written, handler calls, publications and register reports. */
    ghost var trace: seq<Event>

    ghost function Core(): Core
      reads this
    {
      OmsSpec.Core(state, rcrc, rlen, raddr, rstatus, sendq, outstanding, timer)
    }

    /** The node objects of the table. */
    ghost function NodeObjs(): set<Node>
      reads nodes
    {
      set i | 0 <= i < nodes.Length && nodes[i] != null :: nodes[i]
    }

    /** The state of every node in the table, by address. */
    ghost function NodeStates(): map<int, NodeState>
      reads this, nodes, NodeObjs()
    {
      map j | 0 <= j < nodes.Length && nodes[j] != null :: nodes[j].State()
    }

    ghost predicate Valid()
      reads this, nodes
    {
      nodes.Length == 128 && CoreInv(Core()) && msgId < GUINT_RANGE &&
      (forall i :: 0 <= i < 128 && nodes[i] != null ==> nodes[i].addr == i) &&
      (forall m :: m in sendq ==> m.Wf()) &&
      (outstanding != null ==> outstanding.Wf())
    }

    /** oms_chan_open once the port is set up: a zeroed channel with no
        nodes and a reply timeout of 1250 milliseconds. */
    constructor()
      ensures Valid() && fresh(nodes)
      ensures Core() == NewCore && timeout == DEFAULT_TIMEOUT && msgId == 0 && lastHour == -1
      ensures forall i :: 0 <= i < 128 ==> nodes[i] == null
      ensures trace == []
    {
      state, rcrc, rlen, raddr, rstatus := KCH_STATE_IDLE, 0, 0, 0, 0;
      sendq, outstanding, timer := [], null, false;
      timeout := 1250;
      nodes := new Node?[128](_ => null);
      msgId, lastHour := 0, -1;
      trace := [];
    }

    /** oms_chan_close, without the port: the reply timer is cancelled. */
    method Close()
      requires Valid()
      modifies this
      ensures Valid()
      ensures Core() == old(Core()).(timer := false)
      ensures trace == old(trace) && msgId == old(msgId) && lastHour == old(lastHour)
    {
      if timer {
        timer := false;
      }
    }

    /** oms_chan_add_node: addresses 1..127 only; a node already there is
        replaced by a fresh one. */
    method AddNode(addr: nat, name: string) returns (nd: Node?)
      requires Valid()
      modifies nodes
      ensures Valid()
      ensures addr == 0 || addr > 127 ==> nd == null && nodes[..] == old(nodes[..])
      ensures 0 < addr <= 127 ==>
        nd != null && fresh(nd) && nd.addr == addr && nd.name == name && nd.State() == ZeroNode &&
        nodes[..] == old(nodes[..])[addr := nd]
    {
      if addr <= 0 || addr > 127 {
        return null;
      }
      var a := addr % 128;
      nd := new Node(a, name);
      nodes[a] := nd;
    }

    /** oms_chan_dispatch. */
    method Dispatch()
      requires Valid()
      modifies this
      ensures Valid()
      ensures Core() == Dispatched(old(Core())).core
      ensures trace == old(trace) + Dispatched(old(Core())).events
      ensures msgId == old(msgId) && lastHour == old(lastHour)
    {
      DispatchKeepsInv(Core());
      if state != KCH_STATE_IDLE {
        return;
      }
      var d, q := Shift(sendq);
      sendq := q;
      if d.None? {
        return;
      }
      var m := d.value;
      if m.slength < 1 || m.slength > 16 {
        return;
      }
      var frame := FrameBytes(m);
      trace := trace + [Wrote(frame)];
      outstanding := m;
      state := KCH_STATE_RECV;
      timer := true;
    }

    /** oms_chan_clear, the reply timeout: go idle, cancel the timer, drop
        the outstanding message, and send the next one. */
    method Clear()
      requires Valid()
      modifies this
      ensures Valid()
      ensures Core() == Cleared(old(Core())).core
      ensures trace == old(trace) + Cleared(old(Core())).events
      ensures msgId == old(msgId) && lastHour == old(lastHour)
    {
      state := KCH_STATE_IDLE;
      if timer {
        timer := false;
      }
      if outstanding != null {
        outstanding := null;
      }
      Dispatch();
    }

    /** oms_chan_enqueue_msg: stamp, append, and dispatch when idle. */
    method Enqueue(msg: Message, now: int)
      requires Valid() && msg.Wf()
      modifies this, msg
      ensures Valid()
      ensures Core() == Enqueued(old(Core()), msg).core
      ensures trace == old(trace) + Enqueued(old(Core()), msg).events
      ensures msg.qtime == now && msg.rlength == old(msg.rlength) && msg.rstatus == old(msg.rstatus)
      ensures msgId == old(msgId) && lastHour == old(lastHour)
    {
      msg.qtime := now;
      sendq := sendq + [msg];
      if state == KCH_STATE_IDLE {
        Dispatch();
      }
    }
  
    /** oms_chan_send_msg: a new message with the next id, the address
        cut to seven bits, the command nibble, and at most 15 data bytes,
        enqueued. memcpy copies `slength` bytes, one more than the frame
        carries, so the caller's buffer must hold them. */
    method SendMsg(addr: int, scmd: int, sbuf: seq<byte>, sblen: int, now: int) returns (msg: Message)
      requires Valid()
      requires -0x8000_0000 <= sblen < 0x7fff_ffff
      requires sblen >= 1 ==> |sbuf| >= Min(sblen + 1, 16)
      modifies this
      ensures Valid() && fresh(msg) && msg.Wf()
      ensures msg.id == (old(msgId) + 1) % GUINT_RANGE && msgId == msg.id
      ensures msg.nodeno == addr % 128
      ensures sblen >= 0 ==> msg.Sendable() && msg.Req() == Request(addr % 128, scmd % 16, sbuf[..Min(sblen, 15)])
      ensures sblen < 0 ==> !msg.Sendable()
      ensures Core() == Enqueued(old(Core()), msg).core
      ensures trace == old(trace) + Enqueued(old(Core()), msg).events
      ensures lastHour == old(lastHour)
    {
      var slength := Min(sblen + 1, 16);
      msgId := (msgId + 1) % GUINT_RANGE;
      var sdata := SendData(scmd, sbuf, slength);
      msg := new Message(msgId, addr % 128, if slength < 0 then slength + GUINT_RANGE else slength, sdata);
      Enqueue(msg, now);
    }

    /** oms_chan_send_msg_getg: a group-1 read, with no data. */
    method SendGetg(addr: int, now: int) returns (msg: Message)
      requires Valid()
      modifies this
      ensures Valid() && fresh(msg) && msg.Wf() && msg.Sendable()
      ensures msg.Req() == Request(addr % 128, OMMT_GETG, [])
      ensures msgId == (old(msgId) + 1) % GUINT_RANGE
      ensures Core() == Enqueued(old(Core()), msg).core
      ensures trace == old(trace) + Enqueued(old(Core()), msg).events
      ensures lastHour == old(lastHour)
    {
      msg := SendMsg(addr, OMMT_GETG, [], 0, now);
    }

    /** oms_node_send_msg_getg. */
    method NodeSendGetg(nd: Node, now: int) returns (msg: Message)
      requires Valid()
      modifies this
      ensures Valid() && fresh(msg) && msg.Wf() && msg.Sendable()
      ensures msg.Req() == Request(nd.addr % 128, OMMT_GETG, [])
      ensures msgId == (old(msgId) + 1) % GUINT_RANGE
      ensures Core() == Enqueued(old(Core()), msg).core
      ensures trace == old(trace) + Enqueued(old(Core()), msg).events
      ensures lastHour == old(lastHour)
    {
      msg := SendGetg(nd.addr, now);
    }

    /** oms_node_send_msg_readregs: the start register and a count of at
        most 14. The stack buffer's third byte, copied but not sent, is
        taken as 0. */
    method ReadRegs(nd: Node, startreg: int, count: nat, now: int) returns (msg: Message)
      requires Valid()
      modifies this
      ensures Valid() && fresh(msg) && msg.Wf() && msg.Sendable()
      ensures msg.Req() == Request(nd.addr % 128, OMMT_GETREG, [startreg % 256, Min(count, 14)])
      ensures msgId == (old(msgId) + 1) % GUINT_RANGE
      ensures Core() == Enqueued(old(Core()), msg).core
      ensures trace == old(trace) + Enqueued(old(Core()), msg).events
      ensures lastHour == old(lastHour)
    {
      var n := if count > 14 then 14 else count;
      var sbuf: seq<byte> := [startreg % 256, n, 0, 0];
      msg := SendMsg(nd.addr, OMMT_GETREG, sbuf, 2, now);
      assert sbuf[..2] == [startreg % 256, n];
    }

    /** oms_node_send_msg_setregs: the start register then the values,
        `count` bytes in all, at most 15. */
    method SetRegs(nd: Node, sbuf: seq<byte>, count: nat, now: int) returns (msg: Message)
      requires Valid()
      requires count >= 1 ==> |sbuf| > Min(count, 15)
      modifies this
      ensures Valid() && fresh(msg) && msg.Wf() && msg.Sendable()
      ensures msg.Req() == Request(nd.addr % 128, OMMT_SETREG, sbuf[..Min(count, 15)])
      ensures msgId == (old(msgId) + 1) % GUINT_RANGE
      ensures Core() == Enqueued(old(Core()), msg).core
      ensures trace == old(trace) + Enqueued(old(Core()), msg).events
      ensures lastHour == old(lastHour)
    {
      var n := if count > 15 then 15 else count;
      msg := SendMsg(nd.addr, OMMT_SETREG, sbuf, n, now);
    }

    /** oms_node_set_clock for the local time `tm`: the day register, then
        the seconds, minutes and hours registers. The rest of the 16-byte
        stack buffer is taken as 0. */
    method SetClock(nd: Node, tm: Tm, now: int) returns (ghost sent: seq<Message>)
      requires Valid() && TmValid(tm)
      modifies this
      ensures Valid() && |sent| == 2 && forall i :: 0 <= i < 2 ==> fresh(sent[i]) && sent[i].Wf() && sent[i].Sendable()
      ensures Requests(sent) == ClockPair(tm)(nd)
      ensures msgId == (old(msgId) + 2) % GUINT_RANGE
      ensures Core() == EnqueueAll(old(Core()), sent).core
      ensures trace == old(trace) + EnqueueAll(old(Core()), sent).events
      ensures lastHour == old(lastHour)
    {
      ghost var c0, t0, id0 := Core(), trace, msgId;
      var m1 := SetDay(nd, tm, now);
      ghost var c1, t1 := Core(), trace;
      var m2 := SetTime(nd, tm, now);
      sent := [m1, m2];
      EnqueueTwo(c0, m1, m2, t0, c1, t1, Core(), trace);
      RequestsTwo(m1, m2);
      NextIdTwice(id0);
    }

    /** The first write of oms_node_set_clock: the day register. */
    method SetDay(nd: Node, tm: Tm, now: int) returns (msg: Message)
      requires Valid() && TmValid(tm)
      modifies this
      ensures Valid() && fresh(msg) && msg.Wf() && msg.Sendable()
      ensures msg.Req() == ClockPair(tm)(nd)[0]
      ensures msgId == (old(msgId) + 1) % GUINT_RANGE
      ensures Core() == Enqueued(old(Core()), msg).core
      ensures trace == old(trace) + Enqueued(old(Core()), msg).events
      ensures lastHour == old(lastHour)
    {
      var day := if tm.wday == 0 then 6 else tm.wday - 1;
      var sbuf: seq<byte> := [0x3a, day] + ZeroPacket[..14];
      assert sbuf[..2] == [0x3a, ThermostatDay(tm.wday)];
      msg := SetRegs(nd, sbuf, 2, now);
    }

    /** The second write of oms_node_set_clock: seconds, minutes, hours. */
    method SetTime(nd: Node, tm: Tm, now: int) returns (msg: Message)
      requires Valid() && TmValid(tm)
      modifies this
      ensures Valid() && fresh(msg) && msg.Wf() && msg.Sendable()
      ensures msg.Req() == ClockPair(tm)(nd)[1]
      ensures msgId == (old(msgId) + 1) % GUINT_RANGE
      ensures Core() == Enqueued(old(Core()), msg).core
      ensures trace == old(trace) + Enqueued(old(Core()), msg).events
      ensures lastHour == old(lastHour)
    {
      var sec := if tm.sec > 59 then 59 else tm.sec;
      var sbuf: seq<byte> := [0x41, sec, tm.min, tm.hour] + ZeroPacket[..12];
      assert sbuf[..4] == [0x41, sec, tm.min, tm.hour];
      msg := SetRegs(nd, sbuf, 4, now);
    }

    /** The two requests of a poll of one node (the body of the loop of
        oms_list_per_minute). */
    method PollNode(nd: Node, now: int) returns (ghost sent: seq<Message>)
      requires Valid()
      modifies this
      ensures Valid() && |sent| == 2 && forall i :: 0 <= i < 2 ==> fresh(sent[i]) && sent[i].Wf() && sent[i].Sendable()
      ensures Requests(sent) == PollPair(nd)
      ensures msgId == (old(msgId) + 2) % GUINT_RANGE
      ensures Core() == EnqueueAll(old(Core()), sent).core
      ensures trace == old(trace) + EnqueueAll(old(Core()), sent).events
      ensures lastHour == old(lastHour)
    {
      ghost var c0, t0, id0 := Core(), trace, msgId;
      var m1 := NodeSendGetg(nd, now);
      ghost var c1, t1 := Core(), trace;
      var m2 := ReadRegs(nd, 0x3b, 14, now);
      sent := [m1, m2];
      EnqueueTwo(c0, m1, m2, t0, c1, t1, Core(), trace);
      RequestsTwo(m1, m2);
      NextIdTwice(id0);
    }

    /** The nodes below address i have been asked for their requests under
        `each`: `sent` makes the start of `total`, the rest follows from i,
        and the channel is where enqueueing `sent` from c0 leaves it. */
    ghost predicate Listed(i: nat, each: Node -> seq<Request>, total: seq<Request>,
                           c0: Core, t0: seq<Event>, sent: seq<Message>)
      reads this, nodes
    {
      i <= nodes.Length && (forall k :: 0 <= k < |sent| ==> sent[k].Sendable()) &&
      Requests(sent) + NodeRequests(nodes[..], i, each) == total &&
      Core() == EnqueueAll(c0, sent).core && trace == t0 + EnqueueAll(c0, sent).events
    }

    /** The body of the loop of oms_list_per_minute at address i. */
    method PollAt(i: nat, now: int, ghost c0: Core, ghost t0: seq<Event>, ghost sent: seq<Message>)
      returns (ghost sent1: seq<Message>)
      requires Valid() && i < 128 && Listed(i, PollPair, PollRequests(nodes[..]), c0, t0, sent)
      modifies this
      ensures Valid() && lastHour == old(lastHour)
      ensures Listed(i + 1, PollPair, PollRequests(nodes[..]), c0, t0, sent1)
    {
      if nodes[i] != null {
        ghost var c1, t1 := Core(), trace;
        ghost var pair := PollNode(nodes[i], now);
        EnqueueAllStep(c0, sent, pair, t0, c1, t1, Core(), trace);
        NodeRequestsStep(nodes[..], i, PollPair, sent, pair, PollRequests(nodes[..]));
        sent1 := sent + pair;
      } else {
        NodeRequestsStep(nodes[..], i, PollPair, sent, [], PollRequests(nodes[..]));
        assert sent + [] == sent;
        sent1 := sent;
      }
    }

    /** oms_list_per_minute: a group-1 read and a status-block read for
        each known node at addresses 1..127, in address order. */
    method ListPerMinute(now: int) returns (ghost sent: seq<Message>)
      requires Valid()
      modifies this
      ensures Valid()
      ensures (forall i :: 0 <= i < |sent| ==> sent[i].Sendable()) && Requests(sent) == PollRequests(nodes[..])
      ensures Core() == EnqueueAll(old(Core()), sent).core
      ensures trace == old(trace) + EnqueueAll(old(Core()), sent).events
      ensures lastHour == old(lastHour)
    {
      ghost var c0, t0 := Core(), trace;
      sent := [];
      var i := 1;
      while i < 128
        invariant 1 <= i <= 128 && Valid() && lastHour == old(lastHour)
        invariant Listed(i, PollPair, PollRequests(nodes[..]), c0, t0, sent)
      {
        sent := PollAt(i, now, c0, t0, sent);
        i := i + 1;
      }
    }

    /** The body of the loop of oms_list_per_hour at address i. */
    method ClockAt(i: nat, tm: Tm, now: int, ghost c0: Core, ghost t0: seq<Event>, ghost sent: seq<Message>)
      returns (ghost sent1: seq<Message>)
      requires Valid() && TmValid(tm) && i < 128 && Listed(i, ClockPair(tm), ClockRequests(nodes[..], tm), c0, t0, sent)
      modifies this
      ensures Valid() && lastHour == old(lastHour)
      ensures Listed(i + 1, ClockPair(tm), ClockRequests(nodes[..], tm), c0, t0, sent1)
    {
      if nodes[i] != null {
        ghost var c1, t1 := Core(), trace;
        ghost var pair := SetClock(nodes[i], tm, now);
        EnqueueAllStep(c0, sent, pair, t0, c1, t1, Core(), trace);
        NodeRequestsStep(nodes[..], i, ClockPair(tm), sent, pair, ClockRequests(nodes[..], tm));
        sent1 := sent + pair;
      } else {
        NodeRequestsStep(nodes[..], i, ClockPair(tm), sent, [], ClockRequests(nodes[..], tm));
        assert sent + [] == sent;
        sent1 := sent;
      }
    }

    /** oms_list_per_hour: set the clock of each known node at addresses
        1..127, in address order. */
    method ListPerHour(tm: Tm, now: int) returns (ghost sent: seq<Message>)
      requires Valid() && TmValid(tm)
      modifies this
      ensures Valid()
      ensures (forall i :: 0 <= i < |sent| ==> sent[i].Sendable()) && Requests(sent) == ClockRequests(nodes[..], tm)
      ensures Core() == EnqueueAll(old(Core()), sent).core
      ensures trace == old(trace) + EnqueueAll(old(Core()), sent).events
      ensures lastHour == old(lastHour)
    {
      ghost var c0, t0 := Core(), trace;
      sent := [];
      var i := 1;
      while i < 128
        invariant 1 <= i <= 128 && Valid() && lastHour == old(lastHour)
        invariant Listed(i, ClockPair(tm), ClockRequests(nodes[..], tm), c0, t0, sent)
      {
        sent := ClockAt(i, tm, now, c0, t0, sent);
        i := i + 1;
      }
    }

    /** per_minute_callback at wall-clock time (tvSec, tvUsec), whose local
        time is `tm`: poll every known node when `data` is set, set every
        clock when the hour differs from the last seen, and return the
        delay in milliseconds for the next timer, one past the next whole
        minute. */
    method PerMinuteCallback(data: bool, tvSec: int, tvUsec: int, tm: Tm, now: int)
      returns (delay: int, ghost sent: seq<Message>)
      requires Valid() && TmValid(tm)
      modifies this
      ensures Valid() && lastHour == tm.hour
      ensures delay == MinuteDelayMs(tvSec, tvUsec)
      ensures forall i :: 0 <= i < |sent| ==> sent[i].Sendable()
      ensures Requests(sent) ==
        (if data then PollRequests(nodes[..]) else []) +
        (if tm.hour != old(lastHour) then ClockRequests(nodes[..], tm) else [])
      ensures Core() == EnqueueAll(old(Core()), sent).core
      ensures trace == old(trace) + EnqueueAll(old(Core()), sent).events
    {
      ghost var c0, t0 := Core(), trace;
      ghost var polled: seq<Message> := [];
      if data {
        polled := ListPerMinute(now);
      }
      ghost var c1, t1 := Core(), trace;
      ghost var clocked: seq<Message> := [];
      if tm.hour != lastHour {
        lastHour := tm.hour;
        clocked := ListPerHour(tm, now);
      }
      assert nodes[..] == old(nodes[..]);
      EnqueueAllStep(c0, polled, clocked, t0, c1, t1, Core(), trace);
      RequestsConcat(polled, clocked);
      sent := polled + clocked;
      delay := MinuteDelay(tvSec, tvUsec);
    }

    /** oms_nd_regdata: the value is reported; the code only logs it. */
    method NdRegdata(nd: Node, regaddr: int, val: byte)
      requires Valid()
      modifies this
      ensures Valid() && Core() == old(Core()) && msgId == old(msgId) && lastHour == old(lastHour)
      ensures trace == old(trace) + [RegData(nd.addr, regaddr, val)]
    {
      trace := trace + [RegData(nd.addr, regaddr, val)];
    }

    /** oms_chan_reply_regdata: a report per value after the start
        register, numbered from it; a reply with fewer than two bytes
        reports nothing. */
    method ReplyRegdata(nd: Node, msg: Message)
      requires Valid() && msg.Wf()
      modifies this
      ensures Valid() && Core() == old(Core()) && msgId == old(msgId) && lastHour == old(lastHour)
      ensures trace == old(trace) + RegdataEvents(nd.addr, msg.Reply())
    {
      ghost var evs := RegdataEvents(nd.addr, msg.Reply());
      if msg.rlength < 2 {
        assert evs == [];
        return;
      }
      var startreg := msg.rbuf[0];
      var i := 0;
      while i < msg.rlength - 1
        invariant 0 <= i <= msg.rlength - 1 && |evs| == msg.rlength - 1
        invariant Valid() && Core() == old(Core()) && msgId == old(msgId) && lastHour == old(lastHour)
        invariant trace == old(trace) + evs[..i]
      {
        NdRegdata(nd, startreg + i, msg.rbuf[i + 1]);
        assert evs[..i + 1] == evs[..i] + [evs[i]];
        i := i + 1;
      }
      assert evs[..i] == evs;
    }

    /** oms_chan_reply_getg: a six-byte reply sets the setpoints, mode, fan
        mode, hold and current temperature of the node and publishes the
        current temperature; any other length changes nothing. */
    method ReplyGetg(nd: Node, msg: Message)
      requires Valid() && msg.Wf()
      modifies this, nd
      ensures Valid() && Core() == old(Core()) && msgId == old(msgId) && lastHour == old(lastHour)
      ensures trace == old(trace) + GetgEvents(nd.name, msg.Reply())
      ensures nd.State() == if msg.rlength != 6 then old(nd.State()) else
        old(nd.State()).(coolRaw := msg.rbuf[0], heatRaw := msg.rbuf[1], mode := msg.rbuf[2],
                         fanmode := msg.rbuf[3], hold := msg.rbuf[4], curRaw := msg.rbuf[5])
    {
      if msg.rlength != 6 {
        return;
      }
      nd.coolRaw := msg.rbuf[0];
      nd.heatRaw := msg.rbuf[1];
      nd.mode := msg.rbuf[2];
      nd.fanmode := msg.rbuf[3];
      nd.hold := msg.rbuf[4];
      nd.curRaw := msg.rbuf[5];
      trace := trace + [Published(Topic(nd.name), msg.rbuf[5])];
    }

    /** The good-reply branch of oms_chan_reply_handler for the known node
        `nd` the reply came from: stamp the reply time, then route by the
        status nibble. */
    method Route(nd: Node, msg: Message, now: int)
      requires Valid() && msg.Wf() && nodes[msg.nodeno] == nd
      modifies this, nd
      ensures Valid() && Core() == old(Core()) && msgId == old(msgId) && lastHour == old(lastHour)
      ensures trace == old(trace) + HandlerEvents(nodes[..], msg, KE_NOERROR, msg.Reply())
      ensures nd.State() == ApplyEvent(old(nd.State()), msg.nodeno, Handled(msg, KE_NOERROR, msg.Reply()), now)
    {
      var mt := msg.rstatus % 16;
      nd.lastResp := now;
      if mt == OMMS_DATA {
        ReplyRegdata(nd, msg);
      } else if mt == OMMS_GRP1 {
        ReplyGetg(nd, msg);
      }
    }

    /** oms_chan_reply_handler, including the call itself in the trace: a
        good reply to a known node stamps the reply time `now` and is routed
        by its status nibble. */
    method ReplyHandler(msg: Message, err: nat, now: int)
      requires Valid() && msg.Wf()
      modifies this, NodeObjs()
      ensures Valid() && Core() == old(Core()) && msgId == old(msgId) && lastHour == old(lastHour)
      ensures trace == old(trace) + Effect(Handler(nodes[..]), Handled(msg, err, msg.Reply()))
      ensures forall j :: 0 <= j < 128 && nodes[j] != null ==>
        nodes[j].State() == ApplyEvent(old(nodes[j].State()), j, Handled(msg, err, msg.Reply()), now)
    {
      ghost var h := Handled(msg, err, msg.Reply());
      assert Effect(Handler(nodes[..]), h) == [h] + HandlerEvents(nodes[..], msg, err, msg.Reply());
      trace := trace + [h];
      if err == KE_NOERROR && nodes[msg.nodeno] != null {
        var nd := nodes[msg.nodeno];
        Route(nd, msg, now);
        assert forall j :: 0 <= j < 128 && nodes[j] != null && j != msg.nodeno ==> nodes[j] != nd;
      }
    }


    /** One byte of the loop of oms_chan_recv, with `msg` the message
        captured when the read began. */
    method StepByte(msg: Message?, b: byte, now: int)
      requires Valid() && (msg != null ==> msg.Wf())
      requires msg == null ==> state == KCH_STATE_IDLE && b != FLAG_BYTE
      requires msg != null ==> outstanding != null
      modifies this, Footprint(msg), NodeObjs()
      ensures Valid() && msgId == old(msgId) && lastHour == old(lastHour)
      ensures msg != null ==> outstanding != null
      ensures var r := Step(old(Core()), msg, old(RxOr(msg)), b);
        Core() == r.core && RxOr(msg) == r.rx &&
        trace == old(trace) + Effects(Handler(nodes[..]), r.events) &&
        NodeStates() == Advance(old(NodeStates()), r.events, now)
    {
      if state == KCH_STATE_CKSUM && msg != null {
        StepFinal(msg, b, now);
      } else {
        ghost var ns := NodeStates();
        StepQuiet(msg, b);
        assert nodes[..] == old(nodes[..]);
        assert NodeStates() == ns == Advance(ns, [], now);
      }
    }

    /** The bytes that complete no reply: every state but the checksum
        state with a captured message. */
    method StepQuiet(msg: Message?, b: byte)
      requires Valid() && (msg != null ==> msg.Wf())
      requires msg == null ==> state == KCH_STATE_IDLE && b != FLAG_BYTE
      requires msg != null ==> outstanding != null
      requires state == KCH_STATE_CKSUM ==> msg == null
      modifies this, Footprint(msg)
      ensures Valid() && msgId == old(msgId) && lastHour == old(lastHour) && trace == old(trace)
      ensures msg != null ==> outstanding != null
      ensures var r := Step(old(Core()), msg, old(RxOr(msg)), b);
        Core() == r.core && RxOr(msg) == r.rx && r.events == []
    {
      StepKeepsInv(Core(), msg, RxOr(msg), b);
      if state == KCH_STATE_IDLE {
        if b == FLAG_BYTE {
          state := KCH_STATE_TYPE;
          rcrc := 0xff;
          raddr := 0;
        }
      } else if state == KCH_STATE_RECV {
        rcrc := b;
        raddr := b;
        state := KCH_STATE_TYPE;
      } else if state == KCH_STATE_TYPE {
        StepType(msg, b);
      } else if state == KCH_STATE_DATA {
        StepData(msg, b);
      }
    }

    /** The status byte: length and status nibbles, the reply side reset. */
    method StepType(msg: Message, b: byte)
      requires Valid() && msg.Wf() && outstanding != null && state == KCH_STATE_TYPE
      modifies this, msg
      ensures Valid() && msgId == old(msgId) && lastHour == old(lastHour) && trace == old(trace)
      ensures outstanding != null
      ensures var r := Step(old(Core()), msg, old(msg.Reply()), b);
        Core() == r.core && msg.Reply() == r.rx && r.events == []
    {
      rcrc := (rcrc as int + b) % 256;
      rlen := b / 16;
      rstatus := b % 16;
      msg.rstatus := rstatus;
      msg.rlength := 0;
      if rlen == 0 {
        state := KCH_STATE_CKSUM;
      } else {
        state := KCH_STATE_DATA;
      }
    }

    /** A data byte, stored while the reply buffer has room. */
    method StepData(msg: Message?, b: byte)
      requires Valid() && (msg != null ==> msg.Wf() && outstanding != null) && state == KCH_STATE_DATA
      modifies this, Footprint(msg)
      ensures Valid() && msgId == old(msgId) && lastHour == old(lastHour) && trace == old(trace)
      ensures msg != null ==> outstanding != null
      ensures var r := Step(old(Core()), msg, old(RxOr(msg)), b);
        Core() == r.core && RxOr(msg) == r.rx && r.events == []
    {
      rcrc := (rcrc as int + b) % 256;
      if msg != null && msg.rlength < OMNS_PKT_MAX {
        msg.rbuf[msg.rlength] := b;
        msg.rlength := msg.rlength + 1;
      }
      rlen := rlen - 1;
      if rlen <= 0 {
        state := KCH_STATE_CKSUM;
      }
    }

    /** The checksum byte of a reply to the captured message: classify, go
        idle, cancel the timer, dispatch the next message, then call the
        handler. */
    method StepChecksum(msg: Message, b: byte, now: int)
      requires Valid() && msg.Wf() && outstanding != null && state == KCH_STATE_CKSUM
      modifies this, NodeObjs()
      ensures Valid() && msgId == old(msgId) && lastHour == old(lastHour)
      ensures outstanding != null
      ensures var r := Complete(old(Core()), msg, msg.Reply(), b);
        Step(old(Core()), msg, msg.Reply(), b) == r &&
        Core() == r.core && trace == old(trace) + Effects(Handler(nodes[..]), r.events) &&
        forall j :: 0 <= j < 128 && nodes[j] != null ==>
          nodes[j].State() == NodeAfter(old(nodes[j].State()), j, r.events, now)
    {
      ghost var c0, rx, t0 := Core(), msg.Reply(), trace;
      StepKeepsInv(c0, msg, rx, b);
      state := KCH_STATE_IDLE;
      var err := Classify(rcrc, rstatus, raddr, msg.nodeno, b);
      if timer {
        timer := false;
      }
      assert Core() == c0.(state := KCH_STATE_IDLE, timer := false);
      ghost var de := Dispatched(Core()).events;
      Dispatch();
      ghost var c1 := Core();
      assert forall j :: 0 <= j < 128 && nodes[j] != null ==> nodes[j].State() == old(nodes[j].State());
      ReplyHandler(msg, err, now);
      assert nodes[..] == old(nodes[..]) && msg.Reply() == rx;
      CompleteTrace(Handler(nodes[..]), c0, msg, rx, b, t0, c1, de, trace);
      forall j | 0 <= j < 128 && nodes[j] != null
        ensures nodes[j].State() == NodeAfter(old(nodes[j].State()), j, Complete(c0, msg, rx, b).events, now)
      {
        NodeAfterComplete(old(nodes[j].State()), j, c0, msg, rx, b, now);
      }
    }

    /** The checksum byte, with the node updates stated on the whole table. */
    method StepFinal(msg: Message, b: byte, now: int)
      requires Valid() && msg.Wf() && outstanding != null && state == KCH_STATE_CKSUM
      modifies this, NodeObjs()
      ensures Valid() && msgId == old(msgId) && lastHour == old(lastHour)
      ensures outstanding != null
      ensures var r := Complete(old(Core()), msg, msg.Reply(), b);
        Step(old(Core()), msg, msg.Reply(), b) == r &&
        Core() == r.core && trace == old(trace) + Effects(Handler(nodes[..]), r.events) &&
        NodeStates() == Advance(old(NodeStates()), r.events, now)
    {
      ghost var ns, evs := NodeStates(), Complete(Core(), msg, msg.Reply(), b).events;
      StepChecksum(msg, b, now);
      ghost var ns1 := NodeStates();
      forall j | j in ns1
        ensures j in ns && ns1[j] == NodeAfter(ns[j], j, evs, now)
      {
        assert nodes[j] == old(nodes[j]);
      }
      assert ns.Keys == ns1.Keys;
      AdvanceFrom(ns, ns1, evs, now);
    }

    /** The channel has reached run `r` of the receive machine, from trace
        t0 and node states ns0: its state, the message's reply side, the
        trace and every node agree with the run. */
    ghost predicate Reached(msg: Message?, r: Run, now: int, t0: seq<Event>, ns0: map<int, NodeState>)
      reads this, nodes, NodeObjs(), Footprint(msg)
    {
      (msg == null || msg.Wf()) &&
      Core() == r.core && RxOr(msg) == r.rx && trace == t0 + Effects(Handler(nodes[..]), r.events) &&
      NodeStates() == Advance(ns0, r.events, now)
    }

    /** The body of the receive loop: one byte through the machine. */
    method FeedByte(msg: Message?, bytes: seq<byte>, i: nat, now: int,
                    ghost c0: Core, ghost rx0: Rx, ghost t0: seq<Event>, ghost ns0: map<int, NodeState>)
      returns (next: nat)
      requires Valid() && i < |bytes|
      requires msg == null ==> c0.state == KCH_STATE_IDLE && FLAG_BYTE !in bytes
      requires msg != null ==> outstanding != null && msg.Wf()
      requires msg == null ==> FLAG_BYTE !in bytes[..i]
      requires Reached(msg, Feed(c0, msg, rx0, bytes[..i]), now, t0, ns0)
      modifies this, Footprint(msg), NodeObjs()
      ensures Valid() && msgId == old(msgId) && lastHour == old(lastHour)
      ensures msg != null ==> outstanding != null
      ensures next == i + 1
      ensures msg == null ==> FLAG_BYTE !in bytes[..next]
      ensures Reached(msg, Feed(c0, msg, rx0, bytes[..next]), now, t0, ns0)
    {
      ghost var r0 := Feed(c0, msg, rx0, bytes[..i]);
      ghost var t1 := trace;
      ghost var react := Handler(nodes[..]);
      assert msg == null ==> bytes[i] in bytes;
      StepByte(msg, bytes[i], now);
      assert nodes[..] == old(nodes[..]);
      ghost var r1 := Step(r0.core, msg, r0.rx, bytes[i]);
      FeedTrace(react, c0, msg, rx0, bytes, i, t0, t1, trace);
      ghost var r2 := Feed(c0, msg, rx0, bytes[..i + 1]);
      assert r2.events == r0.events + r1.events;
      assert Core() == r2.core && RxOr(msg) == r2.rx;
      assert trace == t0 + Effects(Handler(nodes[..]), r2.events);
      AdvanceConcat(ns0, r0.events, r1.events, now);
      next := i + 1;
    }

    /** oms_chan_recv for the bytes of one read. The message outstanding
        when the read begins is the one every reply in it is handed to;
        with none outstanding a frame flag would make the code dereference
        the missing message, so such a read is excluded. */
    method Recv(bytes: seq<byte>, now: int)
      requires Valid()
      requires outstanding == null ==> FLAG_BYTE !in bytes
      modifies this, Footprint(outstanding), NodeObjs()
      ensures Valid() && msgId == old(msgId) && lastHour == old(lastHour)
      ensures var r := Feed(old(Core()), old(outstanding), old(RxOr(outstanding)), bytes);
        Core() == r.core && RxOr(old(outstanding)) == r.rx &&
        trace == old(trace) + Effects(Handler(nodes[..]), r.events) &&
        forall j :: 0 <= j < 128 && nodes[j] != null ==>
          nodes[j].State() == NodeAfter(old(nodes[j].State()), j, r.events, now)
    {
      var msg := outstanding;
      ghost var c0, rx0, t0 := Core(), RxOr(msg), trace;
      ghost var ns0 := NodeStates();
      assert Advance(ns0, [], now) == ns0;
      var i := 0;
      while i < |bytes|
        invariant 0 <= i <= |bytes|
        invariant Valid() && msgId == old(msgId) && lastHour == old(lastHour)
        invariant msg == null ==> FLAG_BYTE !in bytes[..i]
        invariant msg != null ==> outstanding != null
        invariant Reached(msg, Feed(c0, msg, rx0, bytes[..i]), now, t0, ns0)
        invariant NodeObjs() == old(NodeObjs()) && nodes[..] == old(nodes[..])
      {
        i := FeedByte(msg, bytes, i, now, c0, rx0, t0, ns0);
      }
      assert bytes[..i] == bytes;
      ghost var evs := Feed(c0, msg, rx0, bytes).events;
      forall j | 0 <= j < 128 && nodes[j] != null
        ensures nodes[j].State() == NodeAfter(old(nodes[j].State()), j, evs, now)
      {
        assert NodeStates()[j] == Advance(ns0, evs, now)[j];
      }
    }
  }

  /** Each node state of `ns` after the run of events `evs`. */
  ghost function Advance(ns: map<int, NodeState>, evs: seq<Event>, now: int): map<int, NodeState> {
    map j | j in ns :: NodeAfter(ns[j], j, evs, now)
  }

  /** A table whose every node is its predecessor advanced by `evs`. */
  lemma AdvanceFrom(before: map<int, NodeState>, after: map<int, NodeState>, evs: seq<Event>, now: int)
    requires before.Keys == after.Keys
    requires forall j :: j in after ==> after[j] == NodeAfter(before[j], j, evs, now)
    ensures after == Advance(before, evs, now)
  {
  }

  /** Advancing by two runs in turn is advancing by their concatenation. */
  lemma AdvanceConcat(ns: map<int, NodeState>, a: seq<Event>, b: seq<Event>, now: int)
    ensures Advance(Advance(ns, a, now), b, now) == Advance(ns, a + b, now)
  {
    forall j | j in ns
      ensures NodeAfter(NodeAfter(ns[j], j, a, now), j, b, now) == NodeAfter(ns[j], j, a + b, now)
    {
      NodeAfterConcat(ns[j], j, a, b, now);
    }
  }

  /** Two message ids taken in a row, with the wrap of a guint. */
  lemma NextIdTwice(id: nat)
    ensures ((id + 1) % GUINT_RANGE + 1) % GUINT_RANGE == (id + 2) % GUINT_RANGE
  {
  }

  /** One more byte of a read fed: the run grows by the byte's step, and
      the trace by that step's effects. */
  lemma FeedTrace(react: Reaction, c: Core, msg: Message?, rx: Rx, bytes: seq<byte>, i: nat,
                  t0: seq<Event>, t1: seq<Event>, t2: seq<Event>)
    requires i < |bytes|
    requires msg == null ==> c.state == KCH_STATE_IDLE && FLAG_BYTE !in bytes
    requires msg == null ==> FLAG_BYTE !in bytes[..i]
    requires t1 == t0 + Effects(react, Feed(c, msg, rx, bytes[..i]).events)
    requires msg == null ==> bytes[i] != FLAG_BYTE
    requires t2 == t1 + Effects(react, Step(Feed(c, msg, rx, bytes[..i]).core, msg, Feed(c, msg, rx, bytes[..i]).rx, bytes[i]).events)
    ensures msg == null ==> FLAG_BYTE !in bytes[..i + 1]
    ensures var r0 := Feed(c, msg, rx, bytes[..i]);
      var r1 := Step(r0.core, msg, r0.rx, bytes[i]);
      Feed(c, msg, rx, bytes[..i + 1]) == Run(r1.core, r1.rx, r0.events + r1.events) &&
      t2 == t0 + Effects(react, Feed(c, msg, rx, bytes[..i + 1]).events)
  {
    var s, x := bytes[..i], bytes[i];
    assert bytes[..i + 1] == s + [x];
    var r0 := Feed(c, msg, rx, s);
    var r1 := Step(r0.core, msg, r0.rx, x);
    FeedSnoc(c, msg, rx, s, x);
    EffectsConcat(react, r0.events, r1.events);
    AppendAssoc(t0, Effects(react, r0.events), Effects(react, r1.events));
  }

  /** A checksum byte completes the reply: the state dispatch leaves is
      the run's, and the trace is what dispatch wrote followed by the
      handler's call with its own events. */
  lemma CompleteTrace(react: Reaction, c: Core, msg: Message, rx: Rx, k: byte,
                      t0: seq<Event>, c1: Core, de: seq<Event>, t: seq<Event>)
    requires c.state == KCH_STATE_CKSUM
    requires c1 == Dispatched(c.(state := KCH_STATE_IDLE, timer := false)).core
    requires de == Dispatched(c.(state := KCH_STATE_IDLE, timer := false)).events
    requires t == t0 + de + Effect(react, Handled(msg, Classify(c.rcrc, c.rstatus, c.raddr, msg.nodeno, k), rx))
    ensures var r := Complete(c, msg, rx, k);
      Step(c, msg, rx, k) == r && c1 == r.core && t == t0 + Effects(react, r.events)
  {
    var err := Classify(c.rcrc, c.rstatus, c.raddr, msg.nodeno, k);
    StepAtChecksum(c, msg, rx, k);
    EffectsOfComplete(react, c, msg, rx, k);
    assert Effect(react, Handled(msg, err, rx)) == [Handled(msg, err, rx)] + react(msg, err, rx);
    AppendAssoc(t0, de, [Handled(msg, err, rx)] + react(msg, err, rx));
    AppendAssoc(de, [Handled(msg, err, rx)], react(msg, err, rx));
  }

  /** The send buffer of a new message: the command nibble, the `slength`
      bytes memcpy copies when there is more than the command, and the
      zeros of g_new0. */
  function SendData(scmd: int, sbuf: seq<byte>, slength: int): (d: Packet)
    requires slength <= 16 && (slength > 1 ==> |sbuf| >= slength)
    ensures d[0] == scmd % 16
    ensures 1 <= slength ==> d[1..slength] == sbuf[..slength - 1]
  {
    var body := if slength > 1 then sbuf[..slength] else [];
    var d: Packet := [scmd % 16] + body + ZeroPacket[..17 - |body|];
    assert d[1..|body| + 1] == body;
    d
  }

  function Min(a: int, b: int): (m: int)
    ensures m <= a && m <= b && (m == a || m == b)
  {
    if a < b then a else b
  }
}
