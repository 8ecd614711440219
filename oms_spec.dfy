/** The channel engine of src/mqoms.c as values: framing, the send queue
    with one message on the wire at a time, the reply timeout, and the
    byte-at-a-time receive machine with the reply handler's effects. The
    Channel class (OmsChan) is proved to follow these functions. */
module OmsSpec {
  import opened Wrappers
  import opened OmnistatWire
  import opened OmsTypes
  import opened GListExtra

  // ----- framing -----

  /** The frame checksum: the byte sum, kept in an unsigned char. */
  function Checksum(s: seq<byte>): byte {
    if s == [] then 0 else (Checksum(s[..|s| - 1]) + s[|s| - 1]) % 256
  }

  lemma ChecksumSnoc(s: seq<byte>, x: byte)
    ensures Checksum(s + [x]) == (Checksum(s) + x) % 256
  {
    assert (s + [x])[..|s|] == s;
  }

  /** The running checksum over one more byte of s. */
  lemma ChecksumStep(s: seq<byte>, i: nat)
    requires i < |s|
    ensures Checksum(s[..i + 1]) == (Checksum(s[..i]) + s[i]) % 256
  {
    assert s[..i + 1] == s[..i] + [s[i]];
    ChecksumSnoc(s[..i], s[i]);
  }

  /** A frame on the wire: address, then the data length in the high nibble
      and the command or status in the low nibble, the data, and the
      checksum of everything before it. */
  function Frame(addr: byte, cmd: byte, data: seq<byte>): (f: seq<byte>)
    requires |data| < 16
  {
    var head := FrameHead(addr, cmd, data);
    head + [Checksum(head)]
  }

  /** A frame without its checksum. */
  function FrameHead(addr: byte, cmd: byte, data: seq<byte>): seq<byte>
    requires |data| < 16
  {
    var lc: byte := |data| * 16 + cmd % 16;
    [addr, lc] + data
  }

  /** The frame oms_chan_dispatch builds for a message: the command byte
      is not counted in the length nibble. */
  function FrameOf(m: Message): seq<byte>
    requires m.Sendable()
  {
    Frame(m.nodeno, m.sdata[0], m.sdata[1..m.slength])
  }

  /** A frame is three bytes longer than its data, carries the length and
      command nibbles in its second byte, and ends with its checksum; the
      frame of a message is one byte longer than the message. */
  lemma FrameLayout(m: Message)
    requires m.Sendable()
    ensures var f := FrameOf(m); var len := m.slength - 1;
      |f| == m.slength + 2 && f[0] == m.nodeno &&
      f[1] / 16 == len && f[1] % 16 == m.sdata[0] % 16 &&
      f[2..len + 2] == m.sdata[1..m.slength] &&
      f[len + 2] == Checksum(f[..len + 2])
  {
    var len := m.slength - 1;
    var f := FrameOf(m);
    var head := FrameHead(m.nodeno, m.sdata[0], m.sdata[1..m.slength]);
    assert f == head + [Checksum(head)];
    assert f[..len + 2] == head;
  }

  // ----- the channel's state -----

  /** The fields of an OmsChan that the engine updates: receive state,
      running checksum, bytes still to read, reply address and status, the
      send queue, the message awaiting a reply, and whether a reply timer
      is armed. */
  datatype Core = Core(state: int, rcrc: byte, rlen: int, raddr: byte, rstatus: byte,
                       sendq: seq<Message>, outstanding: Message?, timer: bool)

  /** A channel as oms_chan_open leaves it (g_new0): idle, nothing queued. */
  const NewCore := Core(KCH_STATE_IDLE, 0, 0, 0, 0, [], null, false)

  /** A message is only on the wire with its timer armed while a reply is
      being awaited; an idle channel has no timer. */
  predicate CoreInv(c: Core) {
    KCH_STATE_IDLE <= c.state <= KCH_STATE_CKSUM &&
    (c.outstanding == null ==> c.state == KCH_STATE_IDLE && !c.timer) &&
    (c.timer ==> c.state != KCH_STATE_IDLE)
  }

  /** A new state and what was done on the way. */
  datatype Out = Out(core: Core, events: seq<Event>)

  /** oms_chan_dispatch: when idle, shift the queue; a message of bad
      length is dropped; a good one is written, becomes the outstanding
      message, and the reply timer is armed. */
  function Dispatched(c: Core): Out {
    if c.state != KCH_STATE_IDLE then Out(c, [])
    else
      var (d, q) := Shifted(c.sendq);
      if d.None? || !d.value.Sendable() then Out(c.(sendq := q), [])
      else Out(c.(sendq := q, outstanding := d.value, state := KCH_STATE_RECV, timer := true),
                [Wrote(FrameOf(d.value))])
  }

  /** oms_chan_enqueue_msg: append, and dispatch when idle. */
  function Enqueued(c: Core, m: Message): Out {
    var c1 := c.(sendq := c.sendq + [m]);
    if c.state == KCH_STATE_IDLE then Dispatched(c1) else Out(c1, [])
  }

  /** Enqueue a list of messages in order. */
  function EnqueueAll(c: Core, ms: seq<Message>): Out {
    if ms == [] then Out(c, [])
    else
      var o := EnqueueAll(c, ms[..|ms| - 1]);
      var o1 := Enqueued(o.core, ms[|ms| - 1]);
      Out(o1.core, o.events + o1.events)
  }

  /** Enqueueing one more message. */
  lemma EnqueueAllSnoc(c: Core, ms: seq<Message>, m: Message)
    ensures var o := EnqueueAll(c, ms); var o1 := Enqueued(o.core, m);
      EnqueueAll(c, ms + [m]) == Out(o1.core, o.events + o1.events)
  {
    assert (ms + [m])[..|ms|] == ms;
  }

  /** Enqueueing two messages, one after the other, from state c0 and
      trace t0. */
  lemma EnqueueTwo(c0: Core, m1: Message, m2: Message, t0: seq<Event>,
                   c1: Core, t1: seq<Event>, c2: Core, t2: seq<Event>)
    requires c1 == Enqueued(c0, m1).core && t1 == t0 + Enqueued(c0, m1).events
    requires c2 == Enqueued(c1, m2).core && t2 == t1 + Enqueued(c1, m2).events
    ensures c2 == EnqueueAll(c0, [m1, m2]).core && t2 == t0 + EnqueueAll(c0, [m1, m2]).events
  {
    EnqueueAllSnoc(c0, [], m1);
    EnqueueAllSnoc(c0, [m1], m2);
    assert [] + [m1] == [m1] && [m1] + [m2] == [m1, m2];
    AppendAssoc(t0, Enqueued(c0, m1).events, Enqueued(c1, m2).events);
  }

  /** A run of enqueues followed by another: the state and the events
      are those of enqueueing the joined list. */
  lemma EnqueueAllStep(c0: Core, sent: seq<Message>, more: seq<Message>, t0: seq<Event>,
                       c1: Core, t1: seq<Event>, c2: Core, t2: seq<Event>)
    requires c1 == EnqueueAll(c0, sent).core && t1 == t0 + EnqueueAll(c0, sent).events
    requires c2 == EnqueueAll(c1, more).core && t2 == t1 + EnqueueAll(c1, more).events
    ensures c2 == EnqueueAll(c0, sent + more).core && t2 == t0 + EnqueueAll(c0, sent + more).events
  {
    EnqueueAllConcat(c0, sent, more);
    AppendAssoc(t0, EnqueueAll(c0, sent).events, EnqueueAll(c1, more).events);
  }

  /** oms_chan_clear, the reply timeout: go idle, drop the outstanding
      message and the timer, and send the next message. */
  function Cleared(c: Core): Out {
    Dispatched(c.(state := KCH_STATE_IDLE, timer := false, outstanding := null))
  }

  /** Dispatch keeps the invariant and writes at most one frame. */
  lemma DispatchKeepsInv(c: Core)
    requires CoreInv(c)
    ensures CoreInv(Dispatched(c).core)
    ensures |Dispatched(c).events| <= 1
  {
  }

  /** Every event of a dispatch is a frame written. */
  lemma DispatchOnlyWrites(c: Core)
    ensures forall e :: e in Dispatched(c).events ==> e.Wrote?
  {
  }

  /** The message put on the wire is the oldest one queued; dispatch does
      nothing unless the channel is idle. */
  lemma DispatchSendsOldest(c: Core)
    ensures Dispatched(c).events != [] <==>
      c.state == KCH_STATE_IDLE && c.sendq != [] && c.sendq[0].Sendable()
    ensures Dispatched(c).events != [] ==>
      Dispatched(c).events == [Wrote(FrameOf(c.sendq[0]))] &&
      Dispatched(c).core.outstanding == c.sendq[0] &&
      Dispatched(c).core.sendq == c.sendq[1..] &&
      Dispatched(c).core.state == KCH_STATE_RECV && Dispatched(c).core.timer
    ensures c.state != KCH_STATE_IDLE ==> Dispatched(c) == Out(c, [])
    ensures c.sendq == [] ==> Dispatched(c) == Out(c, [])
  {
  }

  /** A queued message of bad length is dropped without sending the one
      behind it: nothing is written, the channel stays idle with no timer
      armed, and the rest of the queue (if any) waits for the next enqueue. */
  lemma BadMessageStalls(c: Core)
    requires c.state == KCH_STATE_IDLE && c.sendq != [] && !c.sendq[0].Sendable()
    ensures Dispatched(c).events == []
    ensures Dispatched(c).core == c.(sendq := c.sendq[1..])
    ensures Dispatched(c).core.state == KCH_STATE_IDLE
    ensures CoreInv(c) ==> !Dispatched(c).core.timer
    ensures |c.sendq| >= 2 ==> Dispatched(c).core.sendq != []
  {
  }

  /** Enqueueing keeps the invariant and never writes while a message is
      awaiting its reply. */
  lemma EnqueueKeepsInv(c: Core, m: Message)
    requires CoreInv(c)
    ensures CoreInv(Enqueued(c, m).core)
    ensures c.state != KCH_STATE_IDLE ==> Enqueued(c, m) == Out(c.(sendq := c.sendq + [m]), [])
  {
    DispatchKeepsInv(c.(sendq := c.sendq + [m]));
  }

  /** Enqueueing a list is enqueueing its parts one after the other. */
  lemma {:induction false} EnqueueAllConcat(c: Core, a: seq<Message>, b: seq<Message>)
    ensures var oa := EnqueueAll(c, a); var ob := EnqueueAll(oa.core, b);
      EnqueueAll(c, a + b) == Out(ob.core, oa.events + ob.events)
    decreases |b|
  {
    if b == [] {
      assert a + b == a;
    } else {
      var b0 := b[..|b| - 1];
      assert (a + b)[..|a + b| - 1] == a + b0;
      assert b[..|b| - 1] == b0;
      EnqueueAllConcat(c, a, b0);
    }
  }

  /** Enqueueing a list keeps the invariant. */
  lemma {:induction false} EnqueueAllKeepsInv(c: Core, ms: seq<Message>)
    requires CoreInv(c)
    ensures CoreInv(EnqueueAll(c, ms).core)
    decreases |ms|
  {
    if ms != [] {
      EnqueueAllKeepsInv(c, ms[..|ms| - 1]);
      EnqueueKeepsInv(EnqueueAll(c, ms[..|ms| - 1]).core, ms[|ms| - 1]);
    }
  }

  /** One message at a time: enqueueing a batch of good messages on an idle
      channel with an empty queue writes only the first one; the rest wait
      in the queue, in order, behind it. */
  lemma {:induction false} OneAtATime(c: Core, ms: seq<Message>)
    requires c.state == KCH_STATE_IDLE && c.sendq == []
    requires ms != [] && forall i :: 0 <= i < |ms| ==> ms[i].Sendable()
    ensures EnqueueAll(c, ms).events == [Wrote(FrameOf(ms[0]))]
    ensures EnqueueAll(c, ms).core.outstanding == ms[0]
    ensures EnqueueAll(c, ms).core.sendq == ms[1..]
    ensures EnqueueAll(c, ms).core.state == KCH_STATE_RECV
    decreases |ms|
  {
    var n := |ms|;
    if n == 1 {
      assert ms[..0] == [];
    } else {
      var ms0, m := ms[..n - 1], ms[n - 1];
      OneAtATime(c, ms0);
      var o := EnqueueAll(c, ms0);
      assert Enqueued(o.core, m) == Out(o.core.(sendq := o.core.sendq + [m]), []);
      assert ms0[0] == ms[0] && ms0[1..] + [m] == ms[1..];
    }
  }

  /** The timeout keeps the invariant and writes at most the next frame. */
  lemma ClearKeepsInv(c: Core)
    requires CoreInv(c)
    ensures CoreInv(Cleared(c).core)
    ensures forall e :: e in Cleared(c).events ==> e.Wrote?
    ensures Cleared(c).core.outstanding == null ==> Cleared(c).core.state == KCH_STATE_IDLE
    ensures Cleared(c).core.outstanding != null ==>
      c.sendq != [] && Cleared(c).core.outstanding == c.sendq[0]
  {
    DispatchKeepsInv(c.(state := KCH_STATE_IDLE, timer := false, outstanding := null));
  }

  // ----- receiving -----

  /** The verdict on a complete reply, in the order the code tests. */
  function Classify(rcrc: byte, rstatus: byte, raddr: byte, nodeno: addr7, k: byte): (err: nat)
    ensures err == KE_BADCRC <==> k != rcrc
    ensures err == KE_NACK <==> k == rcrc && rstatus == OMMS_NACK
    ensures err == KE_BADADDR <==> k == rcrc && rstatus != OMMS_NACK && raddr != 0x80 + nodeno
    ensures err == KE_NOERROR <==> k == rcrc && rstatus != OMMS_NACK && raddr == 0x80 + nodeno
  {
    if k != rcrc then KE_BADCRC
    else if rstatus == OMMS_NACK then KE_NACK
    else if raddr != 0x80 + nodeno then KE_BADADDR
    else KE_NOERROR
  }

  /** The MQTT topic of a node's current temperature. */
  function Topic(name: string): string {
    "omnistat/" + name + "/current"
  }

  /** oms_chan_reply_regdata: one oms_nd_regdata call per register value,
      numbered from the start register in the first reply byte. */
  function RegdataEvents(addr: int, rx: Rx): seq<Event> {
    if rx.rlength < 2 then []
    else seq(rx.rlength - 1, i requires 0 <= i < rx.rlength - 1 =>
           RegData(addr, rx.rbuf[0] + i, rx.rbuf[i + 1]))
  }

  /** oms_chan_reply_getg: a six-byte group-1 reply publishes the current
      temperature. */
  function GetgEvents(name: string, rx: Rx): seq<Event> {
    if rx.rlength != 6 then [] else [Published(Topic(name), rx.rbuf[5])]
  }

  /** What oms_chan_reply_handler does after being called, beyond updating
      the node: only a good reply to a known node has effects. */
  function HandlerEvents(nodes: seq<Node?>, msg: Message, err: nat, rx: Rx): seq<Event> {
    if err != KE_NOERROR || msg.nodeno >= |nodes| || nodes[msg.nodeno] == null then []
    else
      var nd := nodes[msg.nodeno];
      var mt := rx.rstatus % 16;
      if mt == OMMS_DATA then RegdataEvents(nd.addr, rx)
      else if mt == OMMS_GRP1 then GetgEvents(nd.name, rx)
      else []
  }

  /** What a reply handler does when called: the events it leaves. */
  type Reaction = (Message, nat, Rx) -> seq<Event>

  /** oms_chan_reply_handler over the node table. */
  function Handler(nodes: seq<Node?>): Reaction {
    (m: Message, err: nat, rx: Rx) => HandlerEvents(nodes, m, err, rx)
  }

  /** Events that leave nodes alone: no handled reply among them. */
  predicate Inert(evs: seq<Event>) {
    forall e :: e in evs ==> !e.Handled?
  }

  /** The events of a run with each call of the handler followed by the
      publications and register reports it makes. */
  function Effects(react: Reaction, evs: seq<Event>): seq<Event> {
    if evs == [] then [] else Effects(react, evs[..|evs| - 1]) + Effect(react, evs[|evs| - 1])
  }

  function Effect(react: Reaction, e: Event): seq<Event> {
    match e
    case Handled(m, err, rx) => [e] + react(m, err, rx)
    case _ => [e]
  }

  /** A state, the reply side of the captured message, and the events. */
  datatype Run = Run(core: Core, rx: Rx, events: seq<Event>)

  /** One byte through the receive machine of oms_chan_recv. `msg` is the
      outstanding message as it was when the read began; in the checksum
      state the timer is cancelled, the next message dispatched, and only
      then the handler called. */
  function Step(c: Core, msg: Message?, rx: Rx, b: byte): Run
    requires c.state == KCH_STATE_TYPE ==> msg != null
  {
    if c.state == KCH_STATE_IDLE then
      if b == FLAG_BYTE then Run(c.(state := KCH_STATE_TYPE, rcrc := 0xff, raddr := 0), rx, [])
      else Run(c, rx, [])
    else if c.state == KCH_STATE_RECV then
      Run(c.(rcrc := b, raddr := b, state := KCH_STATE_TYPE), rx, [])
    else if c.state == KCH_STATE_TYPE then
      var len := b / 16;
      Run(c.(rcrc := (c.rcrc + b) % 256, rlen := len, rstatus := b % 16,
             state := if len == 0 then KCH_STATE_CKSUM else KCH_STATE_DATA),
          rx.(rstatus := b % 16, rlength := 0), [])
    else if c.state == KCH_STATE_DATA then
      var rx' := if msg != null && rx.rlength < OMNS_PKT_MAX
                 then rx.(rbuf := rx.rbuf[rx.rlength := b], rlength := rx.rlength + 1)
                 else rx;
      Run(c.(rcrc := (c.rcrc + b) % 256, rlen := c.rlen - 1,
             state := if c.rlen - 1 <= 0 then KCH_STATE_CKSUM else KCH_STATE_DATA), rx', [])
    else if c.state == KCH_STATE_CKSUM then
      if msg == null then Run(c.(state := KCH_STATE_IDLE), rx, [])
      else Complete(c, msg, rx, b)
    else Run(c, rx, [])
  }

  /** The checksum byte of a reply to the captured message: classify, go
      idle with the timer cancelled, dispatch the next message, then call
      the handler. What the handler does is given by Effects; it changes
      nothing the receive machine reads. */
  function Complete(c: Core, msg: Message, rx: Rx, k: byte): Run
  {
    var err := Classify(c.rcrc, c.rstatus, c.raddr, msg.nodeno, k);
    var d := Dispatched(c.(state := KCH_STATE_IDLE, timer := false));
    Run(d.core, rx, d.events + [Handled(msg, err, rx)])
  }

  /** A whole read: the bytes through Step in order. With no message
      outstanding at the start of the read the channel is idle and ignores
      every byte but a frame flag, which the code would follow by
      dereferencing the missing message; that read is excluded. */
  function Feed(c: Core, msg: Message?, rx: Rx, bytes: seq<byte>): (r: Run)
    requires msg == null ==> c.state == KCH_STATE_IDLE && FLAG_BYTE !in bytes
    ensures msg == null ==> r == Run(c, rx, [])
    decreases |bytes|
  {
    if bytes == [] then Run(c, rx, [])
    else
      var n := |bytes|;
      assert bytes == bytes[..n - 1] + [bytes[n - 1]];
      var r0 := Feed(c, msg, rx, bytes[..n - 1]);
      var r1 := Step(r0.core, msg, r0.rx, bytes[n - 1]);
      Run(r1.core, r1.rx, r0.events + r1.events)
  }

  /** A read is the same as the same bytes read in two parts. */
  lemma {:induction false} FeedConcat(c: Core, msg: Message?, rx: Rx, a: seq<byte>, b: seq<byte>)
    requires msg == null ==> c.state == KCH_STATE_IDLE && FLAG_BYTE !in a + b
    ensures msg == null ==> FLAG_BYTE !in a && FLAG_BYTE !in b
    ensures var ra := Feed(c, msg, rx, a); var rb := Feed(ra.core, msg, ra.rx, b);
      Feed(c, msg, rx, a + b) == Run(rb.core, rb.rx, ra.events + rb.events)
    decreases |b|
  {
    if msg == null {
      assert forall x :: x in a ==> x in a + b;
      assert forall x :: x in b ==> x in a + b;
      assert Feed(c, msg, rx, a) == Run(c, rx, []);
      assert Feed(c, msg, rx, b) == Run(c, rx, []);
      assert Feed(c, msg, rx, a + b) == Run(c, rx, [] + []);
    } else if b == [] {
      assert a + b == a;
      var ra := Feed(c, msg, rx, a);
      assert Feed(ra.core, msg, ra.rx, b) == Run(ra.core, ra.rx, []);
      assert ra.events + [] == ra.events;
    } else {
      var x := b[|b| - 1];
      var b0 := b[..|b| - 1];
      assert (a + b)[..|a + b| - 1] == a + b0;
      assert (a + b)[|a + b| - 1] == x;
      FeedConcat(c, msg, rx, a, b0);
      var ra := Feed(c, msg, rx, a);
      var rb0 := Feed(ra.core, msg, ra.rx, b0);
      var s := Step(rb0.core, msg, rb0.rx, x);
      assert Feed(c, msg, rx, a + b0) == Run(rb0.core, rb0.rx, ra.events + rb0.events);
      assert Feed(c, msg, rx, a + b) == Run(s.core, s.rx, ra.events + rb0.events + s.events);
      assert Feed(ra.core, msg, ra.rx, b) == Run(s.core, s.rx, rb0.events + s.events);
      assert ra.events + rb0.events + s.events == ra.events + (rb0.events + s.events);
    }
  }

  /** An idle channel ignores every byte but the frame flag. */
  lemma {:induction false} IdleIgnores(c: Core, msg: Message?, rx: Rx, bytes: seq<byte>)
    requires c.state == KCH_STATE_IDLE && FLAG_BYTE !in bytes
    ensures Feed(c, msg, rx, bytes) == Run(c, rx, [])
    decreases |bytes|
  {
    if bytes != [] {
      var n := |bytes|;
      assert forall x :: x in bytes[..n - 1] ==> x in bytes;
      assert bytes[n - 1] in bytes;
      IdleIgnores(c, msg, rx, bytes[..n - 1]);
    }
  }

  /** One byte keeps the invariant. */
  lemma StepKeepsInv(c: Core, msg: Message?, rx: Rx, b: byte)
    requires CoreInv(c)
    requires msg == null ==> c.state == KCH_STATE_IDLE && b != FLAG_BYTE
    requires msg != null ==> c.outstanding != null
    ensures CoreInv(Step(c, msg, rx, b).core)
    ensures Step(c, msg, rx, b).core.outstanding != null || msg == null
  {
    if c.state == KCH_STATE_CKSUM && msg != null {
      DispatchKeepsInv(c.(state := KCH_STATE_IDLE, timer := false));
    }
  }

  /** A whole read keeps the invariant. */
  lemma {:induction false} FeedKeepsInv(c: Core, msg: Message?, rx: Rx, bytes: seq<byte>)
    requires CoreInv(c)
    requires msg == null ==> c.state == KCH_STATE_IDLE && FLAG_BYTE !in bytes
    requires msg != null ==> c.outstanding != null
    ensures CoreInv(Feed(c, msg, rx, bytes).core)
    ensures msg != null ==> Feed(c, msg, rx, bytes).core.outstanding != null
    decreases |bytes|
  {
    if bytes != [] && msg != null {
      var n := |bytes|;
      FeedKeepsInv(c, msg, rx, bytes[..n - 1]);
      var r0 := Feed(c, msg, rx, bytes[..n - 1]);
      StepKeepsInv(r0.core, msg, r0.rx, bytes[n - 1]);
    }
  }

  /** The reply side after the bytes `d` were stored from its count on. */
  function Stored(rx: Rx, d: seq<byte>): Rx
    requires rx.rlength + |d| <= OMNS_PKT_MAX
  {
    rx.(rlength := rx.rlength + |d|, rbuf := rx.rbuf[..rx.rlength] + d + rx.rbuf[rx.rlength + |d|..])
  }

  /** Storing one more byte. */
  lemma StoredSnoc(rx: Rx, d: seq<byte>, b: byte)
    requires rx.rlength + |d| < OMNS_PKT_MAX
    ensures var r := Stored(rx, d);
      r.rlength < OMNS_PKT_MAX &&
      Stored(rx, d + [b]) == r.(rbuf := r.rbuf[r.rlength := b], rlength := r.rlength + 1)
  {
    var j, n := rx.rlength, |d|;
    var buf0 := rx.rbuf[..j] + d + rx.rbuf[j + n..];
    assert buf0[j + n := b] == rx.rbuf[..j] + (d + [b]) + rx.rbuf[j + n + 1..];
  }

  lemma StoredNothing(rx: Rx)
    ensures Stored(rx, []) == rx
  {
    assert rx.rbuf[..rx.rlength] + [] + rx.rbuf[rx.rlength..] == rx.rbuf;
  }

  /** The receive state after the data bytes `d` of a frame whose running
      checksum began with `pre`. */
  function InData(c: Core, pre: seq<byte>, d: seq<byte>): Core {
    c.(rcrc := Checksum(pre + d), rlen := c.rlen - |d|,
       state := if |d| == c.rlen then KCH_STATE_CKSUM else KCH_STATE_DATA)
  }

  /** The data bytes of a frame: each is added to the checksum and stored
      at the next place of the reply buffer. */
  lemma {:induction false} FeedData(c: Core, msg: Message, rx: Rx, pre: seq<byte>, d: seq<byte>)
    requires c.state == KCH_STATE_DATA && 1 <= c.rlen && |d| <= c.rlen
    requires c.rcrc == Checksum(pre)
    requires rx.rlength + |d| <= OMNS_PKT_MAX
    ensures Feed(c, msg, rx, d) == Run(InData(c, pre, d), Stored(rx, d), [])
    decreases |d|
  {
    if d == [] {
      assert Feed(c, msg, rx, d) == Run(c, rx, []);
      assert pre + d == pre;
      assert InData(c, pre, d) == c;
      StoredNothing(rx);
    } else {
      var n := |d|;
      var d0, b := d[..n - 1], d[n - 1];
      assert d0 + [b] == d;
      FeedData(c, msg, rx, pre, d0);
      FeedSnoc(c, msg, rx, d0, b);
      DataStep(c, msg, rx, pre, d0, b);
    }
  }

  /** One more data byte: the sum and the stored bytes grow by it. */
  lemma DataStep(c: Core, msg: Message, rx: Rx, pre: seq<byte>, d0: seq<byte>, b: byte)
    requires c.state == KCH_STATE_DATA && |d0| < c.rlen
    requires c.rcrc == Checksum(pre)
    requires rx.rlength + |d0| < OMNS_PKT_MAX
    ensures Step(InData(c, pre, d0), msg, Stored(rx, d0), b) == Run(InData(c, pre, d0 + [b]), Stored(rx, d0 + [b]), [])
  {
    StoredSnoc(rx, d0, b);
    StepInData(InData(c, pre, d0), msg, Stored(rx, d0), b);
    ChecksumSnoc(pre + d0, b);
    assert pre + d0 + [b] == pre + (d0 + [b]);
  }

  /** A data byte while a reply is being read. */
  lemma StepInData(c: Core, msg: Message, rx: Rx, b: byte)
    requires c.state == KCH_STATE_DATA && rx.rlength < OMNS_PKT_MAX
    ensures Step(c, msg, rx, b) ==
      Run(c.(rcrc := (c.rcrc + b) % 256, rlen := c.rlen - 1,
             state := if c.rlen - 1 <= 0 then KCH_STATE_CKSUM else KCH_STATE_DATA),
          rx.(rbuf := rx.rbuf[rx.rlength := b], rlength := rx.rlength + 1), [])
  {
  }

  /** A read with one more byte at the end is one more step. */
  lemma FeedSnoc(c: Core, msg: Message?, rx: Rx, s: seq<byte>, x: byte)
    requires msg == null ==> c.state == KCH_STATE_IDLE && FLAG_BYTE !in s + [x]
    ensures msg == null ==> FLAG_BYTE !in s
    ensures var r0 := Feed(c, msg, rx, s);
      var r1 := Step(r0.core, msg, r0.rx, x);
      Feed(c, msg, rx, s + [x]) == Run(r1.core, r1.rx, r0.events + r1.events)
  {
    assert (s + [x])[..|s|] == s;
    assert forall y :: y in s ==> y in s + [x];
  }

  /** The reply side once a frame's status byte has been read. */
  function Begun(rx: Rx, t: byte): Rx {
    rx.(rstatus := t % 16, rlength := 0)
  }

  /** The receive state when the checksum byte of a frame with status byte
      `t` and data `d` is due, the running sum having begun with `pre`. */
  function AtChecksum(c: Core, pre: seq<byte>, t: byte, d: seq<byte>): Core {
    c.(rcrc := Checksum(pre + [t] + d), rlen := 0, rstatus := t % 16, state := KCH_STATE_CKSUM)
  }

  /** The status byte of a frame. */
  lemma StepInType(c: Core, msg: Message, rx: Rx, pre: seq<byte>, t: byte)
    requires c.state == KCH_STATE_TYPE && c.rcrc == Checksum(pre)
    ensures Feed(c, msg, rx, [t]) ==
      Run(c.(rcrc := Checksum(pre + [t]), rlen := t / 16, rstatus := t % 16,
             state := if t / 16 == 0 then KCH_STATE_CKSUM else KCH_STATE_DATA), Begun(rx, t), [])
  {
    assert [t][..0] == [];
    assert Feed(c, msg, rx, [t]) == Step(c, msg, rx, t);
    ChecksumSnoc(pre, t);
  }

  /** What a reply frame does once its address byte has been taken: the
      checksum byte is compared with the sum begun by `pre`, and the reply
      side holds exactly the frame's status and data. */
  lemma FeedFromType(c: Core, msg: Message, rx: Rx, pre: seq<byte>,
                     t: byte, d: seq<byte>, k: byte)
    requires c.state == KCH_STATE_TYPE && c.rcrc == Checksum(pre) && |d| == t / 16
    ensures Feed(c, msg, rx, [t] + d + [k]) ==
      Complete(AtChecksum(c, pre, t, d), msg, Stored(Begun(rx, t), d), k)
  {
    FeedToChecksum(c, msg, rx, pre, t, d);
    FeedSnoc(c, msg, rx, [t] + d, k);
    StepAtChecksum(AtChecksum(c, pre, t, d), msg, Stored(Begun(rx, t), d), k);
  }

  /** The checksum byte of a frame completes the reply. */
  lemma StepAtChecksum(c: Core, msg: Message, rx: Rx, k: byte)
    requires c.state == KCH_STATE_CKSUM
    ensures Step(c, msg, rx, k) == Complete(c, msg, rx, k)
    ensures [] + Complete(c, msg, rx, k).events == Complete(c, msg, rx, k).events
  {
  }

  /** The status byte and the data of a frame bring the machine to its
      checksum state with the data stored. */
  lemma FeedToChecksum(c: Core, msg: Message, rx: Rx, pre: seq<byte>, t: byte, d: seq<byte>)
    requires c.state == KCH_STATE_TYPE && c.rcrc == Checksum(pre) && |d| == t / 16
    ensures Feed(c, msg, rx, [t] + d) == Run(AtChecksum(c, pre, t, d), Stored(Begun(rx, t), d), [])
  {
    StepInType(c, msg, rx, pre, t);
    var c1 := c.(rcrc := Checksum(pre + [t]), rlen := t / 16, rstatus := t % 16,
                 state := if t / 16 == 0 then KCH_STATE_CKSUM else KCH_STATE_DATA);
    FeedConcat(c, msg, rx, [t], d);
    if d != [] {
      FeedData(c1, msg, Begun(rx, t), pre + [t], d);
      assert InData(c1, pre + [t], d) == AtChecksum(c, pre, t, d);
    } else {
      assert [t] + d == [t] && pre + [t] + d == pre + [t];
      StoredNothing(Begun(rx, t));
      assert Feed(c1, msg, Begun(rx, t), d) == Run(c1, Begun(rx, t), []);
      assert c1 == AtChecksum(c, pre, t, d);
    }
  }

  /** A reply frame from the channel's awaiting state: the first byte is
      the reply address and begins the checksum. */
  lemma ReplyFromRecv(c: Core, msg: Message, rx: Rx,
                      a: byte, t: byte, d: seq<byte>, k: byte)
    requires c.state == KCH_STATE_RECV && |d| == t / 16
    ensures Feed(c, msg, rx, [a, t] + d + [k]) ==
      Complete(AtChecksum(c.(raddr := a), [a], t, d), msg, Stored(Begun(rx, t), d), k)
  {
    var c1 := c.(rcrc := a, raddr := a, state := KCH_STATE_TYPE);
    assert [a][..0] == [];
    assert Checksum([a]) == a;
    assert Feed(c, msg, rx, [a]) == Run(c1, rx, []);
    FeedFromType(c1, msg, rx, [a], t, d, k);
    FeedConcat(c, msg, rx, [a], [t] + d + [k]);
    assert [a] + ([t] + d + [k]) == [a, t] + d + [k];
    assert AtChecksum(c1, [a], t, d) == AtChecksum(c.(raddr := a), [a], t, d);
  }

  /** The receive machine reads back what a thermostat sends: a frame
      addressed from the awaited node with a correct checksum and a status
      other than NACK is handled without error, with its status, its data
      length and its data in front of the old buffer contents. */
  lemma ReplyRoundTrip(c: Core, msg: Message, rx: Rx, st: byte, d: seq<byte>)
    requires c.state == KCH_STATE_RECV && |d| < 16 && st < 16 && st != OMMS_NACK
    ensures var f := Frame(0x80 + msg.nodeno, st, d);
      var ck := AtChecksum(c.(raddr := 0x80 + msg.nodeno), [0x80 + msg.nodeno], |d| * 16 + st, d);
      Feed(c, msg, rx, f) == Complete(ck, msg, Rx(st, |d|, d + rx.rbuf[|d|..]), f[|f| - 1]) &&
      Classify(ck.rcrc, ck.rstatus, ck.raddr, msg.nodeno, f[|f| - 1]) == KE_NOERROR
  {
    var a: byte := 0x80 + msg.nodeno;
    var t: byte := |d| * 16 + st;
    FrameParts(a, st, d);
    Nibbles(|d|, st);
    assert [a] + [t] + d == [a, t] + d;
    ReplyFromRecv(c, msg, rx, a, t, d, Checksum([a, t] + d));
    StoredFresh(rx, t, d);
  }

  /** A frame is its address, its length and status byte, its data and
      the checksum of those. */
  lemma FrameParts(a: byte, st: byte, d: seq<byte>)
    requires |d| < 16 && st < 16
    ensures var t: byte := |d| * 16 + st;
      Frame(a, st, d) == [a, t] + d + [Checksum([a, t] + d)]
  {
    HeadParts(a, st, d);
  }

  lemma HeadParts(a: byte, st: byte, d: seq<byte>)
    requires |d| < 16 && st < 16
    ensures FrameHead(a, st, d) == [a, |d| * 16 + st] + d
  {
  }

  /** The length and status nibbles of a frame's second byte. */
  lemma Nibbles(n: nat, st: nat)
    requires n < 16 && st < 16
    ensures (n * 16 + st) / 16 == n && (n * 16 + st) % 16 == st
  {
  }

  /** A reply's data stored from the start of the buffer. */
  lemma StoredFresh(rx: Rx, t: byte, d: seq<byte>)
    requires |d| <= OMNS_PKT_MAX
    ensures Stored(Begun(rx, t), d) == Rx(t % 16, |d|, d + rx.rbuf[|d|..])
  {
    assert rx.rbuf[..0] + d == d;
  }

  /** A frame flag seen while idle starts a frame with the address cleared:
      such a frame is never accepted, and with a good checksum it is
      reported as a bad address rather than as the checksum error the code
      sets out to force. The handler does nothing with it. */
  lemma DesyncNeverOk(c: Core, msg: Message, rx: Rx, nodes: seq<Node?>, t: byte, d: seq<byte>, k: byte)
    requires c.state == KCH_STATE_IDLE && |d| == t / 16
    ensures var ck := AtChecksum(c.(raddr := 0), [0xff], t, d);
      var err := Classify(ck.rcrc, ck.rstatus, 0, msg.nodeno, k);
      Feed(c, msg, rx, [FLAG_BYTE, t] + d + [k]) == Complete(ck, msg, Stored(Begun(rx, t), d), k) &&
      err != KE_NOERROR &&
      (k == ck.rcrc && t % 16 != OMMS_NACK ==> err == KE_BADADDR) &&
      HandlerEvents(nodes, msg, err, Stored(Begun(rx, t), d)) == []
  {
    var c1 := c.(state := KCH_STATE_TYPE, rcrc := 0xff, raddr := 0);
    assert [FLAG_BYTE][..0] == [];
    assert Checksum([0xff]) == 0xff;
    assert Feed(c, msg, rx, [FLAG_BYTE]) == Run(c1, rx, []);
    FeedFromType(c1, msg, rx, [0xff], t, d, k);
    FeedConcat(c, msg, rx, [FLAG_BYTE], [t] + d + [k]);
    assert [FLAG_BYTE] + ([t] + d + [k]) == [FLAG_BYTE, t] + d + [k];
    assert AtChecksum(c1, [0xff], t, d) == AtChecksum(c.(raddr := 0), [0xff], t, d);
  }

  /** oms_chan_reply_regdata reports each value after the start register. */
  lemma RegdataReported(addr: int, rx: Rx, start: byte, vals: seq<byte>)
    requires 1 <= |vals| < 15
    requires rx == Rx(OMMS_DATA, |vals| + 1, [start] + vals + rx.rbuf[|vals| + 1..])
    ensures var evs := RegdataEvents(addr, rx);
      |evs| == |vals| && forall i :: 0 <= i < |vals| ==> evs[i] == RegData(addr, start + i, vals[i])
  {
  }

  /** The message captured at the start of a read stays the one handled for
      the whole read: when a second reply arrives in the same read, after
      the first reply dispatched the next message, the second reply is
      handed to the old message again, and the new message's timer is
      cancelled while it stays outstanding on an idle channel. */
  lemma StaleSecondReply(c: Core, m1: Message, m2: Message, rx: Rx, st: byte)
    requires c.state == KCH_STATE_RECV && c.sendq == [m2] && m2.Sendable()
    requires st < 16 && st != OMMS_NACK
    ensures var f := Frame(0x80 + m1.nodeno, st, []);
      var r := Feed(c, m1, rx, f + f);
      var rx1 := Rx(st, 0, rx.rbuf);
      r.events == [Wrote(FrameOf(m2)), Handled(m1, KE_NOERROR, rx1), Handled(m1, KE_NOERROR, rx1)] &&
      r.core.state == KCH_STATE_IDLE && r.core.outstanding == m2 && !r.core.timer && r.core.sendq == []
  {
    var f := Frame(0x80 + m1.nodeno, st, []);
    var rx1 := Rx(st, 0, rx.rbuf);
    EmptyReply(c, m1, rx, st);
    var r1 := Feed(c, m1, rx, f);
    EmptyReply(r1.core, m1, rx1, st);
    FeedConcat(c, m1, rx, f, f);
  }

  /** A reply without data to the captured message, read from the awaiting
      state: handled without error, the reply side keeps its buffer, and
      the next queued message is dispatched. */
  lemma EmptyReply(c: Core, m1: Message, rx: Rx, st: byte)
    requires c.state == KCH_STATE_RECV && st < 16 && st != OMMS_NACK
    ensures var f := Frame(0x80 + m1.nodeno, st, []);
      var r := Feed(c, m1, rx, f);
      var ck := AtChecksum(c.(raddr := 0x80 + m1.nodeno), [0x80 + m1.nodeno], st, []);
      var d := Dispatched(ck.(state := KCH_STATE_IDLE, timer := false));
      r == Run(d.core, Rx(st, 0, rx.rbuf), d.events + [Handled(m1, KE_NOERROR, Rx(st, 0, rx.rbuf))])
  {
    assert [] + rx.rbuf[0..] == rx.rbuf;
    ReplyRoundTrip(c, m1, rx, st, []);
  }


  // ----- what the handler does to a node -----

  /** The effect of one event on the node at address `addr`: a good reply
      to it stamps the reply time, and a six-byte group-1 reply stores the
      setpoints, mode, fan mode, hold and current temperature. */
  function ApplyEvent(ns: NodeState, addr: int, e: Event, now: int): NodeState {
    match e
    case Handled(m, err, rx) =>
      if err != KE_NOERROR || m.nodeno != addr then ns
      else
        var ns1 := ns.(lastResp := now);
        if rx.rstatus % 16 == OMMS_GRP1 && rx.rlength == 6 then
          ns1.(coolRaw := rx.rbuf[0], heatRaw := rx.rbuf[1], mode := rx.rbuf[2],
               fanmode := rx.rbuf[3], hold := rx.rbuf[4], curRaw := rx.rbuf[5])
        else ns1
    case _ => ns
  }

  /** The node after a run of events. */
  function NodeAfter(ns: NodeState, addr: int, evs: seq<Event>, now: int): NodeState {
    if evs == [] then ns
    else ApplyEvent(NodeAfter(ns, addr, evs[..|evs| - 1], now), addr, evs[|evs| - 1], now)
  }

  lemma {:induction false} NodeAfterConcat(ns: NodeState, addr: int, a: seq<Event>, b: seq<Event>, now: int)
    ensures NodeAfter(ns, addr, a + b, now) == NodeAfter(NodeAfter(ns, addr, a, now), addr, b, now)
    decreases |b|
  {
    if b == [] {
      assert a + b == a;
    } else {
      assert (a + b)[..|a + b| - 1] == a + b[..|b| - 1];
      assert (a + b)[|a + b| - 1] == b[|b| - 1];
      NodeAfterConcat(ns, addr, a, b[..|b| - 1], now);
    }
  }

  /** Frames written, publications and register reports leave nodes alone. */
  lemma {:induction false} NodeAfterInert(ns: NodeState, addr: int, evs: seq<Event>, now: int)
    requires Inert(evs)
    ensures NodeAfter(ns, addr, evs, now) == ns
    decreases |evs|
  {
    if evs != [] {
      assert evs[|evs| - 1] in evs;
      assert forall e :: e in evs[..|evs| - 1] ==> e in evs;
      NodeAfterInert(ns, addr, evs[..|evs| - 1], now);
    }
  }

  /** A handled reply touches a node only through itself: the events
      before and after it are inert. */
  lemma HandledAlone(ns: NodeState, addr: int, de: seq<Event>, h: Event, he: seq<Event>, now: int)
    requires Inert(de) && Inert(he)
    ensures NodeAfter(ns, addr, de + [h] + he, now) == ApplyEvent(ns, addr, h, now)
  {
    NodeAfterConcat(ns, addr, de + [h], he, now);
    NodeAfterConcat(ns, addr, de, [h], now);
    assert [h][..0] == [];
    NodeAfterInert(ns, addr, de, now);
    NodeAfterInert(NodeAfter(ns, addr, de + [h], now), addr, he, now);
  }

  /** The handler's own events never include a handled reply. */
  lemma HandlerInert(nodes: seq<Node?>)
    ensures forall m, err, rx :: Inert(Handler(nodes)(m, err, rx))
  {
    forall m, err, rx
      ensures Inert(Handler(nodes)(m, err, rx))
    {
      var he := HandlerEvents(nodes, m, err, rx);
      forall e | e in he
        ensures !e.Handled?
      {
        var i :| 0 <= i < |he| && he[i] == e;
      }
    }
  }

  lemma {:induction false} EffectsConcat(react: Reaction, a: seq<Event>, b: seq<Event>)
    ensures Effects(react, a + b) == Effects(react, a) + Effects(react, b)
    decreases |b|
  {
    if b == [] {
      assert a + b == a;
    } else {
      var b0, e := b[..|b| - 1], b[|b| - 1];
      assert (a + b)[..|a + b| - 1] == a + b0;
      assert (a + b)[|a + b| - 1] == e;
      EffectsConcat(react, a, b0);
      AppendAssoc(Effects(react, a), Effects(react, b0), Effect(react, e));
    }
  }

  /** Events other than handled replies are kept as they are. */
  lemma {:induction false} EffectsOfInert(react: Reaction, evs: seq<Event>)
    requires Inert(evs)
    ensures Effects(react, evs) == evs
    decreases |evs|
  {
    if evs != [] {
      var n := |evs|;
      InertSplit(evs);
      EffectsOfInert(react, evs[..n - 1]);
      assert evs[..n - 1] + [evs[n - 1]] == evs;
    }
  }

  lemma InertSplit(evs: seq<Event>)
    requires evs != [] && Inert(evs)
    ensures Inert(evs[..|evs| - 1]) && !evs[|evs| - 1].Handled?
  {
    assert evs[|evs| - 1] in evs;
    assert forall e :: e in evs[..|evs| - 1] ==> e in evs;
  }

  /** The handler's publications and reports leave every node as it was. */
  lemma {:induction false} EffectsKeepNodes(ns: NodeState, addr: int, react: Reaction, evs: seq<Event>, now: int)
    requires forall m, err, rx :: Inert(react(m, err, rx))
    ensures NodeAfter(ns, addr, Effects(react, evs), now) == NodeAfter(ns, addr, evs, now)
    decreases |evs|
  {
    if evs != [] {
      var n := |evs|;
      var e0, e := evs[..n - 1], evs[n - 1];
      EffectsKeepNodes(ns, addr, react, e0, now);
      NodeAfterConcat(ns, addr, Effects(react, e0), Effect(react, e), now);
      EffectKeepsNode(NodeAfter(ns, addr, e0, now), addr, react, e, now);
    }
  }

  /** One event with what the handler makes of it acts on a node as the
      event alone. */
  lemma EffectKeepsNode(m: NodeState, addr: int, react: Reaction, e: Event, now: int)
    requires forall m, err, rx :: Inert(react(m, err, rx))
    ensures NodeAfter(m, addr, Effect(react, e), now) == ApplyEvent(m, addr, e, now)
  {
    if e.Handled? {
      var he := react(e.msg, e.err, e.rx);
      assert Inert(he);
      HandledAlone(m, addr, [], e, he, now);
      assert [] + [e] + he == Effect(react, e);
    } else {
      assert [e][..0] == [];
    }
  }

  /** What a completed reply amounts to: the frame dispatched, the handled
      reply, and the handler's own events. */
  lemma EffectsOfComplete(react: Reaction, c: Core, msg: Message, rx: Rx, k: byte)
    ensures var err := Classify(c.rcrc, c.rstatus, c.raddr, msg.nodeno, k);
      var de := Dispatched(c.(state := KCH_STATE_IDLE, timer := false)).events;
      Effects(react, Complete(c, msg, rx, k).events) ==
        de + [Handled(msg, err, rx)] + react(msg, err, rx)
  {
    var err := Classify(c.rcrc, c.rstatus, c.raddr, msg.nodeno, k);
    var de := Dispatched(c.(state := KCH_STATE_IDLE, timer := false)).events;
    var h := Handled(msg, err, rx);
    DispatchOnlyWrites(c.(state := KCH_STATE_IDLE, timer := false));
    EffectsOfInert(react, de);
    assert Complete(c, msg, rx, k).events == de + [h];
    EffectsConcat(react, de, [h]);
    assert [h][..0] == [];
    AppendAssoc(de, [h], react(msg, err, rx));
  }

  /** Of all a completed reply does, only the handled reply reaches a node. */
  lemma NodeAfterComplete(ns: NodeState, addr: int, c: Core, msg: Message, rx: Rx, k: byte, now: int)
    ensures NodeAfter(ns, addr, Complete(c, msg, rx, k).events, now) ==
      ApplyEvent(ns, addr, Handled(msg, Classify(c.rcrc, c.rstatus, c.raddr, msg.nodeno, k), rx), now)
  {
    var dc := c.(state := KCH_STATE_IDLE, timer := false);
    var h := Handled(msg, Classify(c.rcrc, c.rstatus, c.raddr, msg.nodeno, k), rx);
    DispatchOnlyWrites(dc);
    HandledAlone(ns, addr, Dispatched(dc).events, h, [], now);
    assert Dispatched(dc).events + [h] + [] == Complete(c, msg, rx, k).events;
  }

  /** End to end for a group-1 poll: a six-byte reply from the awaited
      thermostat stores its setpoints, mode, fan mode, hold and current
      temperature in the node, stamps the reply time, and publishes the
      current temperature under the node's name. */
  lemma GroupReplyUpdatesNode(c: Core, msg: Message, rx: Rx, nodes: seq<Node?>, vals: seq<byte>,
                              ns: NodeState, now: int)
    requires |nodes| == 128 && c.state == KCH_STATE_RECV && |vals| == 6
    requires nodes[msg.nodeno] != null
    ensures var evs := Effects(Handler(nodes), Feed(c, msg, rx, Frame(0x80 + msg.nodeno, OMMS_GRP1, vals)).events);
      NodeAfter(ns, msg.nodeno, evs, now) ==
        ns.(coolRaw := vals[0], heatRaw := vals[1], mode := vals[2], fanmode := vals[3],
            hold := vals[4], curRaw := vals[5], lastResp := now) &&
      Published(Topic(nodes[msg.nodeno].name), vals[5]) in evs
  {
    ReplyRoundTrip(c, msg, rx, OMMS_GRP1, vals);
    var f := Frame(0x80 + msg.nodeno, OMMS_GRP1, vals);
    var ck := AtChecksum(c.(raddr := 0x80 + msg.nodeno), [0x80 + msg.nodeno], |vals| * 16 + OMMS_GRP1, vals);
    var rx' := Rx(OMMS_GRP1, 6, vals + rx.rbuf[6..]);
    GroupCompleteUpdatesNode(ck, msg, rx', nodes, f[|f| - 1], vals, ns, now);
  }

  /** A group-1 reply handled without error: the node takes the six values
      and the current temperature is published. */
  lemma GroupCompleteUpdatesNode(ck: Core, msg: Message, rx: Rx, nodes: seq<Node?>, k: byte, vals: seq<byte>,
                                 ns: NodeState, now: int)
    requires |nodes| == 128 && |vals| == 6 && nodes[msg.nodeno] != null
    requires rx == Rx(OMMS_GRP1, 6, vals + rx.rbuf[6..])
    requires Classify(ck.rcrc, ck.rstatus, ck.raddr, msg.nodeno, k) == KE_NOERROR
    ensures var evs := Effects(Handler(nodes), Complete(ck, msg, rx, k).events);
      NodeAfter(ns, msg.nodeno, evs, now) ==
        ns.(coolRaw := vals[0], heatRaw := vals[1], mode := vals[2], fanmode := vals[3],
            hold := vals[4], curRaw := vals[5], lastResp := now) &&
      Published(Topic(nodes[msg.nodeno].name), vals[5]) in evs
  {
    var react := Handler(nodes);
    HandlerInert(nodes);
    EffectsKeepNodes(ns, msg.nodeno, react, Complete(ck, msg, rx, k).events, now);
    NodeAfterComplete(ns, msg.nodeno, ck, msg, rx, k, now);
    GroupPublished(ck, msg, rx, nodes, k, vals);
  }

  lemma GroupPublished(ck: Core, msg: Message, rx: Rx, nodes: seq<Node?>, k: byte, vals: seq<byte>)
    requires |nodes| == 128 && |vals| == 6 && nodes[msg.nodeno] != null
    requires rx == Rx(OMMS_GRP1, 6, vals + rx.rbuf[6..])
    requires Classify(ck.rcrc, ck.rstatus, ck.raddr, msg.nodeno, k) == KE_NOERROR
    ensures Published(Topic(nodes[msg.nodeno].name), vals[5]) in Effects(Handler(nodes), Complete(ck, msg, rx, k).events)
  {
    var he := Handler(nodes)(msg, KE_NOERROR, rx);
    assert he == [Published(Topic(nodes[msg.nodeno].name), vals[5])];
    Reacted(Handler(nodes), ck, msg, rx, k, 0);
  }

  /** Whatever the handler makes of a completed reply is among the effects. */
  lemma Reacted(react: Reaction, c: Core, msg: Message, rx: Rx, k: byte, i: nat)
    requires i < |react(msg, Classify(c.rcrc, c.rstatus, c.raddr, msg.nodeno, k), rx)|
    ensures react(msg, Classify(c.rcrc, c.rstatus, c.raddr, msg.nodeno, k), rx)[i] in
      Effects(react, Complete(c, msg, rx, k).events)
  {
    var err := Classify(c.rcrc, c.rstatus, c.raddr, msg.nodeno, k);
    EffectsOfComplete(react, c, msg, rx, k);
    InTail(Dispatched(c.(state := KCH_STATE_IDLE, timer := false)).events + [Handled(msg, err, rx)],
      react(msg, err, rx), i);
  }

  /** An element of the second part is an element of the whole. */
  lemma InTail<T>(a: seq<T>, b: seq<T>, i: nat)
    requires i < |b|
    ensures b[i] in a + b
  {
    assert (a + b)[|a| + i] == b[i];
  }

  /** End to end for a register read: a register-data reply from the
      awaited thermostat reports every value it carries, register by
      register from the start register. */
  lemma RegisterReplyReported(c: Core, msg: Message, rx: Rx, nodes: seq<Node?>, start: byte, vals: seq<byte>)
    requires |nodes| == 128 && c.state == KCH_STATE_RECV && 1 <= |vals| < 15
    requires nodes[msg.nodeno] != null
    ensures var evs := Effects(Handler(nodes), Feed(c, msg, rx, Frame(0x80 + msg.nodeno, OMMS_DATA, [start] + vals)).events);
      forall i :: 0 <= i < |vals| ==> RegData(nodes[msg.nodeno].addr, start + i, vals[i]) in evs
  {
    var d := [start] + vals;
    var rx' := Rx(OMMS_DATA, |d|, d + rx.rbuf[|d|..]);
    ReplyRoundTrip(c, msg, rx, OMMS_DATA, d);
    var f := Frame(0x80 + msg.nodeno, OMMS_DATA, d);
    var ck := AtChecksum(c.(raddr := 0x80 + msg.nodeno), [0x80 + msg.nodeno], |d| * 16 + OMMS_DATA, d);
    RegisterCompleteReported(ck, msg, rx', nodes, f[|f| - 1], start, vals);
  }

  lemma RegisterCompleteReported(ck: Core, msg: Message, rx: Rx, nodes: seq<Node?>, k: byte, start: byte, vals: seq<byte>)
    requires |nodes| == 128 && 1 <= |vals| < 15 && nodes[msg.nodeno] != null
    requires rx == Rx(OMMS_DATA, |vals| + 1, [start] + vals + rx.rbuf[|vals| + 1..])
    requires Classify(ck.rcrc, ck.rstatus, ck.raddr, msg.nodeno, k) == KE_NOERROR
    ensures var evs := Effects(Handler(nodes), Complete(ck, msg, rx, k).events);
      forall i :: 0 <= i < |vals| ==> RegData(nodes[msg.nodeno].addr, start + i, vals[i]) in evs
  {
    var addr := nodes[msg.nodeno].addr;
    RegisterHandled(nodes, msg, rx, start, vals);
    forall i | 0 <= i < |vals|
      ensures RegData(addr, start + i, vals[i]) in Effects(Handler(nodes), Complete(ck, msg, rx, k).events)
    {
      Reacted(Handler(nodes), ck, msg, rx, k, i);
    }
  }

  /** The handler reports a good register-data reply value by value. */
  lemma RegisterHandled(nodes: seq<Node?>, msg: Message, rx: Rx, start: byte, vals: seq<byte>)
    requires |nodes| == 128 && 1 <= |vals| < 15 && nodes[msg.nodeno] != null
    requires rx == Rx(OMMS_DATA, |vals| + 1, [start] + vals + rx.rbuf[|vals| + 1..])
    ensures var he := Handler(nodes)(msg, KE_NOERROR, rx);
      |he| == |vals| && forall i :: 0 <= i < |vals| ==> he[i] == RegData(nodes[msg.nodeno].addr, start + i, vals[i])
  {
    assert Handler(nodes)(msg, KE_NOERROR, rx) == RegdataEvents(nodes[msg.nodeno].addr, rx);
    RegdataReported(nodes[msg.nodeno].addr, rx, start, vals);
  }

  // ----- the polling and clock messages -----

  /** The requests of one poll of the known nodes (addresses 1..127): a
      group-1 read and a read of the 14 status registers from 0x3B. */
  function PollRequests(nodes: seq<Node?>): seq<Request>
    requires |nodes| == 128
  {
    NodeRequests(nodes, 1, PollPair)
  }

  function PollPair(nd: Node): seq<Request> {
    [Request(nd.addr % 128, OMMT_GETG, []),
     Request(nd.addr % 128, OMMT_GETREG, [OM_REGADDR_STATUS, OM_REGADDR_STATUS_LEN])]
  }

  /** What a list of messages asks of the thermostats, in order. */
  function Requests(ms: seq<Message>): seq<Request>
    requires forall i :: 0 <= i < |ms| ==> ms[i].Sendable()
  {
    if ms == [] then [] else Requests(ms[..|ms| - 1]) + [ms[|ms| - 1].Req()]
  }

  lemma RequestsSnoc(ms: seq<Message>, m: Message)
    requires forall i :: 0 <= i < |ms| ==> ms[i].Sendable()
    requires m.Sendable()
    ensures forall i :: 0 <= i < |ms + [m]| ==> (ms + [m])[i].Sendable()
    ensures Requests(ms + [m]) == Requests(ms) + [m.Req()]
  {
    assert (ms + [m])[..|ms|] == ms;
  }

  /** The requests of two lists one after the other. */
  lemma {:induction false} RequestsConcat(a: seq<Message>, b: seq<Message>)
    requires forall i :: 0 <= i < |a| ==> a[i].Sendable()
    requires forall i :: 0 <= i < |b| ==> b[i].Sendable()
    ensures forall i :: 0 <= i < |a + b| ==> (a + b)[i].Sendable()
    ensures Requests(a + b) == Requests(a) + Requests(b)
    decreases |b|
  {
    if b == [] {
      assert a + b == a;
    } else {
      var b0, m := b[..|b| - 1], b[|b| - 1];
      RequestsConcat(a, b0);
      RequestsSnoc(a + b0, m);
      assert a + b0 + [m] == a + b;
      AppendAssoc(Requests(a), Requests(b0), [m.Req()]);
    }
  }

  lemma RequestsTwo(m1: Message, m2: Message)
    requires m1.Sendable() && m2.Sendable()
    ensures Requests([m1, m2]) == [m1.Req(), m2.Req()]
  {
    RequestsSnoc([], m1);
    RequestsSnoc([m1], m2);
    assert [] + [m1] == [m1] && [m1] + [m2] == [m1, m2];
  }

  /** A time of day as localtime gives it. */
  datatype Tm = Tm(sec: int, min: int, hour: int, wday: int)

  predicate TmValid(tm: Tm) {
    0 <= tm.sec <= 60 && 0 <= tm.min <= 59 && 0 <= tm.hour <= 23 && 0 <= tm.wday <= 6
  }

  /** The thermostat numbers days from Monday, struct tm from Sunday. */
  function ThermostatDay(wday: int): byte
    requires 0 <= wday <= 6
  {
    if wday == 0 then 6 else wday - 1
  }

  /** oms_node_set_clock: the day register 0x3A, then seconds (a leap
      second is written as 59), minutes and hours from register 0x41. */
  function ClockPair(tm: Tm): Node -> seq<Request>
    requires TmValid(tm)
  {
    (nd: Node) =>
      [Request(nd.addr % 128, OMMT_SETREG, [0x3a, ThermostatDay(tm.wday)]),
       Request(nd.addr % 128, OMMT_SETREG, [0x41, if tm.sec > 59 then 59 else tm.sec, tm.min, tm.hour])]
  }

  function ClockRequests(nodes: seq<Node?>, tm: Tm): seq<Request>
    requires |nodes| == 128 && TmValid(tm)
  {
    NodeRequests(nodes, 1, ClockPair(tm))
  }

  /** The requests made for each known node from address `from` up. */
  function NodeRequests(nodes: seq<Node?>, from: nat, each: Node -> seq<Request>): seq<Request>
    requires from <= |nodes|
    decreases |nodes| - from
  {
    if from == |nodes| then []
    else (if nodes[from] == null then [] else each(nodes[from])) + NodeRequests(nodes, from + 1, each)
  }

  /** One more node's requests issued. */
  lemma NodeRequestsStep(nodes: seq<Node?>, i: nat, each: Node -> seq<Request>,
                         sent: seq<Message>, more: seq<Message>, total: seq<Request>)
    requires i < |nodes|
    requires forall k :: 0 <= k < |sent| ==> sent[k].Sendable()
    requires forall k :: 0 <= k < |more| ==> more[k].Sendable()
    requires Requests(sent) + NodeRequests(nodes, i, each) == total
    requires Requests(more) == if nodes[i] == null then [] else each(nodes[i])
    ensures forall k :: 0 <= k < |sent + more| ==> (sent + more)[k].Sendable()
    ensures Requests(sent + more) + NodeRequests(nodes, i + 1, each) == total
  {
    RequestsConcat(sent, more);
    AppendAssoc(Requests(sent), Requests(more), NodeRequests(nodes, i + 1, each));
  }

  /** Every known node from `from` up gets its requests. */
  lemma {:induction false} NodeRequestsCover(nodes: seq<Node?>, from: nat, each: Node -> seq<Request>, i: nat)
    requires from <= i < |nodes| && nodes[i] != null
    ensures forall r :: r in each(nodes[i]) ==> r in NodeRequests(nodes, from, each)
    decreases i - from
  {
    if from < i {
      NodeRequestsCover(nodes, from + 1, each, i);
    }
  }

  /** Only known nodes from `from` up get requests. */
  lemma {:induction false} NodeRequestsOnlyKnown(nodes: seq<Node?>, from: nat, each: Node -> seq<Request>, r: Request)
    requires from <= |nodes| && r in NodeRequests(nodes, from, each)
    ensures exists i :: from <= i < |nodes| && nodes[i] != null && r in each(nodes[i])
    decreases |nodes| - from
  {
    var mine := if nodes[from] == null then [] else each(nodes[from]);
    assert NodeRequests(nodes, from, each) == mine + NodeRequests(nodes, from + 1, each);
    if r !in mine {
      NodeRequestsOnlyKnown(nodes, from + 1, each, r);
    }
  }

  /** A poll reads group 1 and the status block of every known node at
      addresses 1..127. */
  lemma PollCoversKnownNodes(nodes: seq<Node?>)
    requires |nodes| == 128
    ensures forall i :: 1 <= i < 128 && nodes[i] != null ==>
      Request(nodes[i].addr % 128, OMMT_GETG, []) in PollRequests(nodes) &&
      Request(nodes[i].addr % 128, OMMT_GETREG, [OM_REGADDR_STATUS, OM_REGADDR_STATUS_LEN]) in PollRequests(nodes)
  {
    forall i | 1 <= i < 128 && nodes[i] != null
      ensures Request(nodes[i].addr % 128, OMMT_GETG, []) in PollRequests(nodes)
      ensures Request(nodes[i].addr % 128, OMMT_GETREG, [OM_REGADDR_STATUS, OM_REGADDR_STATUS_LEN]) in PollRequests(nodes)
    {
      var pair := PollPair(nodes[i]);
      NodeRequestsCover(nodes, 1, PollPair, i);
      assert pair[0] in pair && pair[1] in pair;
    }
  }

  /** A poll asks nothing of an address with no known node; address 0,
      the broadcast address, is never polled. */
  lemma PollOnlyKnownNodes(nodes: seq<Node?>)
    requires |nodes| == 128
    ensures forall r :: r in PollRequests(nodes) ==>
      exists i :: 1 <= i < 128 && nodes[i] != null && r in PollPair(nodes[i])
  {
    forall r | r in PollRequests(nodes)
      ensures exists i :: 1 <= i < 128 && nodes[i] != null && r in PollPair(nodes[i])
    {
      NodeRequestsOnlyKnown(nodes, 1, PollPair, r);
    }
  }

  /** The hourly clock setting writes the day register and the time
      registers of every known node. */
  lemma ClockCoversKnownNodes(nodes: seq<Node?>, tm: Tm)
    requires |nodes| == 128 && TmValid(tm)
    ensures forall i :: 1 <= i < 128 && nodes[i] != null ==>
      forall r :: r in ClockPair(tm)(nodes[i]) ==> r in ClockRequests(nodes, tm)
  {
    forall i | 1 <= i < 128 && nodes[i] != null
      ensures forall r :: r in ClockPair(tm)(nodes[i]) ==> r in ClockRequests(nodes, tm)
    {
      NodeRequestsCover(nodes, 1, ClockPair(tm), i);
    }
  }

  /** The hourly clock setting writes to no address without a known node. */
  lemma ClockOnlyKnownNodes(nodes: seq<Node?>, tm: Tm)
    requires |nodes| == 128 && TmValid(tm)
    ensures forall r :: r in ClockRequests(nodes, tm) ==>
      exists i :: 1 <= i < 128 && nodes[i] != null && r in ClockPair(tm)(nodes[i])
  {
    forall r | r in ClockRequests(nodes, tm)
      ensures exists i :: 1 <= i < 128 && nodes[i] != null && r in ClockPair(tm)(nodes[i])
    {
      NodeRequestsOnlyKnown(nodes, 1, ClockPair(tm), r);
    }
  }
}
