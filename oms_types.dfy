/** The records of the serial channel engine (src/mqoms.h): error codes,
    receive-machine states, the queued message, the thermostat node, and the
    events the engine leaves behind (frames written, replies handled, MQTT
    publications, register values). */
module OmsTypes {
  import opened OmnistatWire

  // Errors detectable in message handling.
  const KE_NOERROR: nat := 0
  const KE_TIMEOUT: nat := 1
  const KE_BADCRC: nat := 2
  const KE_NOTACK: nat := 3
  const KE_NACK: nat := 4
  const KE_WRONGDEST: nat := 5
  const KE_BADADDR: nat := 6
  const KE_WRONGCMD: nat := 7
  const KE_EOF: nat := 8
  const KF_DISPATCH: nat := 16

  // States of the packet receive machine.
  const KCH_STATE_ZOMBIE: int := -1
  const KCH_STATE_IDLE: int := 0
  const KCH_STATE_RECV: int := 1
  const KCH_STATE_TYPE: int := 2
  const KCH_STATE_DATA: int := 3
  const KCH_STATE_CKSUM: int := 4

  /** The default reply timeout of a channel, in milliseconds. */
  const DEFAULT_TIMEOUT: nat := 1250

  const GUINT_RANGE: nat := 0x1_0000_0000

  /** A send or reply buffer of OMNS_PKT_MAX bytes. */
  type Packet = s: seq<byte> | |s| == OMNS_PKT_MAX
    witness [0, 0, 0, 0, 0, 0, 0, 0, 0, 0, 0, 0, 0, 0, 0, 0, 0, 0]

  const ZeroPacket: Packet := [0, 0, 0, 0, 0, 0, 0, 0, 0, 0, 0, 0, 0, 0, 0, 0, 0, 0]

  /** Count of reply bytes stored; the store is guarded by OMNS_PKT_MAX. */
  type RLen = x: int | 0 <= x <= OMNS_PKT_MAX

  /** What a message asks of a thermostat: its address, command, and the
      data bytes that go on the wire. */
  datatype Request = Request(nodeno: addr7, cmd: byte, data: seq<byte>)

  /** A packet queued to be sent, or awaiting its reply (struct _OmsMessage).
      The send side is written once when the message is built; the reply
      side is filled in by the receive machine. */
  class Message {
    const id: nat
    const nodeno: addr7
    const slength: nat
    const sdata: Packet
    const rbuf: array<byte>
    var qtime: int
    var rlength: RLen
    var rstatus: nat

    predicate Wf() {
      rbuf.Length == OMNS_PKT_MAX
    }

    /** A zero-filled message (g_new0) with its send side set. */
    constructor(id: nat, nodeno: addr7, slength: nat, sdata: Packet)
      ensures this.id == id && this.nodeno == nodeno && this.slength == slength && this.sdata == sdata
      ensures Wf() && fresh(rbuf) && rbuf[..] == ZeroPacket
      ensures qtime == 0 && rlength == 0 && rstatus == 0
    {
      this.id := id;
      this.nodeno := nodeno;
      this.slength := slength;
      this.sdata := sdata;
      rbuf := new byte[OMNS_PKT_MAX](_ => 0);
      qtime := 0;
      rlength := 0;
      rstatus := 0;
    }

    /** The dispatcher accepts 1..16 bytes: the command and up to 15 data. */
    predicate Sendable() {
      1 <= slength <= 16
    }

    /** The reply side as it stands. */
    function Reply(): Rx
      reads this, rbuf
      requires Wf()
    {
      Rx(rstatus, rlength, rbuf[..])
    }

    /** The part of the message that goes on the wire. */
    function Req(): Request
      requires Sendable()
    {
      Request(nodeno, sdata[0], sdata[1..slength])
    }
  }

  /** The reply side of a message: status nibble, count and buffer. */
  datatype Rx = Rx(rstatus: nat, rlength: RLen, rbuf: Packet)

  /** Data kept about one thermostat (struct _OmsNode). The setpoints and
      the current temperature are kept as the raw register bytes; their
      floating-point conversion is not modelled. */
  class Node {
    const addr: int
    const name: string
    var coolRaw: byte
    var heatRaw: byte
    var curRaw: byte
    var mode: int
    var fanmode: int
    var hold: int
    var lastResp: int

    constructor(addr: int, name: string)
      ensures this.addr == addr && this.name == name && State() == ZeroNode
    {
      this.addr := addr;
      this.name := name;
      coolRaw, heatRaw, curRaw := 0, 0, 0;
      mode, fanmode, hold, lastResp := 0, 0, 0, 0;
    }

    function State(): NodeState
      reads this
    {
      NodeState(coolRaw, heatRaw, curRaw, mode, fanmode, hold, lastResp)
    }
  }

  datatype NodeState = NodeState(coolRaw: byte, heatRaw: byte, curRaw: byte,
                                 mode: int, fanmode: int, hold: int, lastResp: int)

  const ZeroNode := NodeState(0, 0, 0, 0, 0, 0, 0)

  /** What the engine does that is visible outside it: bytes written to the
      serial port, calls of the reply handler (with the reply as it stood),
      MQTT publications (topic and the raw temperature byte whose value is
      the payload), and calls of oms_nd_regdata. */
  datatype Event =
    | Wrote(frame: seq<byte>)
    | Handled(msg: Message, err: nat, rx: Rx)
    | Published(topic: string, raw: byte)
    | RegData(addr: int, reg: int, val: byte)

  /** The error codes are distinct and KE_NOERROR is 0; the receive states
      are distinct and IDLE is 0, so a zeroed channel starts idle. */
  lemma CodesDistinct()
    ensures KE_NOERROR == 0 && KCH_STATE_IDLE == 0
    ensures |{KE_NOERROR, KE_TIMEOUT, KE_BADCRC, KE_NOTACK, KE_NACK, KE_WRONGDEST, KE_BADADDR, KE_WRONGCMD, KE_EOF}| == 9
    ensures |{KCH_STATE_ZOMBIE, KCH_STATE_IDLE, KCH_STATE_RECV, KCH_STATE_TYPE, KCH_STATE_DATA, KCH_STATE_CKSUM}| == 6
  {
  }
}
