/** Wire-protocol constants of the Omnistat thermostats, the register flag
    bits and the shape of one register-table entry (src/omnistat.h). */
module OmnistatWire {
  import opened Wrappers

  /** An unsigned char. */
  type byte = x: int | 0 <= x < 256

  /** A thermostat address as stored in a message (`addr & 0x7f`). */
  type addr7 = x: int | 0 <= x < 128

  const FLAG_BYTE: byte := 0xAC   // frame-start marker seen on desync
  const BCAST_ADDR: byte := 0x00
  const MAX_ADDR: byte := 0x7f

  /** Size of the send and reply buffers of a message: one command byte and
      up to 15 data bytes, with room to spare. */
  const OMNS_PKT_MAX: nat := 18

  // Commands that can be sent to a thermostat.
  const OMMT_GETREG: byte := 0
  const OMMT_SETREG: byte := 1
  const OMMT_GETG: byte := 2
  const OMMT_GETG2: byte := 3

  // Reply status codes.
  const OMMS_ACK: byte := 0
  const OMMS_NACK: byte := 1
  const OMMS_DATA: byte := 2
  const OMMS_GRP1: byte := 3
  const OMMS_GRP2: byte := 4

  // Register flag bits (enum omreg_flags).
  const RESV: nat := 0
  const ROK: nat := 1
  const WOK: nat := 2
  const OK: nat := 3
  const SV: nat := 4
  const OKG: nat := 7

  // Register addresses the code knows about.
  const OM_REGADDR_MODEL: byte := 0x49
  const OM_REGADDR_COOL_SETPT: byte := 0x3B
  const OM_REGADDR_STATUS: byte := 0x3B
  const OM_REGADDR_STATUS_LEN: nat := 14
  const OM_REGADDR_CURRENT_TEMP: byte := 0x40
  const OM_REGADDR_OUTPUT_STATE: byte := 0x48

  /** The byte-to-string (omcs_*) and string-to-byte (omcb_*) conversion
      routines a table entry can point at; `None` in an entry stands for a
      NULL pointer. */
  datatype Conv = Int | Temp | Tcal | Ptime | Ccal | Day | Mode | Fanm | Hold | Outst | Model

  /** One entry of a register table (struct omst_reg without its name). */
  datatype RegDef = RegDef(flags: nat, cvtStr: Option<Conv>, cvtByte: Option<Conv>)

  /** The flag word has the bit `bit` set. */
  predicate HasFlag(flags: nat, bit: nat)
    requires bit == ROK || bit == WOK || bit == SV
  {
    (flags / bit) % 2 == 1
  }

  /** OK is ROK|WOK and OKG is SV|OK: the flags are three independent bits. */
  lemma FlagAlgebra()
    ensures RESV == 0 && OK == ROK + WOK && OKG == SV + OK
    ensures HasFlag(OK, ROK) && HasFlag(OK, WOK) && !HasFlag(OK, SV)
    ensures HasFlag(OKG, ROK) && HasFlag(OKG, WOK) && HasFlag(OKG, SV)
    ensures !HasFlag(RESV, ROK) && !HasFlag(RESV, WOK) && !HasFlag(RESV, SV)
    ensures HasFlag(ROK, ROK) && !HasFlag(ROK, WOK) && !HasFlag(ROK, SV)
  {
  }

  /** A request of one command byte and 0..15 data bytes fits in a packet
      buffer; the status block 0x3B..0x48 ends at the output-state register;
      command and status codes fit in a nibble. */
  lemma WireLayout()
    ensures 1 + 15 < OMNS_PKT_MAX
    ensures OM_REGADDR_STATUS + OM_REGADDR_STATUS_LEN - 1 == OM_REGADDR_OUTPUT_STATE
    ensures OM_REGADDR_STATUS <= OM_REGADDR_CURRENT_TEMP < OM_REGADDR_STATUS + OM_REGADDR_STATUS_LEN
    ensures OMMT_GETG2 < 16 && OMMS_GRP2 < 16
    ensures FLAG_BYTE > MAX_ADDR && BCAST_ADDR == 0
  {
  }
}
