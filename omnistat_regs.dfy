/** The per-model register tables and the dispatch from a register address
    to its conversion routine (src/omnistat.c). A table entry is given by
    its flags and conversion routines; register names are not modelled. */
module OmnistatRegs {
  import opened Wrappers
  import opened OmnistatWire
  import opened CText
  import opened OmnistatConv

  /** The two register tables. */
  datatype Table = Rc8x | Rc2000

  const RC8X_NREGS: nat := 74
  /** rc2000_regs without the REGS2000_HACK entries. */
  const RC2000_NREGS: nat := 172

  function NRegs(t: Table): nat {
    match t
    case Rc8x => RC8X_NREGS
    case Rc2000 => RC2000_NREGS
  }

  /** om_model_table. */
  function OmModelTable(model: byte): (t: Option<Table>)
    ensures t == Some(Rc8x) <==> model in {0, 1, 8, 9, 16, 17, 34, 48, 49, 50}
    ensures t == Some(Rc2000) <==> model == 0x78
  {
    match model
    case 0 => Some(Rc8x)
    case 1 => Some(Rc8x)
    case 8 => Some(Rc8x)
    case 9 => Some(Rc8x)
    case 16 => Some(Rc8x)
    case 17 => Some(Rc8x)
    case 34 => Some(Rc8x)
    case 48 => Some(Rc8x)
    case 49 => Some(Rc8x)
    case 50 => Some(Rc8x)
    case 0x78 => Some(Rc2000)
    case _ => None
  }

  /** om_model_table_size. */
  function OmModelTableSize(model: byte): (n: nat)
  {
    match model
    case 0 => RC8X_NREGS
    case 1 => RC8X_NREGS
    case 8 => RC8X_NREGS
    case 9 => RC8X_NREGS
    case 16 => RC8X_NREGS
    case 17 => RC8X_NREGS
    case 34 => RC8X_NREGS
    case 48 => RC8X_NREGS
    case 49 => RC8X_NREGS
    case 50 => RC8X_NREGS
    case 0x78 => RC2000_NREGS
    case _ => 0
  }

  /** The two switches agree: the size is that of the selected table, and
      0 exactly when there is none. */
  lemma TableSizeAgrees(model: byte)
    ensures OmModelTableSize(model) == 0 <==> OmModelTable(model).None?
    ensures OmModelTable(model).Some? ==> OmModelTableSize(model) == NRegs(OmModelTable(model).value)
  {
  }

  /** omcs_model names exactly the models that have a table. */
  lemma ModelNamedIffTable(model: byte)
    ensures OmModelTable(model).Some? <==> OmcsModel(model)[..3] == "RC-"
    ensures OmModelTable(model).None? ==> OmcsModel(model) == "rc" + Dec(model) + "?"
  {
    if OmModelTable(model).None? {
      var s := OmcsModel(model);
      assert s[0] == 'r';
    }
  }

  // ----- table contents -----

  /** The day programs 0x15..0x38: a time then cool and heat setpoints,
      twelve registers per week part. */
  function ProgramEntry(i: nat, flags: nat): RegDef {
    if i % 3 == 0 then RegDef(flags, Some(Ptime), Some(Ptime)) else RegDef(flags, Some(Temp), Some(Temp))
  }

  /** Registers 0x3A..0x49, alike in both tables. */
  function StatusEntry(i: nat): RegDef
    requires 0x3A <= i <= 0x49
  {
    if i == 0x3A then RegDef(OK, Some(Day), Some(Int))
    else if i <= 0x3C then RegDef(OKG, Some(Temp), Some(Temp))
    else if i == 0x3D then RegDef(OKG, Some(Mode), Some(Mode))
    else if i == 0x3E then RegDef(OKG, Some(Fanm), Some(Fanm))
    else if i == 0x3F then RegDef(OKG, Some(Hold), Some(Hold))
    else if i == 0x40 then RegDef(ROK, Some(Temp), None)
    else if i <= 0x43 then RegDef(OK, Some(Int), Some(Int))
    else if i == 0x44 then RegDef(OK, Some(Temp), Some(Temp))
    else if i == 0x45 then RegDef(RESV, Some(Int), None)
    else if i == 0x46 then RegDef(OKG, Some(Int), Some(Int))
    else if i == 0x47 then RegDef(ROK, Some(Mode), None)
    else if i == 0x48 then RegDef(ROK, Some(Outst), None)
    else RegDef(ROK, Some(Model), None)
  }

  /** rc8x_regs[i]. */
  function Rc8xReg(i: nat): RegDef
    requires i < RC8X_NREGS
  {
    if i <= 2 then RegDef(ROK, Some(Int), Some(Int))
    else if i == 3 then RegDef(OKG, Some(Int), Some(Int))
    else if i == 4 then RegDef(OKG, Some(Tcal), Some(Tcal))
    else if i <= 6 then RegDef(OKG, Some(Temp), Some(Temp))
    else if i <= 8 then RegDef(RESV, Some(Int), None)
    else if i <= 0x0D then RegDef(OKG, Some(Int), Some(Int))
    else if i == 0x0E then RegDef(OKG, Some(Ccal), Some(Ccal))
    else if i <= 0x11 then RegDef(OK, Some(Int), Some(Int))
    else if i <= 0x14 then RegDef(OKG, Some(Int), Some(Int))
    else if i <= 0x38 then ProgramEntry(i - 0x15, OKG)
    else if i == 0x39 then RegDef(RESV, None, None)
    else StatusEntry(i)
  }

  /** rc2000_regs[i]. */
  function Rc2000Reg(i: nat): RegDef
    requires i < RC2000_NREGS
  {
    if i <= 2 then RegDef(ROK, Some(Int), Some(Int))
    else if i == 3 then RegDef(OKG, Some(Int), Some(Int))
    else if i == 4 then RegDef(OKG, Some(Tcal), Some(Tcal))
    else if i <= 6 then RegDef(OKG, Some(Temp), Some(Temp))
    else if i == 7 then RegDef(OKG, Some(Int), None)
    else if i == 8 then RegDef(ROK, Some(Int), None)
    else if i <= 0x0D then RegDef(OKG, Some(Int), Some(Int))
    else if i == 0x0E then RegDef(OKG, Some(Ccal), Some(Ccal))
    else if i == 0x0F then RegDef(OK, Some(Int), Some(Int))
    else if i <= 0x11 then RegDef(ROK, Some(Int), Some(Int))
    else if i <= 0x14 then RegDef(OKG, Some(Int), Some(Int))
    else if i <= 0x38 then ProgramEntry(i - 0x15, OKG)
    else if i == 0x39 then RegDef(OK, Some(Int), Some(Int))
    else if i <= 0x49 then StatusEntry(i)
    else if i == 74 then RegDef(OK, Some(Int), Some(Int))
    else if i <= 122 then ProgramEntry(i - 75, OKG)
    else if i <= 130 then RegDef(OKG, Some(Temp), Some(Temp))
    else RegDef(Rc2000SetupFlags(i), Some(Int), Some(Int))
  }

  /** Flags of the setup, vacation and energy registers 131..171. */
  function Rc2000SetupFlags(i: nat): nat
    requires 131 <= i < RC2000_NREGS
  {
    if i == 131 || i == 133 then OK
    else if i == 132 || i == 142 then ROK
    else if i == 134 || i == 135 || i == 138 then OKG
    else if 136 <= i <= 141 then OK
    else if i <= 147 then OKG
    else if i == 148 || i == 150 then RESV
    else if i == 149 || i == 151 then OK
    else if i <= 155 then ROK
    else if i <= 157 then RESV
    else if i <= 160 then OK
    else if i <= 162 then ROK
    else if i <= 164 then OKG
    else ROK
  }

  function Entry(t: Table, i: nat): RegDef
    requires i < NRegs(t)
  {
    match t
    case Rc8x => Rc8xReg(i)
    case Rc2000 => Rc2000Reg(i)
  }

  /** Every flag word in the tables is one of the enum's combinations. */
  predicate KnownFlags(f: nat) {
    f == RESV || f == ROK || f == OK || f == OKG
  }

  lemma TablesUseKnownFlags(t: Table, i: nat)
    requires i < NRegs(t)
    ensures KnownFlags(Entry(t, i).flags)
  {
  }

  /** The only entry without a render routine is rc8x register 0x39. */
  lemma RenderRoutines(t: Table, i: nat)
    requires i < NRegs(t)
    ensures Entry(t, i).cvtStr.None? <==> t == Rc8x && i == 0x39
  {
  }

  /** A writable register has a parse routine, except rc2000 register 7
      ("energy-efficient control mode enable"), flagged SV|OK with a NULL
      cvt_byte. */
  lemma WritableHasParser(t: Table, i: nat)
    requires i < NRegs(t)
    ensures HasFlag(Entry(t, i).flags, WOK) && Entry(t, i).cvtByte.None? <==> t == Rc2000 && i == 7
  {
    FlagAlgebra();
  }

  /** The status block polled every minute (OM_REGADDR_STATUS, 14 bytes)
      lies inside both tables and is readable except for the reserved
      register 0x45. */
  lemma StatusBlockReadable(t: Table, i: nat)
    requires OM_REGADDR_STATUS <= i < OM_REGADDR_STATUS + OM_REGADDR_STATUS_LEN
    ensures i < NRegs(t)
    ensures HasFlag(Entry(t, i).flags, ROK) <==> i != 0x45
    ensures i == OM_REGADDR_CURRENT_TEMP ==> Entry(t, i).cvtStr == Some(Temp)
    ensures i == OM_REGADDR_OUTPUT_STATE ==> Entry(t, i).cvtStr == Some(Outst)
  {
    FlagAlgebra();
  }

  /** The model register is read-only and rendered by omcs_model in both
      tables. */
  lemma ModelRegister(t: Table)
    ensures OM_REGADDR_MODEL < NRegs(t)
    ensures Entry(t, OM_REGADDR_MODEL) == RegDef(ROK, Some(Model), None)
  {
  }

  /** Day programs come in threes: time, cool setpoint, heat setpoint. */
  lemma ProgramTriples(t: Table, i: nat)
    requires 0x15 <= i <= 0x38 || (t == Rc2000 && 75 <= i <= 122)
    ensures i < NRegs(t)
    ensures Entry(t, i).cvtStr == Some(if (i - 0x15) % 3 == 0 then Ptime else Temp)
    ensures HasFlag(Entry(t, i).flags, SV)
  {
    FlagAlgebra();
    assert (i - 75) % 3 == (i - 0x15) % 3;
  }

  // ----- omcs_regval -----

  /** The result of a render routine. Temperatures are printed from a
      floating-point value; that formatting is not modelled. */
  datatype Rendered = Text(text: string) | FloatText(conv: Conv, raw: byte)

  /** cvt_str(str, val) for a render routine. */
  function Render(c: Conv, val: byte): Rendered {
    match c
    case Int => Text(OmcsInt(val))
    case Temp => FloatText(Temp, val)
    case Tcal => FloatText(Tcal, val)
    case Ptime => Text(OmcsPtime(val))
    case Ccal => Text(OmcsCcal(val))
    case Day => Text(OmcsDay(val))
    case Mode => Text(OmcsMode(val))
    case Fanm => Text(OmcsFanm(val))
    case Hold => Text(OmcsHold(val))
    case Outst => Text(OutstText(val))
    case Model => Text(OmcsModel(val))
  }

  /** `sprintf("rc%02x:REG0x%02x_0x%02x", model, regaddr, val)`. */
  function RawRegval(model: byte, regaddr: byte, val: byte): string {
    "rc" + Hex2(model) + ":REG0x" + Hex2(regaddr) + "_0x" + Hex2(val)
  }

  /** The guard of omcs_regval as written: `regtab && regaddr <= max_regs`. */
  predicate RegvalGuardAsWritten(regaddr: byte, model: byte) {
    OmModelTable(model).Some? && regaddr <= OmModelTableSize(model)
  }

  /** The guard lets through regaddr == max_regs, one past the end of the
      table, for both tables: e.g. register 74 of an RC-80 (model 0). */
  lemma RegvalGuardOverrun(model: byte)
    requires OmModelTable(model).Some?
    ensures RegvalGuardAsWritten(OmModelTableSize(model) as byte, model)
    ensures OmModelTableSize(model) >= NRegs(OmModelTable(model).value)
  {
  }

  lemma RegvalGuardOverrunExample()
    ensures RegvalGuardAsWritten(74, 0) && !(74 < NRegs(Rc8x))
  {
  }

  /** The register has a table entry under the given model. */
  predicate InTable(regaddr: byte, model: byte) {
    OmModelTable(model).Some? && regaddr < OmModelTableSize(model)
  }

  /** omcs_regval with the bound check `regaddr < max_regs`. The caller must
      not ask for rc8x register 0x39, whose render routine is NULL. Only a
      table entry can give a floating-point rendering, and it is of the
      given value; anything else is the 17-character raw "rc.." text. */
  function Regval(regaddr: byte, val: byte, model: byte): (r: Rendered)
    requires InTable(regaddr, model) ==> Entry(OmModelTable(model).value, regaddr).cvtStr.Some?
    ensures r.FloatText? ==> InTable(regaddr, model) && r.raw == val
    ensures !InTable(regaddr, model) ==> r.Text? && |r.text| == 17 && r.text[..2] == "rc"
  {
    if InTable(regaddr, model) then
      Render(Entry(OmModelTable(model).value, regaddr).cvtStr.value, val)
    else
      Text(RawRegval(model, regaddr, val))
  }

  /** Unknown models and out-of-table registers get the raw rendering. */
  lemma RegvalFallback(regaddr: byte, val: byte, model: byte)
    requires OmModelTable(model).None? || regaddr >= NRegs(OmModelTable(model).value)
    ensures Regval(regaddr, val, model) == Text(RawRegval(model, regaddr, val))
    ensures |Regval(regaddr, val, model).text| == 17
  {
  }

  /** The model register renders the model name under every known model. */
  lemma RegvalModel(val: byte, model: byte)
    requires OmModelTable(model).Some?
    ensures Regval(OM_REGADDR_MODEL, val, model) == Text(OmcsModel(val))
  {
    ModelRegister(OmModelTable(model).value);
  }

  /** The output-state register renders the heat/cool and output bits,
      which can be read back. */
  lemma RegvalOutputState(val: byte, model: byte)
    requires OmModelTable(model).Some?
    ensures Regval(OM_REGADDR_OUTPUT_STATE, val, model) == Text(OutstText(val))
    ensures ParseOutputs(Regval(OM_REGADDR_OUTPUT_STATE, val, model).text) == OutputBits(val)
  {
    StatusBlockReadable(OmModelTable(model).value, OM_REGADDR_OUTPUT_STATE);
    OutstDecodes(val);
  }

  /** Every integer register renders as a decimal that omcb_int reads back. */
  lemma RegvalIntRoundTrip(regaddr: byte, val: byte, model: byte)
    requires InTable(regaddr, model)
    requires Entry(OmModelTable(model).value, regaddr).cvtStr == Some(Int)
    ensures Regval(regaddr, val, model).Text?
    ensures OmcbInt(Regval(regaddr, val, model).text) == val
  {
    IntRoundTrip(val);
  }
}
