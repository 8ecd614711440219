/** The byte <-> string conversions of register values (src/omnistat.c).
    `omcs_*` render a register byte into a caller buffer; here they return
    the string. `omcb_*` parse a string back into a register byte.
    Temperatures are floating point in the source and are not modelled. */
module OmnistatConv {
  import opened OmnistatWire
  import opened CText
  import opened Wrappers

  // ----- plain integers -----

  /** omcs_int: `%d`. */
  function OmcsInt(b: byte): string {
    Dec(b)
  }

  /** omcb_int: `atoi(s) & 0xff`. C's `& 0xff` on a two's-complement int
      and Dafny's Euclidean `% 256` agree, negative values included. */
  function OmcbInt(s: string): byte {
    Atoi(s) % 256
  }

  lemma IntRoundTrip(b: byte)
    ensures OmcbInt(OmcsInt(b)) == b
  {
    AtoiDecInt(b);
  }

  /** omcb_int keeps the low 8 bits of any integer it parses. */
  lemma IntKeepsLowByte(n: int)
    ensures OmcbInt(DecInt(n)) == n % 256
  {
    AtoiDecInt(n);
  }

  // ----- program times: quarter hours since midnight, 96 = none -----

  /** omcs_ptime. */
  function OmcsPtime(b: byte): (s: string)
    ensures b >= 96 <==> s == "none"
    ensures b < 96 ==> |s| == 5 && s[2] == ':' && s[3..] in {"00", "15", "30", "45"}
  {
    if b >= 96 then "none" else TimeText(b / 4, b % 4 * 15)
  }

  /** `sprintf("%02d:%02d", h, m)`. */
  function TimeText(h: nat, m: nat): (s: string)
    requires h < 100 && m < 100
    ensures |s| == 5 && s[2] == ':'
  {
    Pad2(h) + ":" + Pad2(m)
  }

  /** omcb_ptime. None when `sscanf` fills neither or only one of hour and
      minute: the source then computes with an uninitialised variable. */
  function OmcbPtime(s: string): Option<byte> {
    if s == "none" then Some(96)
    else match ScanInt(s)
      case None => None
      case Some((hour, rest)) =>
        if rest != [] && rest[0] == ':' then
          match ScanInt(rest[1..])
          case None => None
          case Some((min, _)) => Some((hour * 4 + CDiv(min, 15)) % 256)
        else None
  }

  /** How omcb_ptime combines the two fields it scanned. */
  lemma PtimeParsed(s: string, hour: int, rest: string, min: int, rest2: string)
    requires s != "none" && ScanInt(s) == Some((hour, rest))
    requires rest != [] && rest[0] == ':' && ScanInt(rest[1..]) == Some((min, rest2))
    ensures OmcbPtime(s) == Some((hour * 4 + CDiv(min, 15)) % 256)
  {
  }

  /** Reading back the rendering of hour h and minute m. */
  lemma PtimeFields(h: nat, m: nat)
    requires h < 24 && m < 60
    ensures OmcbPtime(TimeText(h, m)) == Some((h * 4 + CDiv(m, 15)) % 256)
  {
    var rest := ":" + Pad2(m);
    ScanPad2(h, rest);
    assert rest[1..] == Pad2(m) + [];
    ScanPad2(m, []);
    var s := Pad2(h) + rest;
    assert TimeText(h, m) == s;
    assert s[0] != 'n';
    PtimeParsed(s, h, rest, m, []);
  }

  /** Hour and minute fields of quarter-hour b read back as b. */
  lemma QuarterIndex(b: nat)
    requires b < 96
    ensures (b / 4 * 4 + CDiv(b % 4 * 15, 15)) % 256 == b
  {
    var q := b % 4;
    assert b / 4 * 4 + q == b;
    if q == 0 {} else if q == 1 {} else if q == 2 {} else {}
  }

  lemma PtimeRoundTrip(b: byte)
    ensures OmcbPtime(OmcsPtime(b)) == Some(if b < 96 then b else 96)
  {
    if b < 96 {
      PtimeQuarter(b);
    } else {
      assert OmcsPtime(b) == "none";
    }
  }

  /** A quarter-hour before midnight is rendered as its hour and minute
      fields, which read back as it. */
  lemma PtimeQuarter(b: nat)
    requires b < 96
    ensures OmcbPtime(OmcsPtime(b)) == Some(b)
  {
    var h, m := b / 4, b % 4 * 15;
    assert OmcsPtime(b) == TimeText(h, m);
    QuarterIndex(b);
    PtimeOfFields(h, m, b);
  }

  lemma PtimeOfFields(h: nat, m: nat, v: byte)
    requires h < 24 && m < 60 && (h * 4 + CDiv(m, 15)) % 256 == v
    ensures OmcbPtime(TimeText(h, m)) == Some(v)
  {
    PtimeFields(h, m);
  }

  // ----- clock calibration, signed seconds per day, stored +30 -----

  /** omcs_ccal: `%+d` of b - 30. */
  function OmcsCcal(b: byte): string {
    PlusDec(b - 30)
  }

  /** omcb_ccal: atoi(s) + 30 clamped to 1..59. */
  function OmcbCcal(s: string): (r: byte)
    ensures 1 <= r <= 59
    ensures 1 <= Atoi(s) + 30 <= 59 ==> r == Atoi(s) + 30
    ensures Atoi(s) + 30 < 1 ==> r == 1
    ensures Atoi(s) + 30 > 59 ==> r == 59
  {
    var i := Atoi(s) + 30;
    var i1 := if i < 1 then 1 else i;
    var i2 := if i1 > 59 then 59 else i1;
    i2 % 256
  }

  lemma CcalRoundTrip(b: byte)
    requires 1 <= b <= 59
    ensures OmcbCcal(OmcsCcal(b)) == b
  {
    AtoiPlusDec(b - 30);
  }

  // ----- model codes -----

  /** omcs_model. */
  function OmcsModel(b: byte): string {
    match b
    case 0 => "RC-80"
    case 1 => "RC-81"
    case 8 => "RC-90"
    case 9 => "RC-91"
    case 16 => "RC-100"
    case 17 => "RC-101"
    case 34 => "RC-112"
    case 48 => "RC-120"
    case 49 => "RC-121"
    case 50 => "RC-122"
    case 0x78 => "RC-2000"
    case _ => "rc" + Dec(b) + "?"
  }

  // ----- enumerated modes -----

  const ModeNames: seq<string> := ["off", "heat", "cool", "auto", "em-heat"]
  const FanNames: seq<string> := ["auto", "on"]
  const DayNames: seq<string> := ["Monday", "Tuesay", "Wednesday", "Thursday", "Friday", "Saturday", "Sunday"]

  /** Index of the first name that equals s ignoring case, |names| if none. */
  function FirstMatch(names: seq<string>, s: string): (k: nat)
    ensures k <= |names|
    ensures k < |names| ==> EqualsIgnoreCase(s, names[k])
    ensures forall j :: 0 <= j < k ==> !EqualsIgnoreCase(s, names[j])
  {
    if names == [] then 0
    else if EqualsIgnoreCase(s, names[0]) then 0
    else 1 + FirstMatch(names[1..], s)
  }

  /** What the linear searches of omcb_mode and omcb_fanm return. */
  function SearchByte(names: seq<string>, s: string): (b: byte)
    requires |names| < 256
    ensures b < |names| || b == 0
    ensures (exists i :: 0 <= i < |names| && EqualsIgnoreCase(s, names[i])) ==>
      b < |names| && EqualsIgnoreCase(s, names[b]) &&
      forall j :: 0 <= j < b ==> !EqualsIgnoreCase(s, names[j])
    ensures (forall i :: 0 <= i < |names| ==> !EqualsIgnoreCase(s, names[i])) ==> b == 0
  {
    var k := FirstMatch(names, s);
    if k < |names| then k else 0
  }

  /** The loop of omcb_mode and omcb_fanm, over the table `names`. */
  method Search(names: seq<string>, s: string) returns (b: byte)
    requires |names| < 256
    ensures b == SearchByte(names, s)
  {
    var i := 0;
    while i < |names|
      invariant 0 <= i <= |names|
      invariant forall j :: 0 <= j < i ==> !EqualsIgnoreCase(s, names[j])
    {
      if EqualsIgnoreCase(s, names[i]) {
        FirstMatchIs(names, s, i);
        return i;
      }
      i := i + 1;
    }
    FirstMatchIs(names, s, |names|);
    return 0;
  }

  lemma {:induction false} FirstMatchIs(names: seq<string>, s: string, k: nat)
    requires k <= |names|
    requires k < |names| ==> EqualsIgnoreCase(s, names[k])
    requires forall j :: 0 <= j < k ==> !EqualsIgnoreCase(s, names[j])
    ensures FirstMatch(names, s) == k
  {
    if names != [] && k > 0 {
      FirstMatchIs(names[1..], s, k - 1);
    }
  }

  /** omcb_mode: case-insensitive search of the mode names, 0 if none. */
  method OmcbMode(s: string) returns (b: byte)
    ensures b == SearchByte(ModeNames, s)
  {
    b := Search(ModeNames, s);
  }

  /** omcb_fanm: case-insensitive search of the fan names, 0 if none. */
  method OmcbFanm(s: string) returns (b: byte)
    ensures b == SearchByte(FanNames, s)
  {
    b := Search(FanNames, s);
  }

  /** omcs_mode. */
  function OmcsMode(b: byte): string {
    if b < |ModeNames| then ModeNames[b] else "mode " + Dec(b) + "?"
  }

  /** omcs_fanm. */
  function OmcsFanm(b: byte): string {
    if b < |FanNames| then FanNames[b] else "fan mode " + Dec(b) + "?"
  }

  /** omcs_day; the thermostat counts 0 = Monday. */
  function OmcsDay(b: byte): string {
    if b < |DayNames| then DayNames[b] else "day " + Dec(b) + "?"
  }

  /** No two names of the table are equal ignoring case. */
  predicate DistinctIgnoringCase(names: seq<string>) {
    forall i, j :: 0 <= i < |names| && 0 <= j < |names| && i != j ==>
      !EqualsIgnoreCase(names[i], names[j])
  }

  /** Names whose first characters are distinct and not upper case are
      distinct ignoring case. */
  lemma DistinctByHead(names: seq<string>)
    requires forall i :: 0 <= i < |names| ==> names[i] != [] && !('A' <= names[i][0] <= 'Z')
    requires forall i, j :: 0 <= i < |names| && 0 <= j < |names| && i != j ==> names[i][0] != names[j][0]
    ensures DistinctIgnoringCase(names)
  {
    forall i, j | 0 <= i < |names| && 0 <= j < |names| && i != j
      ensures !EqualsIgnoreCase(names[i], names[j])
    {
      assert ToLower(names[i][0]) == names[i][0] && ToLower(names[j][0]) == names[j][0];
      if |names[i]| == |names[j]| {
        assert ToLower(names[i][0]) != ToLower(names[j][0]);
      }
    }
  }

  lemma ModeNamesDistinct()
    ensures DistinctIgnoringCase(ModeNames)
  {
    assert ModeNames[0][0] == 'o' && ModeNames[1][0] == 'h' && ModeNames[2][0] == 'c';
    assert ModeNames[3][0] == 'a' && ModeNames[4][0] == 'e';
    DistinctByHead(ModeNames);
  }

  lemma FanNamesDistinct()
    ensures DistinctIgnoringCase(FanNames)
  {
    assert FanNames[0][0] == 'a' && FanNames[1][0] == 'o';
    DistinctByHead(FanNames);
  }

  lemma SearchRoundTrip(names: seq<string>, b: byte)
    requires |names| < 256 && b < |names|
    requires DistinctIgnoringCase(names)
    ensures SearchByte(names, names[b]) == b
  {
    FirstMatchIs(names, names[b], b);
  }

  lemma ModeRoundTrip(b: byte)
    requires b < 5
    ensures SearchByte(ModeNames, OmcsMode(b)) == b
  {
    ModeNamesDistinct();
    SearchRoundTrip(ModeNames, b);
  }

  lemma FanRoundTrip(b: byte)
    requires b < 2
    ensures SearchByte(FanNames, OmcsFanm(b)) == b
  {
    FanNamesDistinct();
    SearchRoundTrip(FanNames, b);
  }

  /** An out-of-range mode renders as "mode <b>?": that is none of the mode
      names, and omcb_mode reads it back as 0. */
  lemma ModeFallback(b: byte)
    ensures OmcsMode(b) in ModeNames <==> b < 5
    ensures b >= 5 ==> SearchByte(ModeNames, OmcsMode(b)) == 0
  {
    if b >= 5 {
      var s := OmcsMode(b);
      assert s[0] == 'm';
      forall i | 0 <= i < |ModeNames|
        ensures !EqualsIgnoreCase(s, ModeNames[i]) && s != ModeNames[i]
      {
        assert ModeNames[i][0] in {'o', 'h', 'c', 'a', 'e'};
        if |s| == |ModeNames[i]| {
          assert ToLower(s[0]) != ToLower(ModeNames[i][0]);
        }
      }
    }
  }

  /** An out-of-range fan mode renders as "fan mode <b>?": that is neither
      fan name, and omcb_fanm reads it back as 0. */
  lemma FanFallback(b: byte)
    ensures OmcsFanm(b) in FanNames <==> b < 2
    ensures b >= 2 ==> SearchByte(FanNames, OmcsFanm(b)) == 0
  {
    if b >= 2 {
      var s := OmcsFanm(b);
      assert |s| > 4;
      forall i | 0 <= i < |FanNames|
        ensures !EqualsIgnoreCase(s, FanNames[i]) && s != FanNames[i]
      {
        assert |FanNames[i]| <= 4;
      }
    }
  }

  /** omcs_day names a weekday exactly for 0..6 and renders "day <b>?"
      otherwise. */
  lemma DayFallback(b: byte)
    ensures OmcsDay(b) in DayNames <==> b < 7
    ensures OmcsDay(0) == "Monday" && OmcsDay(6) == "Sunday"
  {
    if b >= 7 {
      var s := OmcsDay(b);
      assert s[0] == 'd';
      forall i | 0 <= i < |DayNames| ensures s != DayNames[i] {
        assert DayNames[i][0] in {'M', 'T', 'W', 'F', 'S'};
      }
    }
  }

  /** The search result depends only on the lower-cased input. */
  lemma {:induction false} SearchIgnoresCase(names: seq<string>, s: string, t: string)
    requires |names| < 256
    requires |s| == |t| && forall i :: 0 <= i < |s| ==> ToLower(s[i]) == ToLower(t[i])
    ensures SearchByte(names, s) == SearchByte(names, t)
  {
    FirstMatchIgnoresCase(names, s, t);
  }

  lemma {:induction false} FirstMatchIgnoresCase(names: seq<string>, s: string, t: string)
    requires |s| == |t| && forall i :: 0 <= i < |s| ==> ToLower(s[i]) == ToLower(t[i])
    ensures FirstMatch(names, s) == FirstMatch(names, t)
  {
    if names != [] {
      EqualsIgnoreCaseLower(s, t, names[0]);
      FirstMatchIgnoresCase(names[1..], s, t);
    }
  }

  // ----- hold mode -----

  /** omcb_hold: exact (case-sensitive) comparison. */
  function OmcbHold(s: string): (r: byte)
    ensures r == 255 <==> s == "hold"
    ensures r == 0 <==> s != "hold"
  {
    if s == "auto" then 0 else if s == "hold" then 255 else 0
  }

  /** omcs_hold. */
  function OmcsHold(b: byte): (s: string)
    ensures b != 0 && b != 255 ==> s == "hold mode " + Dec(b) + "?"
  {
    if b == 0 then "auto" else if b == 255 then "hold" else "hold mode " + Dec(b) + "?"
  }

  lemma HoldRoundTrip()
    ensures OmcbHold(OmcsHold(0)) == 0 && OmcbHold(OmcsHold(255)) == 255
    ensures OmcsHold(OmcbHold("auto")) == "auto" && OmcsHold(OmcbHold("hold")) == "hold"
  {
  }

  // ----- output status bits of register 0x48 -----

  /** Bits 0..4 of register 0x48; bits 5..7 are not rendered. */
  datatype Outputs = Outputs(heat: bool, emHeat: bool, run: bool, fan: bool, s2: bool)

  function OutputBits(b: byte): Outputs {
    Outputs(b % 2 == 1, (b / 2) % 2 == 1, (b / 4) % 2 == 1, (b / 8) % 2 == 1, (b / 16) % 2 == 1)
  }

  /** The tokens omcs_outst appends for bits 1..4, in order. */
  const OutTokens: seq<string> := ["|em-heat", "|run", "|fan", "|s2"]

  /** A token that appears in the rendering when its bit is set. */
  function Piece(on: bool, t: string): string {
    if on then t else ""
  }

  /** The tokens of ts whose flag is set, in order. */
  function Pieces(on: seq<bool>, ts: seq<string>): string
    requires |on| == |ts|
  {
    if ts == [] then "" else Piece(on[0], ts[0]) + Pieces(on[1..], ts[1..])
  }

  /** The string omcs_outst builds for the given bits. */
  function OutputsText(o: Outputs): string {
    (if o.heat then "heat" else "cool") + Pieces([o.emHeat, o.run, o.fan, o.s2], OutTokens)
  }

  /** What omcs_outst leaves in its buffer. */
  function OutstText(b: byte): string {
    OutputsText(OutputBits(b))
  }

  /** omcs_outst: strcpy of the heat/cool word, then one strcat per bit. */
  method OmcsOutst(b: byte) returns (sp: string)
    ensures sp == OutstText(b)
  {
    ghost var o := OutputBits(b);
    if b % 2 == 1 {
      sp := "heat";
    } else {
      sp := "cool";
    }
    ghost var w := sp;
    if (b / 2) % 2 == 1 {
      sp := sp + "|em-heat";
    }
    assert sp == w + Piece(o.emHeat, "|em-heat");
    ghost var w1 := sp;
    if (b / 4) % 2 == 1 {
      sp := sp + "|run";
    }
    assert sp == w1 + Piece(o.run, "|run");
    ghost var w2 := sp;
    if (b / 8) % 2 == 1 {
      sp := sp + "|fan";
    }
    assert sp == w2 + Piece(o.fan, "|fan");
    ghost var w3 := sp;
    if (b / 16) % 2 == 1 {
      sp := sp + "|s2";
    }
    assert sp == w3 + Piece(o.s2, "|s2");
    OutputsTextSteps(o);
  }

  /** OutputsText as the sequence of appends that omcs_outst performs. */
  lemma OutputsTextSteps(o: Outputs)
    ensures OutputsText(o) == (if o.heat then "heat" else "cool") + Piece(o.emHeat, "|em-heat") +
      Piece(o.run, "|run") + Piece(o.fan, "|fan") + Piece(o.s2, "|s2")
  {
    PiecesOfFour(o.emHeat, o.run, o.fan, o.s2, "|em-heat", "|run", "|fan", "|s2");
    var w := if o.heat then "heat" else "cool";
    var p1, p2, p3, p4 := Piece(o.emHeat, "|em-heat"), Piece(o.run, "|run"), Piece(o.fan, "|fan"), Piece(o.s2, "|s2");
    AppendAssoc(w, p1 + p2 + p3, p4);
    AppendAssoc(w, p1 + p2, p3);
    AppendAssoc(w, p1, p2);
  }

  lemma PiecesCons(x: bool, on: seq<bool>, t: string, ts: seq<string>)
    requires |on| == |ts|
    ensures Pieces([x] + on, [t] + ts) == Piece(x, t) + Pieces(on, ts)
  {
    assert ([x] + on)[1..] == on && ([t] + ts)[1..] == ts;
  }

  lemma PiecesOfFour(e: bool, r: bool, f: bool, s2: bool, t1: string, t2: string, t3: string, t4: string)
    ensures Pieces([e, r, f, s2], [t1, t2, t3, t4]) ==
      Piece(e, t1) + Piece(r, t2) + Piece(f, t3) + Piece(s2, t4)
  {
    PiecesOfTwo(f, s2, t3, t4);
    PiecesCons(r, [f, s2], t2, [t3, t4]);
    assert [r, f, s2] == [r] + [f, s2] && [t2, t3, t4] == [t2] + [t3, t4];
    PiecesCons(e, [r, f, s2], t1, [t2, t3, t4]);
    assert [e, r, f, s2] == [e] + [r, f, s2] && [t1, t2, t3, t4] == [t1] + [t2, t3, t4];
    var p1, p2, p3, p4 := Piece(e, t1), Piece(r, t2), Piece(f, t3), Piece(s2, t4);
    AppendAssoc(p2, p3, p4);
    AppendAssoc(p1, p2 + p3, p4);
    AppendAssoc(p1, p2, p3);
  }

  lemma PiecesOfTwo(f: bool, s2: bool, t3: string, t4: string)
    ensures Pieces([f, s2], [t3, t4]) == Piece(f, t3) + Piece(s2, t4)
  {
    var none: seq<bool> := [];
    var nots: seq<string> := [];
    assert Pieces(none, nots) == "";
    PiecesCons(s2, none, t4, nots);
    assert [s2] == [s2] + none && [t4] == [t4] + nots;
    PiecesCons(f, [s2], t3, [t4]);
    assert [f, s2] == [f] + [s2] && [t3, t4] == [t3] + [t4];
    assert Piece(s2, t4) + "" == Piece(s2, t4);
  }

  /** Strips token t from the front of s when it is there. */
  function Take(s: string, t: string): (bool, string) {
    if |t| <= |s| && s[..|t|] == t then (true, s[|t|..]) else (false, s)
  }

  /** Which tokens of ts, tried in order, are found at the front of s. */
  function TakeAll(s: string, ts: seq<string>): (on: seq<bool>)
    ensures |on| == |ts|
  {
    if ts == [] then [] else
      var r := Take(s, ts[0]);
      [r.0] + TakeAll(r.1, ts[1..])
  }

  /** Reads the output bits back out of a rendering. */
  function ParseOutputs(s: string): Outputs {
    var heat := |s| >= 4 && s[..4] == "heat";
    var on := TakeAll(if |s| >= 4 then s[4..] else s, OutTokens);
    Outputs(heat, on[0], on[1], on[2], on[3])
  }

  /** Tokens of at least two characters that differ in their second. */
  predicate Separable(ts: seq<string>) {
    (forall i :: 0 <= i < |ts| ==> |ts[i]| >= 2) &&
    forall i, j :: 0 <= i < j < |ts| ==> ts[i][1] != ts[j][1]
  }

  /** A token is found exactly when it was written: the next token, if
      any, differs from it in its second character. */
  lemma TakePiece(on: bool, t: string, rest: string)
    requires |t| >= 2
    requires rest == [] || (|rest| >= 2 && rest[1] != t[1])
    ensures Take(Piece(on, t) + rest, t) == (on, rest)
  {
    var s := Piece(on, t) + rest;
    if on {
      assert s[..|t|] == t && s[|t|..] == rest;
    } else {
      assert s == rest;
      if |t| <= |s| { assert s[..|t|][1] != t[1]; }
    }
  }

  /** A rendering of tokens ts is empty or starts with one of them. */
  lemma {:induction false} PiecesHead(on: seq<bool>, ts: seq<string>)
    requires |on| == |ts| && Separable(ts)
    ensures var s := Pieces(on, ts);
      s == [] || (|s| >= 2 && exists i :: 0 <= i < |ts| && s[1] == ts[i][1])
  {
    if ts != [] {
      PiecesHead(on[1..], ts[1..]);
      var rest := Pieces(on[1..], ts[1..]);
      if on[0] {
        assert (ts[0] + rest)[1] == ts[0][1];
      } else if rest != [] {
        var i :| 0 <= i < |ts[1..]| && rest[1] == ts[1..][i][1];
        assert rest[1] == ts[i + 1][1];
      }
    }
  }

  lemma {:induction false} TakeAllPieces(on: seq<bool>, ts: seq<string>)
    requires |on| == |ts| && Separable(ts)
    ensures TakeAll(Pieces(on, ts), ts) == on
  {
    if ts != [] {
      var rest := Pieces(on[1..], ts[1..]);
      PiecesHead(on[1..], ts[1..]);
      if rest != [] {
        var i :| 0 <= i < |ts[1..]| && rest[1] == ts[1..][i][1];
        assert ts[0][1] != ts[i + 1][1];
      }
      TakePiece(on[0], ts[0], rest);
      TakeAllPieces(on[1..], ts[1..]);
    }
  }

  /** The rendering is one-to-one on the five bits. */
  lemma OutputsRoundTrip(o: Outputs)
    ensures ParseOutputs(OutputsText(o)) == o
  {
    var on := [o.emHeat, o.run, o.fan, o.s2];
    var w := if o.heat then "heat" else "cool";
    var s := w + Pieces(on, OutTokens);
    assert s[..4] == w && s[4..] == Pieces(on, OutTokens);
    TakeAllPieces(on, OutTokens);
  }

  /** The status byte is recovered from its rendering up to bits 5..7. */
  lemma OutstDecodes(b: byte)
    ensures ParseOutputs(OutstText(b)) == OutputBits(b)
  {
    OutputsRoundTrip(OutputBits(b));
  }
}
