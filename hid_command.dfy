/** The 64-byte HID report codec of the status button.

    An outgoing report carries an opcode at offset 0 and, for the set-output
    opcode, a control/data byte pair per indicator line: red at 2/3, green at
    10/11, blue at 14/15. An incoming report carries the button's control byte
    at offset 4. */
module Hid {
  import opened Codes
  import opened Opt

  newtype byte = x: int | 0 <= x < 256

  const ReportSize := 64

  // Offsets into an outgoing report.
  const StartIdx := 0
  const RedCtrlIdx := 2
  const RedDataIdx := 3
  const GreenCtrlIdx := 10
  const GreenDataIdx := 11
  const BlueCtrlIdx := 14
  const BlueDataIdx := 15

  // Offsets into an incoming report.
  const BtnCtrlIdx := 4
  const BtnDataIdx := 5

  const OpcodeSetOutput: byte := 0x50
  const OpcodeQueryStatus: byte := 0x51

  predicate IsColor(c: int) {
    LightColorRed <= c <= LightColorBlue
  }

  /** Offset of the control byte of colour line c. */
  function CtrlIdx(c: int): nat
    requires IsColor(c)
  {
    if c == LightColorRed then RedCtrlIdx
    else if c == LightColorGreen then GreenCtrlIdx
    else BlueCtrlIdx
  }

  /** Offset of the data byte of colour line c. */
  function DataIdx(c: int): nat
    requires IsColor(c)
  {
    if c == LightColorRed then RedDataIdx
    else if c == LightColorGreen then GreenDataIdx
    else BlueDataIdx
  }

  /** The offsets an outgoing report may hold a non-zero byte at. */
  predicate IsUsedOffset(i: int) {
    i == StartIdx || i == RedCtrlIdx || i == RedDataIdx || i == GreenCtrlIdx
    || i == GreenDataIdx || i == BlueCtrlIdx || i == BlueDataIdx
  }

  /** A freshly allocated buffer: 64 zero bytes. */
  function Zeros(): seq<byte> {
    seq(ReportSize, _ => 0 as byte)
  }

  /** The buffer after setColorOff(): all three pairs set to control 1, data 1. */
  function ColorsOff(f: seq<byte>): (g: seq<byte>)
    requires |f| == ReportSize
    ensures |g| == ReportSize
    ensures forall i | 0 <= i < ReportSize ::
      g[i] == if IsUsedOffset(i) && i != StartIdx then 1 else f[i]
  {
    f[RedCtrlIdx := 1][RedDataIdx := 1]
     [GreenCtrlIdx := 1][GreenDataIdx := 1]
     [BlueCtrlIdx := 1][BlueDataIdx := 1]
  }

  /** The buffer after setColorData(color, enabled): the colour's pair gets
      control 1 and data 0 when enabled, 1 otherwise; any other colour value
      leaves the buffer as it is. */
  function ColorData(f: seq<byte>, color: int, enabled: bool): (g: seq<byte>)
    requires |f| == ReportSize
    ensures |g| == ReportSize
    ensures IsColor(color) ==> g[CtrlIdx(color)] == 1 && g[DataIdx(color)] == if enabled then 0 else 1
    ensures forall i | 0 <= i < ReportSize && (!IsColor(color) || (i != CtrlIdx(color) && i != DataIdx(color))) ::
      g[i] == f[i]
  {
    if IsColor(color) then
      f[CtrlIdx(color) := 1][DataIdx(color) := if enabled then 0 else 1]
    else f
  }

  /** The report generate() builds for an action and the two colours held,
      or None where it returns null. */
  function Report(action: int, pressed: int, released: int): (r: Option<seq<byte>>)
    ensures r.Some? ==> |r.value| == ReportSize
    ensures r.Some? ==> (
      r.value[StartIdx] ==
        if action == TxBtnStatus then OpcodeQueryStatus
        else if action == TxBtnOff || action == TxBtnPressed || action == TxBtnReleased then OpcodeSetOutput
        else 0)
  {
    if action == TxBtnOff then
      Some(ColorsOff(Zeros()[StartIdx := OpcodeSetOutput]))
    else if action == TxBtnPressed || action == TxBtnReleased then
      if pressed == LightColorNone || released == LightColorNone then None
      else
        var off := ColorsOff(Zeros()[StartIdx := OpcodeSetOutput]);
        Some(ColorData(ColorData(off, pressed, action == TxBtnPressed), released, action != TxBtnPressed))
    else if action == TxBtnStatus then
      Some(Zeros()[StartIdx := OpcodeQueryStatus])
    else
      Some(Zeros())
  }

  /** Decodes the button state of an incoming report: Pressed exactly when the
      button control byte is zero, Released for every other value. */
  function ResolveBtnStatus(rx: seq<byte>): (status: int)
    requires |rx| > BtnCtrlIdx
    ensures status == TxBtnPressed || status == TxBtnReleased
    ensures status == TxBtnPressed <==> rx[BtnCtrlIdx] == 0
  {
    if rx[BtnCtrlIdx] == 0 then TxBtnPressed else TxBtnReleased
  }

  /** One outgoing command: the action and the two colours it was built with,
      and the buffer generate() fills in place. */
  class HidCommand {
    var action: int
    var pressedColor: int
    var releasedColor: int
    var txData: array?<byte>

    constructor (action: int, pressedColor: int, releasedColor: int)
      ensures this.action == action
      ensures this.pressedColor == pressedColor
      ensures this.releasedColor == releasedColor
      ensures txData == null
    {
      this.action := action;
      this.pressedColor := pressedColor;
      this.releasedColor := releasedColor;
      txData := null;
    }

    /** Allocates a zeroed 64-byte buffer and writes the report for the
        action into it; null when a colour command lacks a colour. */
    method Generate() returns (tx: array?<byte>)
      modifies this`txData
      ensures tx == txData
      ensures tx == null <==> Report(action, pressedColor, releasedColor).None?
      ensures tx != null ==> fresh(tx) && tx[..] == Report(action, pressedColor, releasedColor).value
    {
      txData := new byte[ReportSize](_ => 0);
      assert txData[..] == Zeros();
      if action == TxBtnOff {
        txData[StartIdx] := OpcodeSetOutput;
        SetColorOff();
      } else if action == TxBtnPressed || action == TxBtnReleased {
        txData[StartIdx] := OpcodeSetOutput;
        if pressedColor == LightColorNone || releasedColor == LightColorNone {
          txData := null;
        } else {
          SetColorOff();
          SetColorData(pressedColor, action == TxBtnPressed);
          SetColorData(releasedColor, action != TxBtnPressed);
        }
      } else if action == TxBtnStatus {
        txData[StartIdx] := OpcodeQueryStatus;
      }
      tx := txData;
    }

    /** Writes the off pattern into all three colour pairs. */
    method SetColorOff()
      requires txData != null && txData.Length == ReportSize
      modifies txData
      ensures txData[..] == ColorsOff(old(txData[..]))
    {
      txData[RedCtrlIdx] := 1;
      txData[RedDataIdx] := 1;
      txData[GreenCtrlIdx] := 1;
      txData[GreenDataIdx] := 1;
      txData[BlueCtrlIdx] := 1;
      txData[BlueDataIdx] := 1;
    }

    /** Writes the pair of one colour line: data 0 when enabled, 1 otherwise. */
    method SetColorData(color: int, enabled: bool)
      requires txData != null && txData.Length == ReportSize
      modifies txData
      ensures txData[..] == ColorData(old(txData[..]), color, enabled)
    {
      if color == LightColorRed {
        txData[RedCtrlIdx] := 1;
        txData[RedDataIdx] := if enabled then 0 else 1;
      } else if color == LightColorGreen {
        txData[GreenCtrlIdx] := 1;
        txData[GreenDataIdx] := if enabled then 0 else 1;
      } else if color == LightColorBlue {
        txData[BlueCtrlIdx] := 1;
        txData[BlueDataIdx] := if enabled then 0 else 1;
      }
    }
  }

  // ---------------------------------------------------------------------
  // Properties of the reports.

  /** Every report generate() returns is 64 bytes long and zero outside the
      opcode and the three colour pairs. */
  lemma ReportShape(action: int, pressed: int, released: int)
    ensures Report(action, pressed, released).Some? ==>
      var f := Report(action, pressed, released).value;
      |f| == ReportSize && forall i | 0 <= i < |f| && !IsUsedOffset(i) :: f[i] == 0
  {
  }

  /** generate() returns null exactly for a colour command with a colour unset. */
  lemma ReportNullIff(action: int, pressed: int, released: int)
    ensures Report(action, pressed, released).None? <==>
      (action == TxBtnPressed || action == TxBtnReleased)
      && (pressed == LightColorNone || released == LightColorNone)
  {
  }

  /** The off report: set-output opcode and every colour pair at control 1, data 1. */
  lemma OffReport(pressed: int, released: int)
    ensures Report(TxBtnOff, pressed, released).Some?
    ensures var f := Report(TxBtnOff, pressed, released).value;
      f[StartIdx] == 0x50
      && forall c | IsColor(c) :: f[CtrlIdx(c)] == 1 && f[DataIdx(c)] == 1
  {
  }

  /** The status query: opcode 0x51 and 63 zero bytes. */
  lemma StatusReport(pressed: int, released: int)
    ensures Report(TxBtnStatus, pressed, released).Some?
    ensures var f := Report(TxBtnStatus, pressed, released).value;
      |f| == ReportSize && f[StartIdx] == 0x51
      && forall i | 0 < i < ReportSize :: f[i] == 0
  {
  }

  /** An action no case of generate() matches, such as Unknown, yields a
      non-null all-zero buffer. */
  lemma UnmatchedActionReport(action: int, pressed: int, released: int)
    requires action != TxBtnOff && action != TxBtnPressed
    requires action != TxBtnReleased && action != TxBtnStatus
    ensures Report(action, pressed, released) == Some(seq(ReportSize, _ => 0 as byte))
  {
  }

  /** The colour report, for any two set colours (equal, distinct or out of
      range): every pair has control 1; the released colour's data byte is 0
      for a Released command and 1 for a Pressed one (the released write comes
      last and wins); the pressed colour's, when different, is 0 for Pressed
      and 1 for Released; every other line stays off. */
  lemma ColorReport(action: int, pressed: int, released: int)
    requires action == TxBtnPressed || action == TxBtnReleased
    requires pressed != LightColorNone && released != LightColorNone
    ensures Report(action, pressed, released).Some?
    ensures var f := Report(action, pressed, released).value;
      f[StartIdx] == 0x50
      && forall c | IsColor(c) ::
        f[CtrlIdx(c)] == 1
        && f[DataIdx(c)] == (if c == released then (if action == TxBtnReleased then 0 else 1)
                             else if c == pressed then (if action == TxBtnPressed then 0 else 1)
                             else 1)
  {
    var off := ColorsOff(Zeros()[StartIdx := OpcodeSetOutput]);
    var f1 := ColorData(off, pressed, action == TxBtnPressed);
    var f := ColorData(f1, released, action != TxBtnPressed);
    forall c | IsColor(c)
      ensures f[CtrlIdx(c)] == 1
      ensures f[DataIdx(c)] == (if c == released then (if action == TxBtnReleased then 0 else 1)
                                else if c == pressed then (if action == TxBtnPressed then 0 else 1)
                                else 1)
    {
      assert off[CtrlIdx(c)] == 1 && off[DataIdx(c)] == 1;
    }
  }

  /** A Pressed command with distinct colours lights the pressed colour only:
      its data byte is 0, the other two lines' data bytes are 1. */
  lemma PressedDistinctColors(pressed: int, released: int)
    requires IsColor(pressed) && IsColor(released) && pressed != released
    ensures Report(TxBtnPressed, pressed, released).Some?
    ensures var f := Report(TxBtnPressed, pressed, released).value;
      f[StartIdx] == 0x50
      && (forall c | IsColor(c) :: f[CtrlIdx(c)] == 1)
      && f[DataIdx(pressed)] == 0
      && forall c | IsColor(c) && c != pressed :: f[DataIdx(c)] == 1
  {
    ColorReport(TxBtnPressed, pressed, released);
  }

  /** A Released command with distinct colours lights the released colour only. */
  lemma ReleasedDistinctColors(pressed: int, released: int)
    requires IsColor(pressed) && IsColor(released) && pressed != released
    ensures Report(TxBtnReleased, pressed, released).Some?
    ensures var f := Report(TxBtnReleased, pressed, released).value;
      f[StartIdx] == 0x50
      && (forall c | IsColor(c) :: f[CtrlIdx(c)] == 1)
      && f[DataIdx(released)] == 0
      && forall c | IsColor(c) && c != released :: f[DataIdx(c)] == 1
  {
    ColorReport(TxBtnReleased, pressed, released);
  }

  /** Only the button control byte influences the decoded state. */
  lemma ResolveReadsOnlyControlByte(rx1: seq<byte>, rx2: seq<byte>)
    requires |rx1| > BtnCtrlIdx && |rx2| > BtnCtrlIdx
    requires rx1[BtnCtrlIdx] == rx2[BtnCtrlIdx]
    ensures ResolveBtnStatus(rx1) == ResolveBtnStatus(rx2)
  {
  }
}
