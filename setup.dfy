/** gdisp_lld_init: the fixed command list it replays inside one bus
    transaction, whose only variable parameters depend on the screen height,
    and the state it records afterwards. */
module Setup {
  import opened Framebuffer
  import opened Board
  import opened Control

  const InitialContrast: nat := 100
  const InitialBacklight: nat := 100

  /** The command bytes init sends, in order, for a panel of `height` rows
      (64, or the untested 32). Only three parameters depend on the height:
      the multiplex ratio, the COM pin layout and the last page. */
  function InitCommands(height: nat): (cs: seq<CmdByte>)
    requires height == 32 || height == 64
    ensures |cs| == 30
  {
    InitSequence((height - 1) as byte, if height == 64 then 0x12 else 0x22, (height / 8 - 1) as byte)
  }

  /** The fixed command list with the three height-dependent parameters:
      30 bytes that switch the panel off first and on again near the end. */
  function InitSequence(multiplex: byte, comPins: byte, lastPage: byte): (cs: seq<CmdByte>)
    ensures |cs| == 30
  {
    [Op(DisplayOff),
     Op(SetDisplayClockDiv), Arg(0x80),
     Op(SetMultiplex), Arg(multiplex),
     Op(SetPrecharge), Arg(0x1F),
     Op(SetDisplayOffset), Arg(0),
     Op(SetStartLine(0)),
     Op(EnableChargePump), Arg(0x14),
     Op(MemoryMode), Arg(0),
     Op(SegRemap1),
     Op(ComScanDec),
     Op(SetComPins), Arg(comPins),
     Op(SetContrast), Arg(ContrastByte(InitialContrast)),
     Op(SetVcomDetect), Arg(0x10),
     Op(DisplayOn),
     Op(NormalDisplay),
     Op(HvColumnAddress), Arg(0), Arg((ScreenWidth - 1) as byte),
     Op(HvPageAddress), Arg(0), Arg(lastPage)]
  }

  /** The bus log of init: one transaction around the command list. */
  function InitLog(): (log: seq<BusEvent>)
    ensures IsTransaction(log) && |log| == 32
  {
    Transaction(InitCommands(ScreenHeight))
  }

  /** The state init records: 128 x 64, Rotate0, PowerOn, backlight and
      contrast at 100. */
  function InitialState(): (s: DisplayState)
    ensures ValidState(s)
  {
    DisplayState(ScreenWidth, ScreenHeight, Rotate0, PowerOn, InitialBacklight, InitialContrast)
  }

  /** The SETCONTRAST init sends is 100 * 256 / 101 = 253, the device value
      of the contrast init records. */
  lemma InitContrastIs253()
    ensures ContrastLevel(InitialState().contrast) == 253
    ensures InitCommands(ScreenHeight)[18] == Op(SetContrast)
    ensures InitCommands(ScreenHeight)[19] == Arg(ContrastByte(InitialState().contrast))
    ensures ContrastByte(InitialState().contrast) == 253
  {
    var h := ScreenHeight;
    InitSequenceContrast((h - 1) as byte, if h == 64 then 0x12 else 0x22, (h / 8 - 1) as byte);
  }

  lemma InitSequenceContrast(multiplex: byte, comPins: byte, lastPage: byte)
    ensures |InitSequence(multiplex, comPins, lastPage)| == 30
    ensures InitSequence(multiplex, comPins, lastPage)[18] == Op(SetContrast)
    ensures InitSequence(multiplex, comPins, lastPage)[19] == Arg(ContrastByte(InitialContrast))
  {
  }

  /** The height-dependent parameters: the multiplex ratio is height - 1,
      the COM pin layout 0x12 for 64 rows and 0x22 otherwise, and the page
      range ends at page height / 8 - 1 (63, 0x12, 7 for the 64-row panel). */
  lemma InitHeightParameters(h: nat)
    requires h == 32 || h == 64
    ensures |InitCommands(h)| == 30
    ensures InitCommands(h)[3] == Op(SetMultiplex)
    ensures InitCommands(h)[4] == Arg((h - 1) as byte)
    ensures InitCommands(h)[16] == Op(SetComPins)
    ensures InitCommands(h)[17] == Arg(if h == 64 then 0x12 else 0x22)
    ensures InitCommands(h)[27] == Op(HvPageAddress)
    ensures InitCommands(h)[29] == Arg((h / 8 - 1) as byte)
  {
    var m, c, p := (h - 1) as byte, if h == 64 then 0x12 else 0x22, (h / 8 - 1) as byte;
    assert InitCommands(h) == InitSequence(m, c, p);
    InitSequenceMultiplex(m, c, p);
    InitSequenceComPins(m, c, p);
    InitSequencePages(m, c, p);
  }

  lemma InitSequenceMultiplex(multiplex: byte, comPins: byte, lastPage: byte)
    ensures |InitSequence(multiplex, comPins, lastPage)| == 30
    ensures InitSequence(multiplex, comPins, lastPage)[3] == Op(SetMultiplex)
    ensures InitSequence(multiplex, comPins, lastPage)[4] == Arg(multiplex)
  {
  }

  lemma InitSequenceComPins(multiplex: byte, comPins: byte, lastPage: byte)
    ensures |InitSequence(multiplex, comPins, lastPage)| == 30
    ensures InitSequence(multiplex, comPins, lastPage)[16] == Op(SetComPins)
    ensures InitSequence(multiplex, comPins, lastPage)[17] == Arg(comPins)
  {
  }

  lemma InitSequencePages(multiplex: byte, comPins: byte, lastPage: byte)
    ensures |InitSequence(multiplex, comPins, lastPage)| == 30
    ensures InitSequence(multiplex, comPins, lastPage)[27] == Op(HvPageAddress)
    ensures InitSequence(multiplex, comPins, lastPage)[29] == Arg(lastPage)
  {
  }

  /** After init the panel is switched on, whatever it was before, so the
      recorded PowerOn agrees with it. */
  lemma InitLeavesPanelOn(on: bool)
    ensures PanelOn(on, InitLog())
    ensures TracksPanel(InitialState(), PanelOn(on, InitLog()))
  {
    var log := InitLog();
    assert log[23] == Cmd(Op(DisplayOn));
    assert forall i :: 23 < i < |log| ==> !IsPowerSwitch(log[i]);
    PanelOnAfterSwitchOn(on, log, 23);
  }

  /** A log whose last DISPLAYON or DISPLAYOFF is a DISPLAYON, at position k,
      leaves the panel on. */
  lemma PanelOnAfterSwitchOn(on: bool, log: seq<BusEvent>, k: nat)
    requires k < |log| && log[k] == Cmd(Op(DisplayOn))
    requires forall i :: k < i < |log| ==> !IsPowerSwitch(log[i])
    ensures PanelOn(on, log)
  {
    var front, back := log[..k + 1], log[k + 1..];
    assert log == front + back;
    PanelOnAppend(on, front, back);
    assert front == log[..k] + [log[k]];
    PanelOnAppend(on, log[..k], [log[k]]);
    PanelOnNoSwitch(true, back);
  }

  /** A log without DISPLAYON or DISPLAYOFF leaves the panel as it was. */
  lemma {:induction false} PanelOnNoSwitch(on: bool, log: seq<BusEvent>)
    requires forall i :: 0 <= i < |log| ==> !IsPowerSwitch(log[i])
    ensures PanelOn(on, log) == on
    decreases |log|
  {
    if log != [] {
      PanelOnNoSwitch(on, log[1..]);
    }
  }

  /** Init programs the scan direction and segment remap that a change to
      Rotate0 would send, in agreement with the Rotate0 it records. */
  lemma InitScanMatchesRotate0(s: DisplayState)
    requires s.orientation != Rotate0
    ensures OrientationStep(s, Rotate0).log == Transaction([Op(ComScanDec), Op(SegRemap1)])
    ensures InitLog()[15] == Cmd(Op(SegRemap1)) && InitLog()[16] == Cmd(Op(ComScanDec))
  {
  }
}
