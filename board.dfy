/** The board interface as the driver sees it: the driver brackets its
    commands with acquire_bus / release_bus and sends single command bytes
    (write_cmd) and runs of surface bytes (write_data). The model records
    every such call, in order, as an event of a log. The opcodes (declared
    in SSD1306.h, not part of this model) are kept abstract. */
module Board {
  import opened Framebuffer

  /** The SSD1306 commands the driver issues. `SegRemap1` is SEGREMAP+1 and
      `SetStartLine(n)` is SETSTARTLINE | n. */
  datatype Opcode =
    | DisplayOff | DisplayOn
    | SetDisplayClockDiv | SetMultiplex | SetPrecharge | SetDisplayOffset
    | SetStartLine(line: nat)
    | EnableChargePump | MemoryMode
    | SegRemap | SegRemap1 | ComScanDec | ComScanInc
    | SetComPins | SetContrast | SetVcomDetect
    | NormalDisplay | InvertDisplay
    | HvColumnAddress | HvPageAddress

  /** A byte sent through write_cmd: an opcode or one of its parameters. */
  datatype CmdByte = Op(op: Opcode) | Arg(value: byte)

  datatype BusEvent =
    | Acquire
    | Release
    | Cmd(c: CmdByte)
    | Data(bytes: seq<byte>)

  /** The write_cmd calls for a list of command bytes, in order. */
  function Commands(cs: seq<CmdByte>): (log: seq<BusEvent>)
    ensures |log| == |cs|
    ensures forall i :: 0 <= i < |cs| ==> log[i] == Cmd(cs[i])
  {
    if cs == [] then [] else [Cmd(cs[0])] + Commands(cs[1..])
  }

  /** acquire_bus, the commands, release_bus. */
  function Transaction(cs: seq<CmdByte>): (log: seq<BusEvent>)
    ensures IsTransaction(log) && log != []
    ensures log[1..|log| - 1] == Commands(cs)
  {
    [Acquire] + Commands(cs) + [Release]
  }

  /** A log that holds the bus for its whole length and sends only commands
      while it holds it. */
  predicate IsTransaction(log: seq<BusEvent>) {
    |log| >= 2 && log[0] == Acquire && log[|log| - 1] == Release &&
    forall i :: 0 < i < |log| - 1 ==> log[i].Cmd?
  }

  /** The surface bytes a log carries: its data runs, concatenated. */
  function Payload(log: seq<BusEvent>): seq<byte> {
    if log == [] then []
    else (if log[0].Data? then log[0].bytes else []) + Payload(log[1..])
  }

  lemma {:induction false} PayloadAppend(a: seq<BusEvent>, b: seq<BusEvent>)
    ensures Payload(a + b) == Payload(a) + Payload(b)
  {
    if a == [] {
      assert a + b == b;
    } else {
      assert (a + b)[0] == a[0] && (a + b)[1..] == a[1..] + b;
      PayloadAppend(a[1..], b);
    }
  }

  /** DISPLAYON or DISPLAYOFF. */
  predicate IsPowerSwitch(e: BusEvent) {
    e == Cmd(Op(DisplayOn)) || e == Cmd(Op(DisplayOff))
  }

  /** Whether the panel shows anything after it has received `log`, having
      been in state `on` before: DISPLAYON switches it on, DISPLAYOFF off,
      and nothing else changes that. */
  function PanelOn(on: bool, log: seq<BusEvent>): bool
    decreases |log|
  {
    if log == [] then on
    else
      var next := match log[0]
        case Cmd(Op(DisplayOn)) => true
        case Cmd(Op(DisplayOff)) => false
        case _ => on;
      PanelOn(next, log[1..])
  }

  lemma {:induction false} PanelOnAppend(on: bool, a: seq<BusEvent>, b: seq<BusEvent>)
    ensures PanelOn(on, a + b) == PanelOn(PanelOn(on, a), b)
    decreases |a|
  {
    if a == [] {
      assert a + b == b;
    } else {
      assert (a + b)[0] == a[0] && (a + b)[1..] == a[1..] + b;
      var next := match a[0]
        case Cmd(Op(DisplayOn)) => true
        case Cmd(Op(DisplayOff)) => false
        case _ => on;
      PanelOnAppend(next, a[1..], b);
    }
  }
}
