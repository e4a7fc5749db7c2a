/** The SSD1306 driver on one display: the GDisplay record its entry points
    receive, with the display surface behind g->priv, the flags word, the
    recorded state g->g, and the log of what it asked the board to do. */
module Ssd1306 {
  import opened Framebuffer
  import opened Board
  import opened FlushProtocol
  import opened Control
  import opened Setup

  class Display {
    /** g->priv: the display surface, allocated once by init. */
    const ram: array<byte>
    /** The board's GDISP_BUS_MAX_TRANSFER_SIZE. */
    const maxTransfer: nat
    /** g->flags */
    var flags: set<Flag>
    /** g->g */
    var g: DisplayState
    /** Every call the driver has made into the board interface, in order. */
    var bus: seq<BusEvent>

    /** The surface has its allocated size, the board's transfer size suits
        the flush loop, and the recorded state is one the driver can reach. */
    ghost predicate Valid()
      reads this
    {
      ram.Length == BufferSize && ChunkSize(maxTransfer) && ValidState(g)
    }

    /** gdisp_lld_init. `surface` is what the fresh allocation happens to
        hold (it is not cleared), `flags0` the flags word as the generic
        layer handed it over. The init command list goes out in one bus
        transaction, then the geometry and state are recorded. */
    constructor Init(surface: seq<byte>, flags0: set<Flag>, transferSize: nat)
      requires |surface| == BufferSize && ChunkSize(transferSize)
      ensures Valid() && fresh(ram)
      ensures ram[..] == surface && flags == flags0 && maxTransfer == transferSize
      ensures g == InitialState() && bus == InitLog()
    {
      ram := new byte[BufferSize](i requires 0 <= i < BufferSize => surface[i]);
      maxTransfer := transferSize;
      flags := flags0;
      bus := [];
      new;
      SendInitCommands();
      g := InitialState();
    }

    /** The bus transaction of init: the command list for the configured
        screen height, between acquire_bus and release_bus. */
    method SendInitCommands()
      modifies this`bus
      ensures bus == old(bus) + InitLog()
    {
      var cs := InitCommands(ScreenHeight);
      AcquireBus();
      WriteCommands(cs);
      ReleaseBus();
      assert bus == old(bus) + Transaction(cs);
    }

    method AcquireBus()
      modifies this`bus
      ensures bus == old(bus) + [Acquire]
    {
      bus := bus + [Acquire];
    }

    method ReleaseBus()
      modifies this`bus
      ensures bus == old(bus) + [Release]
    {
      bus := bus + [Release];
    }

    method WriteCmd(c: CmdByte)
      modifies this`bus
      ensures bus == old(bus) + [Cmd(c)]
    {
      bus := bus + [Cmd(c)];
    }

    /** write_cmd for each byte of a list, in order. */
    method WriteCommands(cs: seq<CmdByte>)
      modifies this`bus
      ensures bus == old(bus) + Commands(cs)
    {
      bus := bus + Commands(cs);
    }

    method WriteData(bytes: seq<byte>)
      modifies this`bus
      ensures bus == old(bus) + [Data(bytes)]
    {
      bus := bus + [Data(bytes)];
    }

    /** gdisp_lld_draw_pixel: sets or clears the pixel's bit in place and
        marks the surface as needing a flush, whether or not the bit changed.
        The recorded state and the bus are left alone. */
    method DrawPixel(x: int, y: int, color: Color)
      requires Valid() && OnScreen(x, y)
      modifies ram, this`flags
      ensures Valid()
      ensures ram[..] == Drawn(old(ram[..]), x, y, color)
      ensures flags == old(flags) + {NeedFlush}
    {
      var i, mask := ByteIndex(x, y), Mask(BitIndex(y));
      var b := ram[i];
      var nb: byte;
      if color != Black {
        nb := b | mask;
      } else {
        nb := b & !mask;
      }
      WithBitByMask(b, BitIndex(y), color != Black);
      ram[i] := nb;
      flags := flags + {NeedFlush};
    }

    /** gdisp_lld_get_pixel_color: the in-place read of the pixel's bit, which
        is PixelColor applied to the current surface. */
    function GetPixelColor(x: int, y: int): (c: Color)
      requires Valid() && OnScreen(x, y)
      reads this, ram
      ensures c == PixelColor(ram[..], x, y)
    {
      if ram[ByteIndex(x, y)] & Mask(BitIndex(y)) != 0 then White else Black
    }

    /** gdisp_lld_flush: nothing unless the surface is marked as needing a
        flush; otherwise SETSTARTLINE | 0 and the surface in runs of
        maxTransfer bytes. As written it does not take the bus and does not
        clear the flag, and it changes neither the surface nor the flags. */
    method Flush()
      requires Valid()
      modifies this`bus
      ensures Valid()
      ensures bus == old(bus) + FlushStep(ram[..], old(flags), maxTransfer).log
      ensures flags == FlushStep(ram[..], old(flags), maxTransfer).flags
      ensures ram[..] == old(ram[..])
    {
      if NeedFlush !in flags {
        return;
      }
      WriteCmd(Op(SetStartLine(0)));
      var t := maxTransfer;
      RunCount(t);
      ghost var buf, n, start := ram[..], BufferSize / t, bus;
      var i := 0;
      ghost var k := 0;
      while i < BufferSize
        invariant k <= n && i == k * t
        invariant bus == start + Runs(buf, t, k)
      {
        RunStep(t, k, n);
        WriteData(ram[i..i + t]);
        i, k := i + t, k + 1;
      }
      RunsDone(t, k, n);
      assert FlushLog(buf, flags, t) == [Cmd(Op(SetStartLine(0)))] + Runs(buf, t, n);
    }

    /** gdisp_lld_control: dispatch on the control code. Codes without a
        case do nothing. */
    method Control(req: Request)
      requires Valid()
      modifies this`g, this`bus
      ensures Valid()
      ensures g == ControlStep(old(g), req).state
      ensures bus == old(bus) + ControlStep(old(g), req).log
    {
      ghost var step := ControlStep(g, req);
      match req {
        case ControlPower(m) =>
          assert step == PowerStep(g, m);
          ControlPowerMode(m);
        case ControlOrientation(o) =>
          assert step == OrientationStep(g, o);
          ControlOrientationMode(o);
        case ControlContrast(p) =>
          assert step == ContrastStep(g, p);
          ControlContrastLevel(p);
        case ControlInvert(v) =>
          assert step == InvertStep(g, v);
          ControlInversion(v);
        case ControlOther =>
      }
    }

    /** The GDISP_CONTROL_POWER case. */
    method ControlPowerMode(m: PowerMode)
      modifies this`g, this`bus
      ensures g == PowerStep(old(g), m).state
      ensures bus == old(bus) + PowerStep(old(g), m).log
    {
      if g.powermode == m {
        return;
      }
      if IsOffMode(m) {
        AcquireBus();
        WriteCmd(Op(DisplayOff));
        ReleaseBus();
        assert bus == old(bus) + Transaction([Op(DisplayOff)]);
      } else if m == PowerOn {
        AcquireBus();
        WriteCmd(Op(DisplayOn));
        ReleaseBus();
        assert bus == old(bus) + Transaction([Op(DisplayOn)]);
        // No break here: control reaches `default: return`.
        return;
      } else {
        return;
      }
      g := g.(powermode := m);
    }

    /** The GDISP_CONTROL_ORIENTATION case. */
    method ControlOrientationMode(o: Orientation)
      modifies this`g, this`bus
      ensures g == OrientationStep(old(g), o).state
      ensures bus == old(bus) + OrientationStep(old(g), o).log
    {
      if g.orientation == o {
        return;
      }
      match o {
        case Rotate0 =>
          AcquireBus();
          WriteCmd(Op(ComScanDec));
          WriteCmd(Op(SegRemap1));
          g := g.(height := ScreenHeight, width := ScreenWidth);
          ReleaseBus();
        case Rotate180 =>
          AcquireBus();
          WriteCmd(Op(ComScanInc));
          WriteCmd(Op(SegRemap));
          g := g.(height := ScreenHeight, width := ScreenWidth);
          ReleaseBus();
        case _ =>
          return;
      }
      g := g.(orientation := o);
    }

    /** The GDISP_CONTROL_CONTRAST case. */
    method ControlContrastLevel(p: nat)
      modifies this`g, this`bus
      ensures g == ContrastStep(old(g), p).state
      ensures bus == old(bus) + ContrastStep(old(g), p).log
    {
      var percent := p;
      if percent > 100 {
        percent := 100;
      }
      AcquireBus();
      WriteCmd(Op(SetContrast));
      WriteCmd(Arg(ContrastByte(percent)));
      ReleaseBus();
      g := g.(contrast := percent);
    }

    /** The GDISP_CONTROL_INVERT case. */
    method ControlInversion(v: int)
      modifies this`bus
      ensures bus == old(bus) + InvertStep(g, v).log
    {
      AcquireBus();
      WriteCmd(Op(if v != 0 then InvertDisplay else NormalDisplay));
      ReleaseBus();
    }
  }
}
