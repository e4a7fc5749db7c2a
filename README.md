# SSD1306 monochrome display driver, modelled in Dafny

This project models the low-level GDISP driver for the SSD1306 128 x 64 monochrome
OLED controller (`drivers/gdisp/SSD1306/gdisp_lld.c`), and proves properties of
that model. The driver keeps the whole display surface in memory, one bit per
pixel. The surface is organised in pages of eight rows, so byte `x + (y >> 3) * 128`
holds bit `y & 7` of pixel `(x, y)`. The driver's entry points are:

- pixel draw: sets or clears that bit in place and raises `GDISP_FLG_NEEDFLUSH`;
- pixel read: reads the same bit back as White or Black;
- flush: does nothing while the flag is clear. Otherwise it sends `SETSTARTLINE | 0`
  and then the whole surface, in runs of the board's maximum transfer size;
- control: handles power, orientation, contrast and invert requests. It updates
  the display record and sends the matching controller commands;
- init: replays a fixed command list in one bus transaction. Only the multiplex
  ratio, the COM pin layout and the last page depend on the screen height. It
  then records the initial geometry and state.

The board interface (acquire/release the bus, write a command byte, write a run
of data bytes) is modelled as a log of bus events. Everything the driver sends,
and everything it does not send, becomes a statement about that log.

Layout:

- `framebuffer.dfy` (`Framebuffer`): the addressing, the bit masks, and the pure
  meaning of a draw (`Drawn`) and a read (`PixelColor`).
- `board.dfy` (`Board`): the controller commands, the bus events, and
  `PanelOn`, which says whether the panel is switched on after a log.
- `flush.dfy` (`FlushProtocol`): the flags, the log a flush sends, and the
  corrected flush that clears the flag.
- `control.dfy` (`Control`): the recorded display state and one step per control
  branch, plus the corrected power branch.
- `setup.dfy` (`Setup`): the init command list and the initial state.
- `driver.dfy` (`Ssd1306.Display`): the GDisplay record as a class. It has the
  surface as an array, the flags, the recorded state and the bus log, and one
  method per entry point. Each method is proved against the functions above.

The model follows the code as written in three places where the code
departs from what it evidently means to do:

- The flush never clears `GDISP_FLG_NEEDFLUSH`. The flag is evidently meant to
  be cleared once the whole surface has been sent, so that a flush with nothing
  drawn since sends nothing.
- A switch to `powerOn` sends DISPLAYON but falls through to `default: return`,
  so `Powermode` is never recorded as On. Every other named mode is recorded
  after its command (`gdisp_lld.c:173`), and On evidently is meant to be too.
- The flush sends its commands and data without `acquire_bus` / `release_bus`
  (`gdisp_lld.c:122-133`). Every other command sequence in the driver holds the
  bus while it sends (`:81`/`:109`, `:162-164`, `:167-169`, `:181-186`,
  `:189-194`, `:205-207`, `:214-216`), and the flush evidently is meant to as well.

Two names in the control code are undeclared, and they are used in three places:

- The orientation branch writes the geometry through `GDISP`
  (`gdisp_lld.c:184-185`, `192-193`) and records the orientation from `value`
  (`:199`). The model reads these as `g->g` and the requested orientation
  `g->p.ptr`.
- The contrast branch scales `value` (`:206`). The model reads this as the
  clamped `g->p.ptr`.

The inferred readings are noted in comments in `control.dfy`.

The driver class `Ssd1306.Display` keeps the behaviour as written. For the three
defects listed under "## Findings", the corrected behaviour is a separate
function, with its intended property proved alongside.

## Model

| member | source | states |
|---|---|---|
| Framebuffer.ByteIndex | drivers/gdisp/SSD1306/gdisp_lld.c:139 | for an on-screen pixel, the byte index is below the 1024 bytes allocated; its column is x and its page is y / 8 |
| Framebuffer.BitIndex | drivers/gdisp/SSD1306/gdisp_lld.c:139 | the bit index is in 0..7, and with the page it gives back the row |
| Framebuffer.PixelOf | drivers/gdisp/SSD1306/gdisp_lld.c:148 | every (byte, bit) place is the address of exactly the on-screen pixel it returns: the addressing is onto |
| Framebuffer.AddressInjective | drivers/gdisp/SSD1306/gdisp_lld.c:139 | distinct on-screen pixels have distinct (byte, bit) places |
| Framebuffer.Mask | drivers/gdisp/SSD1306/gdisp_lld.c:139 | the mask `1<<(y&7)` has exactly one bit set |
| Framebuffer.MaskIsShift | drivers/gdisp/SSD1306/gdisp_lld.c:139 | the tabulated mask of bit k equals 1 << k |
| Framebuffer.WithBit | drivers/gdisp/SSD1306/gdisp_lld.c:138-141 | after the update, bit k is set exactly when the colour is not Black, and the seven other bits are unchanged |
| Framebuffer.WithBitByMask | drivers/gdisp/SSD1306/gdisp_lld.c:138-141 | that update is b OR mask for a non-Black colour and b AND NOT mask for Black |
| Framebuffer.PixelColor | drivers/gdisp/SSD1306/gdisp_lld.c:148 | a read yields only White or Black |
| Framebuffer.Drawn | drivers/gdisp/SSD1306/gdisp_lld.c:137-141 | read after write gives White for a non-Black colour and Black for Black; the length is kept; every other byte, and every other bit of the pixel's byte, is unchanged |
| Framebuffer.DrawLeavesOtherPixels | drivers/gdisp/SSD1306/gdisp_lld.c:139-141 | a draw leaves the colour read at every other pixel unchanged |
| Framebuffer.SurfaceDeterminedByPixels | drivers/gdisp/SSD1306/gdisp_lld.c:70 | two 1024-byte surfaces that read the same at every pixel are equal: no byte or bit of the allocation is unused |
| Framebuffer.DrawLastWins | drivers/gdisp/SSD1306/gdisp_lld.c:137-141 | drawing a pixel twice leaves the surface as drawing it once with the second colour |
| Framebuffer.RedrawKeepsSurface | drivers/gdisp/SSD1306/gdisp_lld.c:137-141 | drawing a pixel in the colour it already shows changes no byte |
| Board.Commands | drivers/gdisp/SSD1306/gdisp_lld.c:50-51 | a list of command bytes becomes one write_cmd per byte, in order |
| Board.Transaction | drivers/gdisp/SSD1306/gdisp_lld.c:162-164 | a bracketed command run starts with acquire_bus, ends with release_bus, and sends only the commands in between |
| FlushProtocol.Runs | drivers/gdisp/SSD1306/gdisp_lld.c:131-132 | the first k iterations of the loop make k write_data calls; their offsets and contents are stated by `RunAt` and `RunsPayload` |
| FlushProtocol.RunCount | drivers/gdisp/SSD1306/gdisp_lld.c:131 | for a transfer size that divides the surface, BufferSize / T runs of T bytes cover it exactly |
| FlushProtocol.RunStep | drivers/gdisp/SSD1306/gdisp_lld.c:131-132 | while the loop offset k * T is inside the surface, the run it starts ends at (k + 1) * T within the surface |
| FlushProtocol.RunsDone | drivers/gdisp/SSD1306/gdisp_lld.c:131 | the loop leaves after exactly BufferSize / T runs |
| FlushProtocol.RunAt | drivers/gdisp/SSD1306/gdisp_lld.c:131-132 | run j is the T bytes at offset j * T |
| FlushProtocol.RunsPayload | drivers/gdisp/SSD1306/gdisp_lld.c:131-132 | the first k runs together carry the first k * T bytes of the surface, in order |
| FlushProtocol.FlushLog | drivers/gdisp/SSD1306/gdisp_lld.c:122-133 | the bus output of a flush is empty exactly when the surface is marked clean, and otherwise begins with SETSTARTLINE 0; the rest of its meaning is stated by `FlushSendsSurface` |
| FlushProtocol.FlushSendsSurface | drivers/gdisp/SSD1306/gdisp_lld.c:122-133 | with the flag clear, nothing is sent; with it set, the log is SETSTARTLINE 0 and then 1024 / T runs, run j being bytes (j-1)T .. jT, which together reproduce the surface byte for byte |
| FlushProtocol.FlushStep | drivers/gdisp/SSD1306/gdisp_lld.c:122-133 | the flush as written hands back the flags unchanged: nothing in it writes `g->flags` |
| FlushProtocol.SecondFlushResends | drivers/gdisp/SSD1306/gdisp_lld.c:122-133 | as written, after a flush of a dirty surface the flag is still set, and an immediate second flush sends the same non-empty log again, carrying the whole surface |
| FlushProtocol.FlushTakesNoBus | drivers/gdisp/SSD1306/gdisp_lld.c:122-133 | as written, no event a flush sends is acquire_bus or release_bus |
| FlushProtocol.BracketedFlushLog | drivers/gdisp/SSD1306/gdisp_lld.c:122-133 | the corrected flush log is empty exactly when the surface is marked clean |
| FlushProtocol.BracketedFlushHoldsBus | drivers/gdisp/SSD1306/gdisp_lld.c:122-133 | the corrected flush of a dirty surface opens with acquire_bus, closes with release_bus, takes and releases the bus nowhere in between, and still delivers the surface byte for byte |
| FlushProtocol.SettlingFlush | drivers/gdisp/SSD1306/gdisp_lld.c:122-133 | the corrected flush sends the same log as the flush as written, and then clears the needs-flush flag and no other flag |
| FlushProtocol.SettlingFlushKeepsSync | drivers/gdisp/SSD1306/gdisp_lld.c:122-133 | with the corrected flush, a clean flag means that the panel shows the surface; a second flush sends nothing |
| FlushProtocol.DrawThenFlushShows | drivers/gdisp/SSD1306/gdisp_lld.c:137-143 | a draw (which raises the flag) followed by the corrected flush leaves the flag clear, and the panel shows the drawn surface, with the drawn pixel in its new colour |
| Control.ClampPercent | drivers/gdisp/SSD1306/gdisp_lld.c:203-204 | a contrast above 100 becomes 100, others are kept |
| Control.ContrastLevel | drivers/gdisp/SSD1306/gdisp_lld.c:206 | the device value is the rounded-down c * 256 / 101, at most 253 for c <= 100 |
| Control.ContrastByte | drivers/gdisp/SSD1306/gdisp_lld.c:206 | the SETCONTRAST parameter byte is 0 for 0 percent and 253 for 100 percent |
| Control.ContrastLevelMonotone | drivers/gdisp/SSD1306/gdisp_lld.c:206 | a higher percentage never gives a lower device value |
| Control.PowerStep | drivers/gdisp/SSD1306/gdisp_lld.c:155-174 | the current mode sends and changes nothing; Off, Sleep and DeepSleep send one bracketed DISPLAYOFF and are recorded; On sends one DISPLAYON and is not recorded; other values send and change nothing; the step records PowerOn only if it was recorded already |
| Control.OrientationStep | drivers/gdisp/SSD1306/gdisp_lld.c:176-200 | the current orientation sends nothing; Rotate0 sends COMSCANDEC, SEGREMAP+1 and Rotate180 sends COMSCANINC, SEGREMAP; both keep 128 x 64 and record the orientation; other values send and change nothing |
| Control.ContrastStep | drivers/gdisp/SSD1306/gdisp_lld.c:202-209 | the clamped percentage is recorded, and SETCONTRAST with its device value is sent in one bracketed run |
| Control.InvertStep | drivers/gdisp/SSD1306/gdisp_lld.c:213-217 | INVERTDISPLAY for a non-zero value, NORMALDISPLAY for zero, and nothing is recorded |
| Control.ControlStep | drivers/gdisp/SSD1306/gdisp_lld.c:153-219 | every control call keeps a valid state valid; it never touches the backlight; it sends nothing or one bracketed command run; it never newly records PowerOn; and it changes only the fields its request is about: power mode, orientation (with width and height) and contrast each change only under their own request, for any state, valid or not |
| Control.RunKeepsValid | drivers/gdisp/SSD1306/gdisp_lld.c:153-219 | no sequence of control calls leaves the valid states |
| Control.RunNeverRecordsPowerOn | drivers/gdisp/SSD1306/gdisp_lld.c:166-173 | once the recorded mode is not PowerOn, no sequence of control calls records PowerOn again |
| Control.PowerOffIgnoredAfterPowerOn | drivers/gdisp/SSD1306/gdisp_lld.c:166-171 | as written, Off, On, Off from a display that is on leaves the panel on with PowerOff recorded |
| Control.PowerStepFixed | drivers/gdisp/SSD1306/gdisp_lld.c:155-174 | the corrected power branch records every named mode and ignores other values |
| Control.PowerStepFixedTracks | drivers/gdisp/SSD1306/gdisp_lld.c:155-174 | one corrected power request keeps the recorded mode in agreement with the panel, and records the requested mode |
| Control.FixedPowerTracksPanel | drivers/gdisp/SSD1306/gdisp_lld.c:155-174 | with the correction, the recorded mode is PowerOn exactly when the panel is on, over any run of named power requests, and it ends as the last request |
| Setup.InitSequence | drivers/gdisp/SSD1306/gdisp_lld.c:83-103 | the init command list is 30 command bytes, in the order of the source; the list literal itself states every slot. The `InitSequence…` lemmas and `InitHeightParameters` state the height-dependent slots (3-4, 16-17, 27, 29) and the contrast slots (18-19) |
| Setup.InitCommands | drivers/gdisp/SSD1306/gdisp_lld.c:83-103 | the list for a 32- or 64-row panel is 30 command bytes; its height parameters are stated by `InitHeightParameters` |
| Setup.InitLog | drivers/gdisp/SSD1306/gdisp_lld.c:81-109 | init's bus output is one transaction of 32 events: acquire_bus, the 30 command bytes, release_bus |
| Setup.InitialState | drivers/gdisp/SSD1306/gdisp_lld.c:112-117 | the state init records (128 x 64, Rotate0, PowerOn, contrast 100) is a valid state |
| Setup.InitContrastIs253 | drivers/gdisp/SSD1306/gdisp_lld.c:98 | init sends SETCONTRAST with 100 * 256 / 101 = 253, the device value of the contrast it records |
| Setup.InitHeightParameters | drivers/gdisp/SSD1306/gdisp_lld.c:85-103 | the list has 30 bytes; the multiplex ratio is height - 1; the COM pins are 0x12 for 64 rows and 0x22 otherwise; the page range ends at height / 8 - 1 |
| Setup.InitLeavesPanelOn | drivers/gdisp/SSD1306/gdisp_lld.c:100 | after init the panel is on, whatever it was before, in agreement with the recorded PowerOn |
| Setup.InitScanMatchesRotate0 | drivers/gdisp/SSD1306/gdisp_lld.c:91-92 | init programs the same scan direction and segment remap as a change to Rotate0, the orientation it records |
| Ssd1306.Display.Init | drivers/gdisp/SSD1306/gdisp_lld.c:68-119 | init allocates a fresh surface, sends the init command list in one transaction, and records the initial state |
| Ssd1306.Display.SendInitCommands | drivers/gdisp/SSD1306/gdisp_lld.c:81-109 | the init transaction appends exactly the init log |
| Ssd1306.Display.DrawPixel | drivers/gdisp/SSD1306/gdisp_lld.c:137-143 | the in-place update leaves the surface as `Drawn` describes, adds the needs-flush flag to the others, and keeps the display valid |
| Ssd1306.Display.GetPixelColor | drivers/gdisp/SSD1306/gdisp_lld.c:147-149 | the read agrees with `PixelColor` on the current surface |
| Ssd1306.Display.Flush | drivers/gdisp/SSD1306/gdisp_lld.c:122-133 | the loop appends exactly the log of `FlushStep` on the surface and flags, leaves the flags as `FlushStep` does (unchanged), leaves the surface unchanged, and keeps the display valid |
| Ssd1306.Display.Control | drivers/gdisp/SSD1306/gdisp_lld.c:153-219 | the record and the bus change as `ControlStep` says, and the recorded state stays valid |
| Ssd1306.Display.ControlPowerMode | drivers/gdisp/SSD1306/gdisp_lld.c:155-174 | the record and the bus change as `PowerStep` says |
| Ssd1306.Display.ControlOrientationMode | drivers/gdisp/SSD1306/gdisp_lld.c:176-200 | the record and the bus change as `OrientationStep` says |
| Ssd1306.Display.ControlContrastLevel | drivers/gdisp/SSD1306/gdisp_lld.c:202-209 | the record and the bus change as `ContrastStep` says |
| Ssd1306.Display.ControlInversion | drivers/gdisp/SSD1306/gdisp_lld.c:213-217 | the bus changes as `InvertStep` says; the record is untouched |

## Left out

- The board interface (`board_SSD1306.h` is not part of this model): `acquire_bus`, `release_bus`, `write_cmd(g, byte)` and `write_data(g, buffer, length)` are modelled from the calls `gdisp_lld.c` makes (`:50-51`, `:81`, `:109`, `:129`, `:132`), as appends to the bus log. `init_board` (`:73`), `setpin_reset` (`:76`, `:78`) and `post_init_board` (`:106`, inside the bus bracket) are not modelled; the SSD1289 board template (`drivers/gdisp/SSD1289/board_SSD1289_template.h:11-58`) shows such board functions as empty stubs. The backlight and read functions of a board are not used by this driver.
- The hardware reset and its 20 ms delays (`gdisp_lld.c:76-79`): timing and pin I/O only.
- `gfxAlloc` (`gdisp_lld.c:70`): init is modelled with a fresh 1024-byte array whose initial contents are a parameter, since the allocation is not cleared. Allocation failure is not modelled. The source never checks for it and always returns TRUE.
- The opcode byte values (`SSD1306.h` is not part of this model): commands are an abstract datatype, with `SEGREMAP` and `SEGREMAP+1` as distinct constructors.
- The colour values (the graphics layer's headers are not part of this model): Black is 0 and White is 1; the driver only distinguishes Black from the rest.
- The bit layout of `g->flags`: the flags word is a set of flags, with `GDISP_FLG_NEEDFLUSH` distinct from every flag of the generic layer.
- Conditional compilation: every hardware switch is taken as enabled, and the screen is 128 x 64. The 32-row variant appears only as the height parameter of `InitCommands`.
- The write-back of the clamped contrast into `g->p.ptr` (`gdisp_lld.c:204`): the request is an input value, not part of the recorded state.
- Transfer sizes: the flush is modelled only for a `GDISP_BUS_MAX_TRANSFER_SIZE` that is positive and divides 1024 (`ChunkSize`). With a size of 0, `i += 0` at `gdisp_lld.c:131` never ends the loop and the source sends run 0 forever. With a positive size that does not divide 1024, the last run reads past the surface.
- Off-screen coordinates: the driver does not check them (the generic layer clips). Draw and read therefore require an on-screen pixel.
- Bus protocol, bus timing, DMA and concurrency: these are I/O handled by the board and the generic layer.
- Control.ContrastByte: its contract gives the byte only at 0 and 100 percent (0 and 253). That it is `ContrastLevel(c)` without truncation for every c up to 100 is not stated, because the prover cannot afford the integer-to-byte conversion for an arbitrary c. `ContrastLevel` carries the general bound of 253.

## Findings

| source | as written | input that shows it | evidently intended | confidence | as-written member | corrected member |
|---|---|---|---|---|---|---|
| drivers/gdisp/SSD1306/gdisp_lld.c:166-171 | `case powerOn` has no `break` and falls into `default: return`, so the new mode is never recorded | from a display that is on: power Off, then On, then Off; the last Off finds PowerOff recorded and sends nothing, so the panel stays on | a `break` after the DISPLAYON, so that On is recorded like the other modes | high (by proof; not executed) | Control.PowerOffIgnoredAfterPowerOn | Control.FixedPowerTracksPanel |
| drivers/gdisp/SSD1306/gdisp_lld.c:122-133 | the flush never clears `GDISP_FLG_NEEDFLUSH` | draw one pixel, then flush twice; the second flush sends the whole surface again | clear the flag once the surface has been sent, so that a flush with nothing drawn since sends nothing | medium (by proof; not executed; a caller outside this file could still clear the flag) | FlushProtocol.SecondFlushResends | FlushProtocol.SettlingFlushKeepsSync |
| drivers/gdisp/SSD1306/gdisp_lld.c:122-133 | the flush sends SETSTARTLINE and the surface without `acquire_bus` / `release_bus` | any flush of a dirty surface: its log holds no acquire_bus and no release_bus event | the flush between acquire_bus and release_bus, like every other command sequence of the driver | medium (by proof; not executed; a caller outside this file could hold the bus) | FlushProtocol.FlushTakesNoBus | FlushProtocol.BracketedFlushHoldsBus |
