/** gdisp_lld_control as a step on the display's recorded state (the
    GDisplay fields Width, Height, Orientation, Powermode, Backlight and
    Contrast) that also yields what it sends over the bus. The driver class
    performs the same step in place. */
module Control {
  import opened Framebuffer
  import opened Board

  /** powermode_t. A request may carry any value; PowerOther stands for
      every value that is none of the four modes the driver names. */
  datatype PowerMode = PowerOff | PowerSleep | PowerDeepSleep | PowerOn | PowerOther

  /** orientation_t. OrientationOther stands for every value that is none
      of the four rotations (portrait, landscape, arbitrary casts). */
  datatype Orientation = Rotate0 | Rotate90 | Rotate180 | Rotate270 | OrientationOther

  /** The part of the GDisplay record (g->g) that the driver writes. */
  datatype DisplayState = DisplayState(
    width: int,
    height: int,
    orientation: Orientation,
    powermode: PowerMode,
    backlight: nat,
    contrast: nat)

  /** One gdisp_lld_control call: g->p.x names the control, g->p.ptr holds
      its value. Controls this driver has no case for fall under
      ControlOther. */
  datatype Request =
    | ControlPower(mode: PowerMode)
    | ControlOrientation(orientation: Orientation)
    | ControlContrast(percent: nat)
    | ControlInvert(value: int)
    | ControlOther

  /** The state after a control call and what the call sent. */
  datatype Step = Step(state: DisplayState, log: seq<BusEvent>)

  /** The states the driver can be in once initialised. */
  predicate ValidState(s: DisplayState) {
    s.width == ScreenWidth && s.height == ScreenHeight &&
    (s.orientation == Rotate0 || s.orientation == Rotate180) &&
    !s.powermode.PowerOther? &&
    s.contrast <= 100
  }

  predicate IsOffMode(m: PowerMode) {
    m == PowerOff || m == PowerSleep || m == PowerDeepSleep
  }

  /** The contrast percentage the driver keeps: requests above 100 count as 100. */
  function ClampPercent(p: nat): (c: nat)
    ensures c <= 100
    ensures p <= 100 ==> c == p
    ensures p > 100 ==> c == 100
  {
    if p > 100 then 100 else p
  }

  /** The device contrast for percentage c: (c << 8) / 101, that is
      c * 256 / 101 rounded down, which for c <= 100 stays within 0..253, so
      neither the 16-bit shift nor the byte sent truncates. (The contrast
      branch shifts the undeclared name `value`; it is read as the clamped
      g->p.ptr.) */
  function ContrastLevel(c: nat): (r: nat)
    requires c <= 100
    ensures r <= 253
    ensures r * 101 <= c * 256 < r * 101 + 101
  {
    c * 256 / 101
  }

  /** A higher percentage never gives a lower device contrast. */
  lemma ContrastLevelMonotone(c1: nat, c2: nat)
    requires c1 <= c2 <= 100
    ensures ContrastLevel(c1) <= ContrastLevel(c2)
  {
  }

  /** The SETCONTRAST parameter byte. */
  function ContrastByte(c: nat): (r: byte)
    requires c <= 100
    ensures c == 0 ==> r == 0
    ensures c == 100 ==> r == 253
  {
    ContrastLevel(c) as byte
  }

  /** The power branch as written. A mode equal to the recorded one does
      nothing. Off, Sleep and DeepSleep send one DISPLAYOFF and are recorded.
      On sends one DISPLAYON and then, lacking a break, reaches
      `default: return` before the mode is recorded, so this step never
      records PowerOn. Any other value does nothing. */
  function PowerStep(s: DisplayState, m: PowerMode): (r: Step)
    ensures s.powermode == m ==> r == Step(s, [])
    ensures s.powermode != m && IsOffMode(m) ==>
              r == Step(s.(powermode := m), Transaction([Op(DisplayOff)]))
    ensures s.powermode != m && m == PowerOn ==>
              r == Step(s, Transaction([Op(DisplayOn)]))
    ensures m.PowerOther? ==> r == Step(s, [])
    ensures r.state.powermode == PowerOn ==> s.powermode == PowerOn
  {
    if s.powermode == m then Step(s, [])
    else if IsOffMode(m) then Step(s.(powermode := m), Transaction([Op(DisplayOff)]))
    else if m == PowerOn then Step(s, Transaction([Op(DisplayOn)]))
    else Step(s, [])
  }

  /** The orientation branch. The current orientation does nothing.
      Rotate0 sends COMSCANDEC, SEGREMAP+1 and Rotate180 sends COMSCANINC,
      SEGREMAP; both keep the 128 x 64 geometry and record the orientation.
      Other values do nothing. (The source writes the geometry through the
      name GDISP and records the orientation from the name `value`, neither
      of which is declared there; they are read as g->g and g->p.ptr.) */
  function OrientationStep(s: DisplayState, o: Orientation): (r: Step)
    ensures s.orientation == o ==> r == Step(s, [])
    ensures s.orientation != o && o == Rotate0 ==>
              r.log == Transaction([Op(ComScanDec), Op(SegRemap1)])
    ensures s.orientation != o && o == Rotate180 ==>
              r.log == Transaction([Op(ComScanInc), Op(SegRemap)])
    ensures s.orientation != o && (o == Rotate0 || o == Rotate180) ==>
              r.state == s.(orientation := o, width := ScreenWidth, height := ScreenHeight)
    ensures o != Rotate0 && o != Rotate180 ==> r == Step(s, [])
  {
    if s.orientation == o then Step(s, [])
    else match o
      case Rotate0 =>
        Step(s.(height := ScreenHeight, width := ScreenWidth, orientation := o),
             Transaction([Op(ComScanDec), Op(SegRemap1)]))
      case Rotate180 =>
        Step(s.(height := ScreenHeight, width := ScreenWidth, orientation := o),
             Transaction([Op(ComScanInc), Op(SegRemap)]))
      case _ => Step(s, [])
  }

  /** The contrast branch: always sends SETCONTRAST with the device value of
      the clamped percentage, and records the clamped percentage. */
  function ContrastStep(s: DisplayState, p: nat): (r: Step)
    ensures r.state == s.(contrast := if p > 100 then 100 else p)
    ensures r.log == Transaction([Op(SetContrast), Arg(ContrastByte(r.state.contrast))])
  {
    var c := ClampPercent(p);
    Step(s.(contrast := c), Transaction([Op(SetContrast), Arg(ContrastByte(c))]))
  }

  /** The invert branch: INVERTDISPLAY for a non-zero value, NORMALDISPLAY
      for zero; nothing is recorded. */
  function InvertStep(s: DisplayState, v: int): (r: Step)
    ensures r.state == s
    ensures r.log == Transaction([Op(if v != 0 then InvertDisplay else NormalDisplay)])
  {
    Step(s, Transaction([Op(if v != 0 then InvertDisplay else NormalDisplay)]))
  }

  /** One gdisp_lld_control call. Every call keeps a valid state valid,
      never touches the backlight, sends either nothing or one bracketed
      run of commands, records PowerOn only if it was recorded before, and
      changes only the fields its request is about. */
  function ControlStep(s: DisplayState, req: Request): (r: Step)
    ensures ValidState(s) ==> ValidState(r.state)
    ensures r.state.backlight == s.backlight
    ensures r.log == [] || IsTransaction(r.log)
    ensures r.state.powermode == PowerOn ==> s.powermode == PowerOn
    ensures !req.ControlPower? ==> r.state.powermode == s.powermode
    ensures !req.ControlOrientation? ==> r.state.orientation == s.orientation
    ensures !req.ControlOrientation? ==> r.state.width == s.width && r.state.height == s.height
    ensures !req.ControlContrast? ==> r.state.contrast == s.contrast
  {
    match req
    case ControlPower(m) => PowerStep(s, m)
    case ControlOrientation(o) => OrientationStep(s, o)
    case ControlContrast(p) => ContrastStep(s, p)
    case ControlInvert(v) => InvertStep(s, v)
    case ControlOther => Step(s, [])
  }

  /** A sequence of control calls, one after another. */
  function Run(s: DisplayState, reqs: seq<Request>): Step
    decreases |reqs|
  {
    if reqs == [] then Step(s, [])
    else
      var first := ControlStep(s, reqs[0]);
      var rest := Run(first.state, reqs[1..]);
      Step(rest.state, first.log + rest.log)
  }

  /** No sequence of control calls leaves the valid states. */
  lemma {:induction false} RunKeepsValid(s: DisplayState, reqs: seq<Request>)
    requires ValidState(s)
    ensures ValidState(Run(s, reqs).state)
    decreases |reqs|
  {
    if reqs != [] {
      RunKeepsValid(ControlStep(s, reqs[0]).state, reqs[1..]);
    }
  }

  /** Once the recorded mode is not PowerOn, no sequence of control calls
      records PowerOn again. */
  lemma {:induction false} RunNeverRecordsPowerOn(s: DisplayState, reqs: seq<Request>)
    requires s.powermode != PowerOn
    ensures Run(s, reqs).state.powermode != PowerOn
    decreases |reqs|
  {
    if reqs != [] {
      RunNeverRecordsPowerOn(ControlStep(s, reqs[0]).state, reqs[1..]);
    }
  }

  /** Whether the recorded power mode agrees with the panel: PowerOn exactly
      when the panel is switched on. */
  predicate TracksPanel(s: DisplayState, on: bool) {
    (s.powermode == PowerOn) == on
  }

  /** As written, Off, then On, then Off, from a display that is on, leaves
      the panel switched on with PowerOff recorded: the last request finds
      PowerOff already recorded and sends nothing. */
  lemma PowerOffIgnoredAfterPowerOn(s: DisplayState)
    requires s.powermode == PowerOn
    ensures var r := Run(s, [ControlPower(PowerOff), ControlPower(PowerOn), ControlPower(PowerOff)]);
            r.state.powermode == PowerOff && PanelOn(true, r.log) &&
            !TracksPanel(r.state, PanelOn(true, r.log))
  {
    var off, on := Transaction([Op(DisplayOff)]), Transaction([Op(DisplayOn)]);
    var s1 := s.(powermode := PowerOff);
    assert ControlStep(s, ControlPower(PowerOff)) == Step(s1, off);
    assert ControlStep(s1, ControlPower(PowerOn)) == Step(s1, on);
    assert ControlStep(s1, ControlPower(PowerOff)) == Step(s1, []);
    var r := Run(s, [ControlPower(PowerOff), ControlPower(PowerOn), ControlPower(PowerOff)]);
    assert [ControlPower(PowerOff), ControlPower(PowerOn), ControlPower(PowerOff)][1..] ==
           [ControlPower(PowerOn), ControlPower(PowerOff)];
    assert [ControlPower(PowerOn), ControlPower(PowerOff)][1..] == [ControlPower(PowerOff)];
    assert r.log == off + on;
    PanelOnAppend(true, off, on);
    assert PanelOn(true, off) == false;
    assert PanelOn(false, on) == true;
  }

  /** The power branch as evidently intended, with the missing break after
      the powerOn case: On is recorded like the other modes. */
  function PowerStepFixed(s: DisplayState, m: PowerMode): (r: Step)
    ensures m.PowerOther? ==> r == Step(s, [])
    ensures !m.PowerOther? ==> r.state == s.(powermode := m)
  {
    if s.powermode == m then Step(s, [])
    else if IsOffMode(m) then Step(s.(powermode := m), Transaction([Op(DisplayOff)]))
    else if m == PowerOn then Step(s.(powermode := m), Transaction([Op(DisplayOn)]))
    else Step(s, [])
  }

  /** A run of power requests. */
  function PowerRunFixed(s: DisplayState, ms: seq<PowerMode>): Step
    decreases |ms|
  {
    if ms == [] then Step(s, [])
    else
      var first := PowerStepFixed(s, ms[0]);
      var rest := PowerRunFixed(first.state, ms[1..]);
      Step(rest.state, first.log + rest.log)
  }

  /** One corrected power request keeps the recorded mode in agreement with
      the panel and records the requested mode. */
  lemma PowerStepFixedTracks(s: DisplayState, on: bool, m: PowerMode)
    requires TracksPanel(s, on) && !m.PowerOther?
    ensures var r := PowerStepFixed(s, m);
            TracksPanel(r.state, PanelOn(on, r.log)) && r.state.powermode == m
  {
    if s.powermode != m {
      assert PanelOn(on, Transaction([Op(DisplayOff)])) == false;
      assert PanelOn(on, Transaction([Op(DisplayOn)])) == true;
    }
  }

  /** With the fix, the recorded mode keeps agreeing with the panel over any
      run of named power requests, and the panel ends up on exactly when the
      last request was PowerOn. */
  lemma {:induction false} FixedPowerTracksPanel(s: DisplayState, on: bool, ms: seq<PowerMode>)
    requires TracksPanel(s, on)
    requires forall i :: 0 <= i < |ms| ==> !ms[i].PowerOther?
    ensures var r := PowerRunFixed(s, ms);
            TracksPanel(r.state, PanelOn(on, r.log)) &&
            (ms != [] ==> r.state.powermode == ms[|ms| - 1])
    decreases |ms|
  {
    if ms != [] {
      var first := PowerStepFixed(s, ms[0]);
      var on1 := PanelOn(on, first.log);
      PowerStepFixedTracks(s, on, ms[0]);
      var rest := PowerRunFixed(first.state, ms[1..]);
      FixedPowerTracksPanel(first.state, on1, ms[1..]);
      PanelOnAppend(on, first.log, rest.log);
      assert PowerRunFixed(s, ms) == Step(rest.state, first.log + rest.log);
      if ms[1..] == [] {
        assert rest == Step(first.state, []);
      } else {
        assert ms[1..][|ms[1..]| - 1] == ms[|ms| - 1];
      }
    }
  }
}
