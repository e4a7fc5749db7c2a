/** What gdisp_lld_flush sends: nothing while the surface is marked clean,
    otherwise SETSTARTLINE | 0 followed by the whole surface, in runs of the
    board's maximum transfer size. The transfer size is a board setting; it
    must be positive and divide the surface size, since every run sends a
    full transfer's worth of bytes. */
module FlushProtocol {
  import opened Framebuffer
  import opened Board

  /** Bits of the display's flags word. Only GDISP_FLG_NEEDFLUSH belongs to
      this driver; the others belong to the generic layer. */
  datatype Flag = NeedFlush | OtherFlag(bit: nat)

  /** A transfer size the flush loop can use on the surface. */
  predicate ChunkSize(t: nat) {
    0 < t && BufferSize % t == 0
  }

  /** The number of runs a flush sends: BufferSize / t, each of t bytes. */
  lemma RunCount(t: nat)
    requires ChunkSize(t)
    ensures (BufferSize / t) * t == BufferSize
  {
  }

  lemma MulMonotone(a: nat, b: nat, t: nat)
    requires a <= b
    ensures a * t <= b * t
  {
  }

  /** The write_data calls of the first k iterations of the flush loop: one
      run of t bytes at each of the offsets 0, t, ..., (k - 1) * t. */
  function Runs(buf: seq<byte>, t: nat, k: nat): (log: seq<BusEvent>)
    requires k * t <= |buf|
    ensures |log| == k
    decreases k
  {
    if k == 0 then []
    else
      MulMonotone(k - 1, k, t);
      Runs(buf, t, k - 1) + [Data(buf[(k - 1) * t .. k * t])]
  }

  /** One more iteration of the flush loop: while the offset k * t is inside
      the buffer of n runs, the run it starts ends at (k + 1) * t, within the
      buffer. */
  lemma RunStep(t: nat, k: nat, n: nat)
    requires 0 < t && k * t < n * t
    ensures k < n && k * t + t == (k + 1) * t <= n * t
  {
    if n <= k {
      MulMonotone(n, k, t);
    }
    MulMonotone(k + 1, n, t);
  }

  /** The flush loop stops after exactly n runs. */
  lemma RunsDone(t: nat, k: nat, n: nat)
    requires 0 < t && k <= n && n * t <= k * t
    ensures k == n
  {
    if k < n {
      MulMonotone(k + 1, n, t);
    }
  }

  /** The j-th run is the t bytes at offset j * t. */
  lemma {:induction false} RunAt(buf: seq<byte>, t: nat, k: nat, j: nat)
    requires k * t <= |buf| && j < k
    ensures j * t <= (j + 1) * t <= |buf|
    ensures j < |Runs(buf, t, k)| && Runs(buf, t, k)[j] == Data(buf[j * t .. (j + 1) * t])
    decreases k
  {
    MulMonotone(j + 1, k, t);
    MulMonotone(k - 1, k, t);
    if j < k - 1 {
      RunAt(buf, t, k - 1, j);
    }
  }

  /** Together the first k runs carry buf[..k * t]. */
  lemma {:induction false} RunsPayload(buf: seq<byte>, t: nat, k: nat)
    requires k * t <= |buf|
    ensures Payload(Runs(buf, t, k)) == buf[..k * t]
    decreases k
  {
    if k == 0 {
      assert buf[..0] == [];
    } else {
      MulMonotone(k - 1, k, t);
      var lo, hi := (k - 1) * t, k * t;
      var last := [Data(buf[lo..hi])];
      RunsPayload(buf, t, k - 1);
      PayloadAppend(Runs(buf, t, k - 1), last);
      assert Payload(last) == buf[lo..hi] by {
        assert last[1..] == [];
      }
      assert buf[..hi] == buf[..lo] + buf[lo..hi];
    }
  }

  /** The bus log of one flush of `buf` with the flags `flags`: empty
      exactly when the surface is marked clean, and otherwise opened by
      SETSTARTLINE | 0. */
  function FlushLog(buf: seq<byte>, flags: set<Flag>, t: nat): (log: seq<BusEvent>)
    requires |buf| == BufferSize && ChunkSize(t)
    ensures (log == []) == (NeedFlush !in flags)
    ensures NeedFlush in flags ==> log[0] == Cmd(Op(SetStartLine(0)))
  {
    RunCount(t);
    if NeedFlush !in flags then []
    else [Cmd(Op(SetStartLine(0)))] + Runs(buf, t, BufferSize / t)
  }

  /** A clean surface is not sent at all; a dirty one is sent as the start
      line command and then BufferSize / t runs of t bytes at offsets 0, t,
      2t, ..., which together reproduce the surface byte for byte. */
  lemma FlushSendsSurface(buf: seq<byte>, flags: set<Flag>, t: nat)
    requires |buf| == BufferSize && ChunkSize(t)
    ensures NeedFlush !in flags ==> FlushLog(buf, flags, t) == []
    ensures NeedFlush in flags ==>
              var log := FlushLog(buf, flags, t);
              |log| == 1 + BufferSize / t &&
              log[0] == Cmd(Op(SetStartLine(0))) &&
              (forall j :: 1 <= j < |log| ==>
                 j * t <= BufferSize && log[j] == Data(buf[(j - 1) * t .. j * t])) &&
              Payload(log) == buf
  {
    if NeedFlush in flags {
      RunCount(t);
      var n := BufferSize / t;
      var start := [Cmd(Op(SetStartLine(0)))];
      var runs := Runs(buf, t, n);
      var log := FlushLog(buf, flags, t);
      assert log == start + runs;
      forall j | 1 <= j < |log|
        ensures j * t <= BufferSize && log[j] == Data(buf[(j - 1) * t .. j * t])
      {
        RunAt(buf, t, n, j - 1);
        assert log[j] == runs[j - 1];
      }
      assert Payload(log) == buf by {
        RunsPayload(buf, t, n);
        assert buf[..n * t] == buf;
        PayloadAppend(start, runs);
        assert Payload(start) == [] by {
          assert start[1..] == [];
        }
      }
    }
  }

  /** As written, a flush neither takes nor gives back the bus: none of the
      events it sends is acquire_bus or release_bus. */
  lemma FlushTakesNoBus(buf: seq<byte>, flags: set<Flag>, t: nat)
    requires |buf| == BufferSize && ChunkSize(t)
    ensures forall i :: 0 <= i < |FlushLog(buf, flags, t)| ==>
              FlushLog(buf, flags, t)[i] != Acquire && FlushLog(buf, flags, t)[i] != Release
  {
    var log := FlushLog(buf, flags, t);
    forall i | 0 <= i < |log|
      ensures log[i] != Acquire && log[i] != Release
    {
      if i > 0 {
        RunCount(t);
        RunAt(buf, t, BufferSize / t, i - 1);
        assert log[i] == Runs(buf, t, BufferSize / t)[i - 1];
      }
    }
  }

  /** The flush log as evidently intended: the commands and data of the
      flush as written, between acquire_bus and release_bus, like every other
      command sequence the driver sends. A clean surface still sends nothing. */
  function BracketedFlushLog(buf: seq<byte>, flags: set<Flag>, t: nat): (log: seq<BusEvent>)
    requires |buf| == BufferSize && ChunkSize(t)
    ensures (log == []) == (NeedFlush !in flags)
  {
    if NeedFlush !in flags then [] else [Acquire] + FlushLog(buf, flags, t) + [Release]
  }

  /** The corrected flush of a dirty surface holds the bus for the whole
      flush, takes it only once, and still delivers the surface byte for byte. */
  lemma BracketedFlushHoldsBus(buf: seq<byte>, flags: set<Flag>, t: nat)
    requires |buf| == BufferSize && ChunkSize(t) && NeedFlush in flags
    ensures var log := BracketedFlushLog(buf, flags, t);
            |log| >= 2 && log[0] == Acquire && log[|log| - 1] == Release &&
            (forall i :: 0 < i < |log| - 1 ==> log[i] != Acquire && log[i] != Release) &&
            Payload(log) == buf
  {
    var inner := FlushLog(buf, flags, t);
    var log := BracketedFlushLog(buf, flags, t);
    FlushTakesNoBus(buf, flags, t);
    FlushSendsSurface(buf, flags, t);
    assert log == [Acquire] + (inner + [Release]);
    forall i | 0 < i < |log| - 1
      ensures log[i] != Acquire && log[i] != Release
    {
      assert log[i] == inner[i - 1];
    }
    PayloadAppend([Acquire], inner + [Release]);
    PayloadAppend(inner, [Release]);
    assert Payload([Acquire]) == [] by {
      assert [Acquire][1..] == [];
    }
    assert Payload([Release]) == [] by {
      assert [Release][1..] == [];
    }
  }

  /** What a flush sends and the flags it leaves behind. */
  datatype FlushResult = FlushResult(log: seq<BusEvent>, flags: set<Flag>)

  /** gdisp_lld_flush as written: it sends FlushLog and never writes the
      flags, so GDISP_FLG_NEEDFLUSH stays as it was. */
  function FlushStep(buf: seq<byte>, flags: set<Flag>, t: nat): (r: FlushResult)
    requires |buf| == BufferSize && ChunkSize(t)
    ensures r.flags == flags
  {
    FlushResult(FlushLog(buf, flags, t), flags)
  }

  /** As written, a flush of a dirty surface leaves it marked dirty, so the
      next flush, with nothing drawn in between, sends the same non-empty log
      again: the whole surface a second time. */
  lemma SecondFlushResends(buf: seq<byte>, flags: set<Flag>, t: nat)
    requires |buf| == BufferSize && ChunkSize(t)
    requires NeedFlush in flags
    ensures var first := FlushStep(buf, flags, t);
            var second := FlushStep(buf, first.flags, t);
            NeedFlush in first.flags && first.log != [] &&
            second.log == first.log && Payload(second.log) == buf
  {
    FlushSendsSurface(buf, flags, t);
  }

  /** The flush as evidently intended: it sends what the flush as written
      sends, and then clears GDISP_FLG_NEEDFLUSH, and no other flag. */
  function SettlingFlush(buf: seq<byte>, flags: set<Flag>, t: nat): (r: FlushResult)
    requires |buf| == BufferSize && ChunkSize(t)
    ensures r.log == FlushStep(buf, flags, t).log
    ensures r.flags == flags - {NeedFlush}
  {
    FlushResult(FlushLog(buf, flags, t), flags - {NeedFlush})
  }

  /** What the panel was last sent agrees with the surface whenever the
      surface is marked clean. */
  predicate InSync(shown: seq<byte>, buf: seq<byte>, flags: set<Flag>) {
    NeedFlush !in flags ==> shown == buf
  }

  /** With the corrected flush, drawing and flushing keep the panel in sync
      with the surface, and a flush right after a flush sends nothing. */
  lemma SettlingFlushKeepsSync(shown: seq<byte>, buf: seq<byte>, flags: set<Flag>, t: nat)
    requires |buf| == BufferSize && ChunkSize(t)
    requires InSync(shown, buf, flags)
    ensures var r := SettlingFlush(buf, flags, t);
            var shownAfter := if r.log == [] then shown else Payload(r.log);
            InSync(shownAfter, buf, r.flags) &&
            SettlingFlush(buf, r.flags, t).log == []
  {
    FlushSendsSurface(buf, flags, t);
  }

  /** A draw followed by the corrected flush leaves the surface marked
      clean and the panel showing it, with the drawn pixel in its new colour. */
  lemma DrawThenFlushShows(buf: seq<byte>, flags: set<Flag>, x: int, y: int, color: Color, t: nat)
    requires |buf| == BufferSize && OnScreen(x, y) && ChunkSize(t)
    ensures var drawn := Drawn(buf, x, y, color);
            var r := SettlingFlush(drawn, flags + {NeedFlush}, t);
            NeedFlush !in r.flags && InSync(Payload(r.log), drawn, r.flags) &&
            PixelColor(Payload(r.log), x, y) == if color != Black then White else Black
  {
    FlushSendsSurface(Drawn(buf, x, y, color), flags + {NeedFlush}, t);
  }
}
