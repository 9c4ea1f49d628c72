/** Properties of runs of the driver: what holds after any finite sequence of ticks. */
module Traces {
  import opened Bits
  import opened OledVga

  /** Running a prefix one tick longer takes one more step. */
  lemma RunPrefix(table: Table, s: State, ins: seq<Inputs>, k: nat)
    requires k < |ins|
    ensures Run(table, s, ins[..k + 1]) == Step(table, Run(table, s, ins[..k]), ins[k])
  {
    assert ins[..k + 1][..k] == ins[..k];
  }

  /** The reset counter counts the first two ticks and then stays at 2: the panel reset
      line is low exactly in the state after the first tick, chip select is its inverse
      throughout, and from the second tick on reset is released and chip select active
      for good. */
  lemma {:induction false} ResetSequence(table: Table, ins: seq<Inputs>)
    ensures Run(table, Reset(), ins).resetCnt == (if |ins| < 2 then |ins| else 2)
    ensures !Outputs(Run(table, Reset(), ins)).resn <==> |ins| == 1
    ensures Outputs(Run(table, Reset(), ins)).csn <==> |ins| == 1
    decreases |ins|
  {
    if |ins| > 0 {
      ResetSequence(table, ins[..|ins| - 1]);
    }
  }

  /** Every reachable state satisfies `Inv`: the reset counter never reaches 3, the byte
      address stays below M (so the guard `init_cnt[15:4] != M` never fails), both
      column counters stay inside the 96-pixel line, `dc` is set only at address M - 1,
      the panel cursor stays at (1, 1) until data mode, and the serializer has not
      moved while the panel is held in reset. */
  lemma {:induction false} ReachableInv(table: Table, ins: seq<Inputs>)
    ensures Inv(table, Run(table, Reset(), ins))
    ensures Run(table, Reset(), ins).resetCnt != 3
    ensures ByteAddr(Run(table, Reset(), ins).serial.initCnt) != |table|
    ensures Run(table, Reset(), ins).serial.x < LineWidth
    ensures Run(table, Reset(), ins).capture.xIn < LineWidth
    decreases |ins|
  {
    if |ins| > 0 {
      ReachableInv(table, ins[..|ins| - 1]);
      StepInv(table, Run(table, Reset(), ins[..|ins| - 1]), ins[|ins| - 1]);
    }
  }

  /** The data/command latch over a run: once set it stays set, and if it was clear at
      the start and is set at the end, some state of the run was at the data address
      M - K. */
  lemma {:induction false} DcLatch(table: Table, s: State, ins: seq<Inputs>)
    ensures s.serial.dc ==> Run(table, s, ins).serial.dc
    ensures !s.serial.dc && Run(table, s, ins).serial.dc ==>
      exists k :: 0 <= k < |ins| && ByteAddr(Run(table, s, ins[..k]).serial.initCnt) == DataAddr(table)
    decreases |ins|
  {
    if |ins| > 0 {
      var n := |ins| - 1;
      var p := ins[..n];
      DcLatch(table, s, p);
      var u := Run(table, s, p);
      assert Run(table, s, ins) == Step(table, u, ins[n]);
      if !s.serial.dc && Run(table, s, ins).serial.dc {
        if u.serial.dc {
          var k :| 0 <= k < |p| && ByteAddr(Run(table, s, p[..k]).serial.initCnt) == DataAddr(table);
          assert p[..k] == ins[..k];
        } else {
          assert ByteAddr(Run(table, s, ins[..n]).serial.initCnt) == DataAddr(table);
        }
      }
    }
  }

  /** The converse of `DcLatch`: once some state of a run is at the data address, every
      later state has `dc` set. Together the two lemmas say that `dc` at the end of a run
      is exactly "set at the start, or the data address was reached before the last tick". */
  lemma {:induction false} DcSetAfter(table: Table, s: State, ins: seq<Inputs>, k: nat)
    requires k < |ins|
    requires ByteAddr(Run(table, s, ins[..k]).serial.initCnt) == DataAddr(table)
    ensures Run(table, s, ins).serial.dc
    decreases |ins|
  {
    var n := |ins| - 1;
    var p := ins[..n];
    var u := Run(table, s, p);
    assert Run(table, s, ins) == Step(table, u, ins[n]);
    if k < n {
      assert p[..k] == ins[..k];
      DcSetAfter(table, s, p, k);
    }
  }

  /** The byte address over a run: it never passes M - 1, and once it is M - 1 it stays
      there. */
  lemma {:induction false} AddrPinned(table: Table, s: State, ins: seq<Inputs>)
    ensures ByteAddr(s.serial.initCnt) < |table| ==>
      ByteAddr(Run(table, s, ins).serial.initCnt) < |table|
    ensures ByteAddr(s.serial.initCnt) == LastAddr(table) ==>
      ByteAddr(Run(table, s, ins).serial.initCnt) == LastAddr(table)
    decreases |ins|
  {
    if |ins| > 0 {
      AddrPinned(table, s, ins[..|ins| - 1]);
    }
  }

  /** A load tick: the counter's low bits go from 0 to 1 and the register takes the
      loaded byte. */
  lemma LoadStep(table: Table, s: State, i: Inputs)
    requires s.resetCnt == 2 && ByteAddr(s.serial.initCnt) < |table|
    requires Nibble(s.serial.initCnt) == 0 && s.capture.yIn == s.serial.y
    ensures var t := Step(table, s, i);
      && t.resetCnt == 2
      && ByteAddr(t.serial.initCnt) < |table|
      && Nibble(t.serial.initCnt) == 1
      && Lsb(t.serial.initCnt)
      && t.serial.spiData == LoadedByte(table, s.serial, s.capture.scanline)
  {
  }

  /** A shifting tick at full serial rate: the low bits advance by one and the register
      shifts on even counts only. */
  lemma ShiftStep(table: Table, t: State, i: Inputs, b: Byte, j: nat)
    requires t.resetCnt == 2 && ByteAddr(t.serial.initCnt) < |table|
    requires j < 15 && Nibble(t.serial.initCnt) == 1 + j && i.clkEn
    requires t.serial.spiData == ShiftN(b, j / 2)
    ensures var u := Step(table, t, i);
      && u.resetCnt == 2
      && ByteAddr(u.serial.initCnt) < |table|
      && Nibble(u.serial.initCnt) == (if j < 14 then 2 + j else 0)
      && (Lsb(u.serial.initCnt) <==> j % 2 == 1)
      && u.serial.spiData == ShiftN(b, (j + 1) / 2)
  {
    assert Lsb(t.serial.initCnt) <==> j % 2 == 0;
    if j % 2 == 0 {
      assert (j + 1) / 2 == j / 2;
    } else {
      assert (j + 1) / 2 == j / 2 + 1;
    }
  }

  /** Transmission of one byte at full serial rate. Starting from a load tick (bit
      index 0, rows agreeing), after the load and `j` further enabled ticks the shift
      register holds the loaded byte shifted up `j / 2` places and the counter's low
      bits read `1 + j` (mod 16). */
  lemma {:induction false} SendProgress(table: Table, s: State, ins: seq<Inputs>, j: nat)
    requires s.resetCnt == 2 && ByteAddr(s.serial.initCnt) < |table|
    requires Nibble(s.serial.initCnt) == 0 && s.capture.yIn == s.serial.y
    requires j <= 15 && j + 1 <= |ins|
    requires forall k :: 1 <= k <= j ==> ins[k].clkEn
    ensures var t := Run(table, s, ins[..j + 1]);
      && t.resetCnt == 2
      && ByteAddr(t.serial.initCnt) < |table|
      && Nibble(t.serial.initCnt) == (if j < 15 then 1 + j else 0)
      && (Lsb(t.serial.initCnt) <==> j % 2 == 0)
      && t.serial.spiData == ShiftN(LoadedByte(table, s.serial, s.capture.scanline), j / 2)
    decreases j
  {
    RunPrefix(table, s, ins, j);
    var t := Run(table, s, ins[..j]);
    var b := LoadedByte(table, s.serial, s.capture.scanline);
    if j == 0 {
      assert t == s by { assert ins[..0] == []; }
      LoadStep(table, s, ins[0]);
    } else {
      var i := j - 1;
      SendProgress(table, s, ins, i);
      assert i + 1 == j;
      assert t.serial.spiData == ShiftN(b, i / 2);
      ShiftStep(table, t, ins[j], b, i);
    }
  }

  /** One bit on the bus: the `k`-th rising edge of the serial clock after a load, and
      the low phase before it, both show bit `7 - k` of the loaded byte. */
  lemma BitOnEdge(table: Table, s: State, ins: seq<Inputs>, k: nat)
    requires s.resetCnt == 2 && ByteAddr(s.serial.initCnt) < |table|
    requires Nibble(s.serial.initCnt) == 0 && s.capture.yIn == s.serial.y
    requires |ins| == 16 && k < 8
    requires forall k :: 1 <= k < 16 ==> ins[k].clkEn
    ensures var low := Outputs(Run(table, s, ins[..2 * k + 1]));
      var high := Outputs(Run(table, s, ins[..2 * k + 2]));
      var b := LoadedByte(table, s.serial, s.capture.scanline);
      && !low.clk && high.clk
      && low.mosi == Bit(b, 7 - k)
      && high.mosi == Bit(b, 7 - k)
  {
    var b := LoadedByte(table, s.serial, s.capture.scanline);
    SendProgress(table, s, ins, 2 * k);
    SendProgress(table, s, ins, 2 * k + 1);
    assert (2 * k + 1) / 2 == k && (2 * k) / 2 == k;
    assert (2 * k) % 2 == 0 && (2 * k + 1) % 2 == 1;
    MsbAfterShifts(b, k);
  }

  /** Bit order on the bus: for every byte loaded, the eight values on the data line at
      the eight rising edges of the serial clock are the byte's bits from the most to
      the least significant, each already present while the clock was low; sixteen
      ticks after the load the next load is due. The clock enable must be high on the
      fifteen ticks after the load; the load itself ignores it. */
  lemma ByteMsbFirst(table: Table, s: State, ins: seq<Inputs>)
    requires s.resetCnt == 2 && ByteAddr(s.serial.initCnt) < |table|
    requires Nibble(s.serial.initCnt) == 0 && s.capture.yIn == s.serial.y
    requires |ins| == 16
    requires forall k :: 1 <= k < 16 ==> ins[k].clkEn
    ensures forall k :: 0 <= k < 8 ==>
      var low := Outputs(Run(table, s, ins[..2 * k + 1]));
      var high := Outputs(Run(table, s, ins[..2 * k + 2]));
      var b := LoadedByte(table, s.serial, s.capture.scanline);
      && !low.clk && high.clk
      && low.mosi == Bit(b, 7 - k)
      && high.mosi == Bit(b, 7 - k)
    ensures Nibble(Run(table, s, ins).serial.initCnt) == 0
  {
    forall k | 0 <= k < 8
      ensures var low := Outputs(Run(table, s, ins[..2 * k + 1]));
        var high := Outputs(Run(table, s, ins[..2 * k + 2]));
        var b := LoadedByte(table, s.serial, s.capture.scanline);
        && !low.clk && high.clk
        && low.mosi == Bit(b, 7 - k)
        && high.mosi == Bit(b, 7 - k)
    {
      BitOnEdge(table, s, ins, k);
    }
    SendProgress(table, s, ins, 15);
    assert ins[..16] == ins;
  }

  /** The last init table entry can go out as data: a load on the very tick the address
      has reached M - 1 (rows agreeing, `dc` still clear) takes the table's last entry,
      because `dc` is a register and the load still sees the command setting, while `dc`
      rises on the same tick. At full serial rate every one of the eight rising clock
      edges that shift the byte out therefore sees the data/command line high. */
  lemma LastEntrySentAsData(table: Table, s: State, ins: seq<Inputs>)
    requires s.resetCnt == 2 && ByteAddr(s.serial.initCnt) == LastAddr(table) && !s.serial.dc
    requires Nibble(s.serial.initCnt) == 0 && s.capture.yIn == s.serial.y
    requires |ins| == 16
    requires forall k :: 1 <= k < 16 ==> ins[k].clkEn
    ensures forall k :: 0 <= k < 8 ==>
      var high := Outputs(Run(table, s, ins[..2 * k + 2]));
      high.clk && high.dc && high.mosi == Bit(table[|table| - 1], 7 - k)
  {
    forall k | 0 <= k < 8
      ensures var high := Outputs(Run(table, s, ins[..2 * k + 2]));
        high.clk && high.dc && high.mosi == Bit(table[|table| - 1], 7 - k)
    {
      BitOnEdge(table, s, ins, k);
      assert ins[..2 * k + 2][..0] == [];
      DcSetAfter(table, s, ins[..2 * k + 2], 0);
    }
  }

  /** The other way the address can arrive at M - 1: if the capture row differs from
      the panel row on that tick, nothing is loaded, yet `dc` rises all the same, since
      the latch looks at the address and not at whether a byte was taken. The table's
      last entry is then never loaded: every later load takes scanline cell `x`. */
  lemma LastEntrySkipped(table: Table, s: State, i: Inputs)
    requires s.resetCnt == 2 && ByteAddr(s.serial.initCnt) == LastAddr(table) && !s.serial.dc
    requires Nibble(s.serial.initCnt) == 0 && s.capture.yIn != s.serial.y
    ensures var t := Step(table, s, i);
      && t.serial.dc
      && t.serial.initCnt == s.serial.initCnt && t.serial.spiData == s.serial.spiData
      && forall line: Line :: LoadedByte(table, t.serial, line) == Cell(line, t.serial.x)
  {
  }

  /** A one-entry table is never sent: its only address is already the data address,
      so `dc` is set after the very first tick, while the panel is still held in reset,
      and every state in which the serializer is released has `dc` set. */
  lemma SingleEntryNeverSent(table: Table, ins: seq<Inputs>)
    requires |table| == 1
    ensures |ins| >= 1 ==> Run(table, Reset(), ins).serial.dc
    ensures Run(table, Reset(), ins).resetCnt == 2 ==> Run(table, Reset(), ins).serial.dc
  {
    ResetSequence(table, ins);
    if |ins| >= 1 {
      assert ins[..0] == [];
      DcSetAfter(table, Reset(), ins, 0);
    }
  }

  /** The capture registers evolve on their own: a run of the whole driver moves them
      exactly as a run of the capture path alone does. */
  lemma {:induction false} CaptureIndependent(table: Table, s: State, ins: seq<Inputs>)
    ensures Run(table, s, ins).capture == CaptureRun(s.capture, ins)
    decreases |ins|
  {
    if |ins| > 0 {
      CaptureIndependent(table, s, ins[..|ins| - 1]);
    }
  }

  /** Capturing one visible line: from column 0, `n <= 96` enabled, visible ticks
      without sync pulses store the `n` pixels in cells `0 .. n - 1`, leave the other
      cells alone, and move the capture column to `n mod 96`; after exactly 96 the
      capture row has advanced by one (mod 64). */
  lemma {:induction false} LineCapture(c: Capture, ins: seq<Inputs>)
    requires c.xIn == 0 && |ins| <= LineWidth
    requires forall k :: 0 <= k < |ins| ==>
      ins[k].pixelEna && !ins[k].vsync && !ins[k].hsync && !ins[k].blank
    ensures var d := CaptureRun(c, ins);
      && d.xIn == |ins| % LineWidth
      && d.yIn == (if |ins| == LineWidth then (c.yIn + 1) % 64 else c.yIn)
      && (forall j :: 0 <= j < |ins| ==> d.scanline[j] == ins[j].pixel)
      && (forall j :: |ins| <= j < LineWidth ==> d.scanline[j] == c.scanline[j])
    decreases |ins|
  {
    if |ins| > 0 {
      var n := |ins| - 1;
      var p := ins[..n];
      LineCapture(c, p);
      var u := CaptureRun(c, p);
      var d := CaptureRun(c, ins);
      assert d == CaptureStep(u, ins[n]);
      assert u.xIn == n;
      assert d.scanline == u.scanline[n := ins[n].pixel];
      forall j | 0 <= j < n
        ensures d.scanline[j] == ins[j].pixel
      {
        assert p[j] == ins[j];
      }
    }
  }

  /** A tick that cannot load: with the capture row away from the panel row, the
      serializer of a state that has not started stays where it is. */
  lemma NoLoadStep(table: Table, u: State, i: Inputs)
    requires Inv(table, u) && u.serial.initCnt == 0 && u.serial.spiData == 0
    requires u.capture.yIn != u.serial.y
    ensures var t := Step(table, u, i);
      && t.serial.initCnt == 0 && t.serial.spiData == 0
      && t.serial.x == u.serial.x && t.serial.y == u.serial.y
  {
    assert Nibble(u.serial.initCnt) == 0;
  }

  /** Row gating at start-up: the panel row starts at 1 and the capture row at 0, so no
      byte, not even the first init command, is loaded until the capture path has
      reached row 1. */
  lemma {:induction false} WaitForFirstRow(table: Table, ins: seq<Inputs>)
    requires forall k :: 0 <= k < |ins| ==> Run(table, Reset(), ins[..k]).capture.yIn != 1
    ensures var t := Run(table, Reset(), ins);
      t.serial.initCnt == 0 && t.serial.spiData == 0 && t.serial.x == 1 && t.serial.y == 1
    decreases |ins|
  {
    if |ins| > 0 {
      var n := |ins| - 1;
      var p := ins[..n];
      forall k | 0 <= k < n
        ensures Run(table, Reset(), p[..k]).capture.yIn != 1
      {
        assert p[..k] == ins[..k];
      }
      WaitForFirstRow(table, p);
      ReachableInv(table, p);
      var u := Run(table, Reset(), p);
      assert u.capture.yIn != 1;
      NoLoadStep(table, u, ins[n]);
      assert Run(table, Reset(), ins) == Step(table, u, ins[n]);
    }
  }
}
