/** One clock tick of the OLED_VGA serial display driver.

    The driver is a synchronous circuit: every register's next value is computed
    from the previous values of all registers plus six inputs, and the five bus
    outputs are combinational functions of the registers. Where two assignments
    to the same register happen in one tick, the later one wins; `Step` applies
    them in the order the circuit lists them.

    The registers fall into three groups: the reset counter, the serializer
    (which replays the init table and then streams the scanline), and the pixel
    capture path (which writes the scanline). Capture never reads the other two
    groups; the serializer reads the capture row and the scanline. */
module OledVga {
  import opened Bits

  /** Width of the scanline buffer in pixels. */
  const LineWidth: nat := 96

  /** Last column of a line (`0b101_1111`). */
  const LastColumn: U7 := 95

  /** How many trailing entries of the init table are sent as data (`C_last_init_send_as_data`). */
  const TrailingData: nat := 1

  /** The panel initialisation table: its contents are a parameter of the driver.
      Its length must fit the 12-bit byte address, and stay below 4096 so that the
      comparison of that address with the length can fail. */
  type Table = t: seq<Byte> | 1 <= |t| <= 4095 witness [0]

  /** The one-line pixel buffer `R_scanline`. */
  type Line = s: seq<Byte> | |s| == LineWidth witness seq(LineWidth, _ => 0)

  /** Registers of the serializer. */
  datatype Serial = Serial(
    initCnt: U16,    // R_init_cnt: byte address (15..4), bit index (3..1), clock phase (0)
    spiData: Byte,   // R_spi_data, the shift register
    dc: bool,        // R_dc: false = command, true = data
    x: U7,           // R_x, column being sent to the panel
    y: U6            // R_y, row being sent to the panel
  )

  /** Registers of the pixel capture path. */
  datatype Capture = Capture(
    xIn: U7,         // R_x_in, column being captured
    yIn: U6,         // R_y_in, row being captured
    scanline: Line   // R_scanline
  )

  /** All registers of the driver. */
  datatype State = State(resetCnt: U2, serial: Serial, capture: Capture)

  /** The inputs sampled in one tick. */
  datatype Inputs = Inputs(
    clkEn: bool,     // i_clk_en, paces the serial bit rate
    pixelEna: bool,  // i_clk_pixel_ena
    hsync: bool,
    vsync: bool,
    blank: bool,
    pixel: Byte
  )

  /** The five bus lines. */
  datatype Pins = Pins(resn: bool, csn: bool, clk: bool, dc: bool, mosi: bool)

  /** Register values after power-up. */
  function Reset(): State
  {
    State(0, Serial(0, 0, false, 1, 1), Capture(0, 0, seq(LineWidth, _ => 0)))
  }

  /** Reading `R_scanline[i]`; an index past the end selects the last cell, as an
      nmigen `Array` does (no reachable state has one, see `Traces.ReachableInv`). */
  function Cell(line: Line, i: U7): (b: Byte)
    ensures i <= LastColumn ==> b == line[i]
    ensures i > LastColumn ==> b == line[LastColumn]
  {
    if i < LineWidth then line[i] else line[LineWidth - 1]
  }

  /** Writing `R_scanline[i]`: the addressed cell (the last one for an index past
      the end) reads back `v`, and every other cell keeps its value. */
  function WriteCell(line: Line, i: U7, v: Byte): (r: Line)
    ensures Cell(r, i) == v
    ensures forall j :: 0 <= j < LineWidth && j != i && (i <= LastColumn || j != LastColumn) ==>
      r[j] == line[j]
  {
    if i < LineWidth then line[i := v] else line[LineWidth - 1 := v]
  }

  /** Reading `oled_init_seq[a]`; an address past the end selects the last entry. */
  function TableByte(table: Table, a: U12): (b: Byte)
    ensures a < |table| ==> b == table[a]
    ensures a >= |table| ==> b == table[LastAddr(table)]
  {
    if a < |table| then table[a] else table[|table| - 1]
  }

  /** The address whose arrival switches the bus to data: `(M - 1) - (K - 1)`. */
  function DataAddr(table: Table): U12
  {
    (|table| - 1) - (TrailingData - 1)
  }

  /** The last table address, `M - 1`. */
  function LastAddr(table: Table): U12
  {
    |table| - 1
  }

  /** The column after `c` on a 96-pixel line. */
  function NextColumn(c: U7): (r: U7)
    ensures c < LastColumn ==> r == c + 1
    ensures c == LastColumn ==> r == 0
  {
    if c == LastColumn then 0 else Inc7(c)
  }

  /** Pixel capture: follows the incoming video position and stores one line. */
  function CaptureStep(c: Capture, i: Inputs): (d: Capture)
    // the whole block is gated by the pixel enable
    ensures !i.pixelEna ==> d == c
    // vertical sync has priority and resets only the capture row
    ensures i.pixelEna && i.vsync ==> d == c.(yIn := 0)
    // horizontal sync resets only the capture column
    ensures i.pixelEna && !i.vsync && i.hsync ==> d == c.(xIn := 0)
    // a blanked tick changes nothing
    ensures i.pixelEna && !i.vsync && !i.hsync && i.blank ==> d == c
    // a visible pixel is stored at the capture column, and the column moves on,
    // wrapping from 95 to 0 into the next row (mod 64)
    ensures i.pixelEna && !i.vsync && !i.hsync && !i.blank && c.xIn < LineWidth ==>
      && d.scanline == c.scanline[c.xIn := i.pixel]
      && d.xIn == (c.xIn + 1) % LineWidth
      && d.yIn == (if c.xIn == LastColumn then (c.yIn + 1) % 64 else c.yIn)
    // the capture column never leaves the line
    ensures c.xIn <= LastColumn ==> d.xIn <= LastColumn
  {
    if !i.pixelEna then c
    else if i.vsync then c.(yIn := 0)
    else if i.hsync then c.(xIn := 0)
    else if !i.blank then
      Capture(NextColumn(c.xIn),
              if c.xIn == LastColumn then Inc6(c.yIn) else c.yIn,
              WriteCell(c.scanline, c.xIn, i.pixel))
    else c
  }

  /** The reset counter `R_reset_cnt`: counts while it is not `0b10`. */
  function ResetStep(r: U2): (n: U2)
    // 0 -> 1 -> 2, then 2 forever
    ensures r <= 2 ==> n == (if r == 2 then 2 else r + 1)
    ensures r == 2 <==> n == r
  {
    if r != 2 then Inc2(r) else r
  }

  /** The byte a load would put into the shift register: the init table entry at the
      current byte address while `dc` is clear, the scanline cell at column `x` once
      it is set. */
  function LoadedByte(table: Table, s: Serial, line: Line): (b: Byte)
    ensures !s.dc && ByteAddr(s.initCnt) < |table| ==> b == table[ByteAddr(s.initCnt)]
    ensures s.dc && s.x <= LastColumn ==> b == line[s.x]
  {
    if !s.dc then TableByte(table, ByteAddr(s.initCnt)) else Cell(line, s.x)
  }

  /** The byte loader and bit serializer, before the data/command latch and the
      address clamp are applied. `dc` is not written here. */
  function SerialStep(table: Table, resetCnt: U2, s: Serial, c: Capture, i: Inputs): (r: Serial)
    ensures r.dc == s.dc
    // while the panel is held in reset nothing moves
    ensures resetCnt != 2 ==> r == s
    // byte loading: at bit index 0 the counter advances and a byte is loaded
    // exactly when the capture row equals the panel row; the clock enable is ignored
    ensures resetCnt == 2 && ByteAddr(s.initCnt) < |table| && Nibble(s.initCnt) == 0 ==>
      && (c.yIn != s.y ==> r == s)
      && (c.yIn == s.y ==>
            && r.initCnt == s.initCnt + 1
            && r.spiData == LoadedByte(table, s, c.scanline)
            && (!s.dc ==> r.x == s.x && r.y == s.y)
            && (s.dc && s.x < LastColumn ==> r.x == s.x + 1 && r.y == s.y)
            && (s.dc && s.x == LastColumn ==> r.x == 0 && r.y == (s.y + 1) % 64))
    // bit shifting: between loads the counter advances only on an enabled tick,
    // and the register shifts up (0 entering bit 0) on even counts only
    ensures resetCnt == 2 && ByteAddr(s.initCnt) < |table| && Nibble(s.initCnt) != 0 ==>
      && (!i.clkEn ==> r == s)
      && (i.clkEn ==>
            && r.initCnt == Inc16(s.initCnt)
            && r.spiData == (if Lsb(s.initCnt) then s.spiData else ShiftUp(s.spiData))
            && r.x == s.x && r.y == s.y)
    // row gating: the panel cursor moves only when a scanline byte is taken,
    // and that happens only while the capture row equals the panel row
    ensures (r.x != s.x || r.y != s.y) ==>
      resetCnt == 2 && Nibble(s.initCnt) == 0 && s.dc && c.yIn == s.y
  {
    if resetCnt != 2 then
      s
    else if ByteAddr(s.initCnt) == |table| then
      s
    else if Nibble(s.initCnt) == 0 then
      if c.yIn == s.y then
        if !s.dc then
          s.(initCnt := Inc16(s.initCnt), spiData := LoadedByte(table, s, c.scanline))
        else
          s.(initCnt := Inc16(s.initCnt), spiData := LoadedByte(table, s, c.scanline),
             x := NextColumn(s.x),
             y := if s.x == LastColumn then Inc6(s.y) else s.y)
      else
        s
    else if i.clkEn then
      s.(initCnt := Inc16(s.initCnt),
         spiData := if !Lsb(s.initCnt) then ShiftUp(s.spiData) else s.spiData)
    else
      s
  }

  /** The last two assignments of the tick, which override earlier ones: `dc` is set
      when the previous address is the data address, and bits 15..4 of the counter are
      pulled back to the data address when the previous address was the last one. */
  function Latch(table: Table, prev: Serial, next: Serial): (r: Serial)
    // the data/command latch is monotone, and rises only from the data address
    ensures prev.dc ==> r.dc
    ensures r.dc <==> prev.dc || ByteAddr(prev.initCnt) == DataAddr(table)
    // the byte address never passes M - 1, and once there it is pinned
    ensures ByteAddr(prev.initCnt) == LastAddr(table) ==> ByteAddr(r.initCnt) == LastAddr(table)
    ensures ByteAddr(prev.initCnt) != LastAddr(table) ==> r.initCnt == next.initCnt
    // the clamp rewrites the address only: bits 3..0 keep cycling
    ensures Nibble(r.initCnt) == Nibble(next.initCnt) && Lsb(r.initCnt) == Lsb(next.initCnt)
    // a clamp that finds the address already in place writes back the same value
    ensures ByteAddr(next.initCnt) == ByteAddr(prev.initCnt) ==> r.initCnt == next.initCnt
    ensures r.spiData == next.spiData && r.x == next.x && r.y == next.y
  {
    next.(initCnt := if ByteAddr(prev.initCnt) == LastAddr(table)
                     then SetByteAddr(next.initCnt, DataAddr(table))
                     else next.initCnt,
          dc := if ByteAddr(prev.initCnt) == DataAddr(table) then true else prev.dc)
  }

  /** One clock tick of the whole driver. */
  function Step(table: Table, s: State, i: Inputs): State
  {
    State(ResetStep(s.resetCnt),
          Latch(table, s.serial, SerialStep(table, s.resetCnt, s.serial, s.capture, i)),
          CaptureStep(s.capture, i))
  }

  /** The bus lines, a combinational function of the registers. */
  function Outputs(s: State): (p: Pins)
    // chip select is always the inverse of reset, both taken from bit 0 of the counter
    ensures p.csn == !p.resn
    ensures s.resetCnt <= 2 ==> (!p.resn <==> s.resetCnt == 1)
    // once released, reset stays deasserted and chip select active
    ensures s.resetCnt == 2 ==> p.resn && !p.csn
    ensures p.dc == s.serial.dc
    // the serial clock is high on even counts, the data line shows the top bit
    ensures p.clk == !Lsb(s.serial.initCnt)
    ensures p.mosi == Bit(s.serial.spiData, 7)
  {
    Pins(resn := !Lsb(s.resetCnt),
         csn := Lsb(s.resetCnt),
         clk := !Lsb(s.serial.initCnt),
         dc := s.serial.dc,
         mosi := Msb(s.serial.spiData))
  }

  /** The state after feeding a finite sequence of inputs, one per tick. */
  function Run(table: Table, s: State, ins: seq<Inputs>): State
    decreases |ins|
  {
    if |ins| == 0 then s
    else Step(table, Run(table, s, ins[..|ins| - 1]), ins[|ins| - 1])
  }

  /** The capture registers after a sequence of inputs, on their own. */
  function CaptureRun(c: Capture, ins: seq<Inputs>): Capture
    decreases |ins|
  {
    if |ins| == 0 then c
    else CaptureStep(CaptureRun(c, ins[..|ins| - 1]), ins[|ins| - 1])
  }

  /** The registers that hold in every state reachable from `Reset()`. */
  predicate Inv(table: Table, s: State)
  {
    && s.resetCnt <= 2
    && ByteAddr(s.serial.initCnt) < |table|
    && s.serial.x <= LastColumn
    && s.capture.xIn <= LastColumn
    && (s.serial.dc ==> ByteAddr(s.serial.initCnt) == LastAddr(table))
    && (!s.serial.dc ==> s.serial.x == 1 && s.serial.y == 1)
    && (s.resetCnt != 2 ==> s.serial.initCnt == 0 && s.serial.spiData == 0)
  }

  /** While the panel is held in reset the serializer is frozen: the counter, shift
      register and panel cursor keep their values, because the address clamp at most
      writes back the value already there. Only `dc` may change. */
  lemma FrozenDuringReset(table: Table, s: State, i: Inputs)
    requires s.resetCnt != 2
    ensures var t := Step(table, s, i);
      t.serial == s.serial.(dc := t.serial.dc)
  {
  }

  /** One tick preserves `Inv`. */
  lemma StepInv(table: Table, s: State, i: Inputs)
    requires Inv(table, s)
    ensures Inv(table, Step(table, s, i))
  {
  }
}
