# OLED_VGA serial display driver — Dafny model

This project models `OLED_VGA`, an nmigen circuit that drives a small OLED display
controller over a 4-wire serial bus (reset, chip select, clock, data/command, data).
It first replays a fixed initialisation table, one command byte at a time, and
then streams pixels. Those pixels are captured from an incoming VGA-style video
signal into a 96-pixel scanline buffer.

The circuit is synchronous. Every register's next value depends only on the previous
values of the registers and on six inputs: `i_clk_en`, `i_clk_pixel_ena`, `i_hsync`,
`i_vsync`, `i_blank` and `i_pixel`. The model is therefore one pure function
`OledVga.Step(table, state, inputs)`. When one tick assigns the same register twice,
the later assignment wins. This includes the partial write to bits 15..4 of
`R_init_cnt`, which overrides the `+ 1` made earlier in the same tick.

- `bits.dfy` (module `Bits`): register widths with explicit wrap-around, the bit
  slices of the 16-bit replay counter, and the shift register's left shift.
- `oled_vga.dfy` (module `OledVga`): the registers and the tick. The registers are
  in three groups: the reset counter, the serializer and the capture path.
  `CaptureStep` is the pixel capture, `ResetStep` the reset counter, and `SerialStep`
  the byte loader and bit serializer. `Latch` holds the last two assignments (the
  data/command flag and the address clamp). `Outputs` gives the bus lines, and
  `Inv` is the invariant that holds for every reachable state.
- `traces.dfy` (module `Traces`): properties of runs, proved by induction over
  input traces.
- `clocking.dfy` (module `Clocking`): the free-running clock loop, bounded to a
  finite input trace.

Parameters:
- The init table is a parameter `table` of length M, with 1 <= M <= 4095.
- The count of trailing data entries is the constant K = 1.
- The scanline width is 96.

Notes on behaviour as written:
- Reset and chip select both come from bit 0 of the 2-bit reset counter. The reset
  line is low only in the one state where the counter is 1. Chip select is
  active (low) at power-up, inactive for that one state, then active for good. So
  the reset line is held low for a single tick only.
- The capture row starts at 0 and the panel row at 1. A byte is loaded only while
  the two rows are equal, so even the first init command waits until the capture
  path reaches row 1.
- `dc` is a register, and the latch reads the address, not whether a byte was
  loaded. Whether the last table entry or a scanline sample goes out depends on the
  rows agreeing on the tick the address reaches M - 1:
  - if they agree, that tick loads the table's last entry while `dc` is still clear,
    and the byte is shifted out with `dc` already high (`Traces.LastEntrySentAsData`);
  - if they disagree (a vsync on that tick is enough), nothing loads, `dc` rises
    anyway, and every later load takes a scanline cell (`Traces.LastEntrySkipped`);
  - with a one-entry table (M = 1), `dc` is set after the very first tick, while the
    panel is still in reset, so the entry is never sent (`Traces.SingleEntryNeverSent`).
- The circuit's comment calls the shift a shift "to the right". `Cat(0, spi_data[:-1])`
  is a left shift that feeds 0 into bit 0, so the byte goes out most significant
  bit first.
- An nmigen `Array` read or written with an index past its end uses its last
  element. The model does the same (`OledVga.Cell`, `OledVga.WriteCell`,
`OledVga.TableByte`), and
  `Traces.ReachableInv` proves that no reachable state uses such an index.

## Model

| member | source | states |
|---|---|---|
| Bits.Nibble | oled/oled_vga.py:31-34 | bits 3..0 of the replay counter are below 16, and their parity is the clock-phase bit 0 |
| Bits.Inc16 | oled/oled_vga.py:67-81 | the 16-bit `+ 1` counts bits 3..0 up inside a byte; when bits 3..0 are 15 it carries into the byte address and bits 3..0 return to 0; bit 0 always toggles |
| Bits.SetByteAddr | oled/oled_vga.py:88-89 | the partial write `init_cnt[4:] := a` sets the byte address to `a` and keeps bits 3..0; writing back the address already there changes nothing |
| Bits.ShiftUp | oled/oled_vga.py:82-83 | `Cat(0, spi_data[:-1])` puts 0 in bit 0 and moves every other bit up one place |
| Bits.ShiftNBit | oled/oled_vga.py:82-83 | after k shifts, bit i holds original bit i - k, and zero when i < k |
| Bits.MsbAfterShifts | oled/oled_vga.py:83-96 | after k < 8 shifts the top bit, which drives the data line, is bit 7 - k of the loaded byte |
| OledVga.Reset | oled/oled_vga.py:29-41 | no contract of its own: the power-up values, whose consequences `Traces.ResetSequence`, `Traces.ReachableInv` and `Traces.WaitForFirstRow` state |
| OledVga.Cell | oled/oled_vga.py:72 | reading `R_scanline[x]` gives cell `x` for a column inside the line and the last cell for one past it, as an nmigen `Array` does |
| OledVga.WriteCell | oled/oled_vga.py:52 | writing `R_scanline[x_in]` makes the addressed cell read back the pixel and keeps every other cell |
| OledVga.TableByte | oled/oled_vga.py:70 | reading `oled_init_seq[a]` gives entry `a` for an address below M and the last entry for one past it |
| OledVga.LoadedByte | oled/oled_vga.py:68-72 | the byte a load takes is table entry `init_cnt[15:4]` while `dc` is clear and scanline cell `x` once it is set |
| OledVga.NextColumn | oled/oled_vga.py:54-59 | a column advances by one and wraps from 95 to 0 |
| OledVga.CaptureStep | oled/oled_vga.py:44-59 | capture is gated by the pixel enable; vsync has priority and resets only the capture row; hsync resets only the capture column; a blanked tick changes nothing; a visible tick writes only cell `x_in`, moves the column on (95 wraps to 0) and then advances the row mod 64; the column stays at most 95 |
| OledVga.ResetStep | oled/oled_vga.py:61-62 | the reset counter goes 0 -> 1 -> 2 and then stays at 2; it changes on every tick until it is 2 |
| OledVga.SerialStep | oled/oled_vga.py:61-83 | frozen while the counter is not 2. When bits 3..0 are 0, it advances and loads a byte iff capture row = panel row, whatever `i_clk_en` is. The byte is the table entry while `dc` is clear; once set, it is scanline cell `x`, and x, y advance with wrap. Otherwise it advances only on an enabled tick and shifts on even counts only. The panel cursor moves only on a scanline load with the rows equal |
| OledVga.Latch | oled/oled_vga.py:85-89 | `dc` never falls, and it is set after a tick iff it was set or the address was M - K; once the address is M - 1 it stays there; the clamp changes only bits 15..4, and writes back the same value when the address has not moved |
| OledVga.Outputs | oled/oled_vga.py:91-97 | chip select is the inverse of reset; reset is low iff the counter is 1; once the counter is 2, reset is high and chip select low; the clock is the inverse of counter bit 0; the data line is the shift register's top bit |
| OledVga.Step | oled/oled_vga.py:44-89 | no contract of its own: one whole tick, with the later assignment winning; `OledVga.StepInv`, `OledVga.FrozenDuringReset` and the `Traces` lemmas state its behaviour |
| OledVga.FrozenDuringReset | oled/oled_vga.py:61-89 | while the reset counter is not 2, a tick leaves the replay counter, shift register and panel cursor unchanged; only `dc` may change |
| OledVga.StepInv | oled/oled_vga.py:29-89 | one tick preserves the reachable-state invariant: counter <= 2, address < M, both columns <= 95, `dc` only at address M - 1, panel cursor at (1, 1) until `dc`, serializer at rest before release |
| Traces.ResetSequence | oled/oled_vga.py:61-93 | from power-up, after n ticks the counter is min(n, 2); reset is low, and chip select inactive, exactly after the first tick |
| Traces.ReachableInv | oled/oled_vga.py:29-89 | every state reachable from power-up satisfies the invariant: the counter never reaches 3, the guard `init_cnt[15:4] != M` never fails, and `x` and `x_in` stay inside the 96-entry line |
| Traces.DcLatch | oled/oled_vga.py:85-87 | over any run `dc` never falls back, and if it rises, some earlier state of the run was at the data address M - K |
| Traces.DcSetAfter | oled/oled_vga.py:85-87 | over any run, once a state is at address M - K, every later state has `dc` set |
| Traces.AddrPinned | oled/oled_vga.py:63-89 | over any run the byte address never reaches M, and once it is M - 1 it stays M - 1 |
| Traces.LoadStep | oled/oled_vga.py:65-72 | a load tick leaves bits 3..0 at 1, keeps the address below M and puts the selected byte in the shift register |
| Traces.ShiftStep | oled/oled_vga.py:79-83 | an enabled tick between loads advances bits 3..0 by one and shifts on even counts only |
| Traces.SendProgress | oled/oled_vga.py:63-83 | j enabled ticks after a load, the shift register holds the loaded byte shifted j / 2 places and bits 3..0 read 1 + j mod 16 |
| Traces.BitOnEdge | oled/oled_vga.py:79-96 | with `i_clk_en` high on the 15 ticks after a load, at the k-th rising clock edge after it, and during the low phase before that edge, the data line carries bit 7 - k of the loaded byte |
| Traces.ByteMsbFirst | oled/oled_vga.py:63-96 | the eight rising clock edges after a load present the loaded byte's bits from most to least significant, and the next load is due 16 ticks after the load |
| Traces.LastEntrySentAsData | oled/oled_vga.py:63-89 | a load on the very tick the address reaches M - 1 (rows agreeing, `dc` still clear), at full serial rate, sends the table's last entry with `dc` high on all eight rising edges |
| Traces.LastEntrySkipped | oled/oled_vga.py:65-89 | if the rows disagree on the tick the address reaches M - 1, nothing loads but `dc` rises anyway, and from then on every load takes scanline cell `x`: the last table entry is skipped |
| Traces.SingleEntryNeverSent | oled/oled_vga.py:61-89 | with a one-entry table, `dc` is set from the first tick on, while the panel is still in reset, so every state in which the serializer is released loads from the scanline |
| Traces.CaptureIndependent | oled/oled_vga.py:44-59 | the capture registers of a full run are those of a capture-only run: capture reads nothing of the serializer |
| Traces.LineCapture | oled/oled_vga.py:44-59 | from column 0, n <= 96 visible, sync-free ticks store the n pixels in cells 0..n-1 and leave the rest; the column ends at n mod 96, and after exactly 96 the row has advanced by one |
| Traces.NoLoadStep | oled/oled_vga.py:63-72 | with the capture row away from the panel row, a tick leaves a serializer at rest unchanged |
| Traces.WaitForFirstRow | oled/oled_vga.py:37-72 | from power-up, while the capture row has not been 1, no byte is loaded and the panel cursor stays at (1, 1) |
| Clocking.Simulate | oled/oled_vga.py:22-99 | clocking the circuit once per input ends in the state the functional run gives, and records the bus lines after every tick |

## Left out

- oled/top_oled_vga.py is board wiring and is not modelled: pin resources, WiFi/LED/button mirroring, and the command-line build entry point.
- The VGA timing generator is not part of this model. Its `hsync`, `vsync`, `blank` and pixel outputs are free inputs here.
- The 64-bit free-running counter whose bit 0 drives `i_clk_en` on the board is not modelled; `i_clk_en` is a free input.
- The pixel width is fixed at 8 bits. The `color_bits` parameter and the RGB bit slicing on the board are left out.
- The contents of `oled_init_seq` are not part of this model. The table is a parameter. Lengths of 4096 or more, which would no longer fit the 12-bit address compare, are excluded.
- The reset values of the output `Signal`s are not modelled, because the combinational assignments override them.
- Electrical and timing concerns (metastability, clock-domain timing) are out of scope.
- Traces.ByteMsbFirst: stated for a byte sent at full serial rate (`i_clk_en` high on the 15 ticks after the load). Ticks with the enable low stall the serializer without changing it; `OledVga.SerialStep` states that per tick, but no trace lemma interleaves stalls.
- Traces.BitOnEdge: stated at full serial rate (`i_clk_en` high on the 15 ticks after the load), for the same reason as `Traces.ByteMsbFirst`.
- Traces.LastEntrySentAsData: stated at full serial rate, and only for a load on the tick the address reaches M - 1; the other outcomes are `Traces.LastEntrySkipped` and `Traces.SingleEntryNeverSent`.
- Traces.LineCapture: stated for an uninterrupted visible line from column 0. The effect of sync pulses and blanking in between is stated per tick by `OledVga.CaptureStep`.
