/** The driver's free-running evaluation loop, bounded to a finite input trace. */
module Clocking {
  import opened OledVga

  /** Clocks the driver once per input, recording the bus lines after every tick.
      The final state and every recorded sample agree with the functional `Run`. */
  method Simulate(table: Table, s: State, ins: seq<Inputs>) returns (t: State, bus: seq<Pins>)
    ensures t == Run(table, s, ins)
    ensures |bus| == |ins|
    ensures forall j :: 0 <= j < |ins| ==> bus[j] == Outputs(Run(table, s, ins[..j + 1]))
  {
    t := s;
    bus := [];
    var k := 0;
    while k < |ins|
      invariant 0 <= k <= |ins|
      invariant t == Run(table, s, ins[..k])
      invariant |bus| == k
      invariant forall j :: 0 <= j < k ==> bus[j] == Outputs(Run(table, s, ins[..j + 1]))
    {
      assert ins[..k + 1][..k] == ins[..k];
      t := Step(table, t, ins[k]);
      bus := bus + [Outputs(t)];
      k := k + 1;
    }
    assert ins[..|ins|] == ins;
  }
}
