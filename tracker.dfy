/**
 * The standalone tracker: `send_to_arduino` and the `__main__` loop that
 * reads the satellite's position, passes it through the horizon gate and
 * writes one rotator command per visible reading until a write fails.
 */
module Tracker {
  import opened Wrappers
  import opened Horizon
  import opened Rounding
  import opened RotatorCommand

  /** What the serial port does with one write: the bytes go out, or it raises. */
  datatype WriteOutcome = Written | WriteFailed

  /**
   * One pass of the main loop as the outside world presents it: the angles
   * the astronomy library computes, and what the port does if it is written
   * to during this pass.
   */
  datatype Step = Step(reading: Reading, port: WriteOutcome)

  /** `send_to_arduino`: the text handed to the port, and the returned flag. */
  datatype SendResult = SendResult(wire: string, ok: bool)

  function SendToArduino(azimuth: real, elevation: real, port: WriteOutcome): (r: SendResult)
    ensures r.ok <==> port == Written
    ensures Parse(r.wire) == Some(Command(RoundHalfEven(azimuth), RoundHalfEven(elevation)))
    ensures r.wire[..3] == "<AZ" && r.wire[|r.wire| - 2..] == ">\n"
  {
    SendResult(FormatCommand(azimuth, elevation), port == Written)
  }

  /** The command `send_to_arduino` writes for a reading's angles. */
  function CommandFor(r: Reading): string
  {
    FormatCommand(r.azimuth, r.elevation)
  }

  /** A pass that ends the loop: the gate lets the reading through and the write fails. */
  predicate Fails(s: Step)
  {
    !BelowHorizon(s.reading) && s.port == WriteFailed
  }

  /** The index of the pass that ends the loop, or `|steps|` when none does. */
  function FirstFailure(steps: seq<Step>): (i: nat)
    ensures i <= |steps|
    ensures forall k :: 0 <= k < i ==> !Fails(steps[k])
    ensures i < |steps| ==> Fails(steps[i])
  {
    if steps == [] then 0
    else if Fails(steps[0]) then 0
    else 1 + FirstFailure(steps[1..])
  }

  /** What one pass puts on the wire if its write succeeds: nothing below the horizon. */
  function PassCommands(s: Step): (cmds: seq<string>)
    ensures |cmds| == if BelowHorizon(s.reading) then 0 else 1
  {
    match SatellitePosition(s.reading)
    case None => []
    case Some(_) => [CommandFor(s.reading)]
  }

  /** The commands of the passes whose reading clears the gate, in order. */
  function VisibleCommands(steps: seq<Step>): (cmds: seq<string>)
    ensures |cmds| <= |steps|
  {
    if steps == [] then []
    else VisibleCommands(steps[..|steps| - 1]) + PassCommands(steps[|steps| - 1])
  }

  /** The indices of the passes whose reading clears the gate, in increasing order. */
  function VisibleIndices(steps: seq<Step>): (ix: seq<nat>)
    ensures forall j :: 0 <= j < |ix| ==> ix[j] < |steps| && !BelowHorizon(steps[ix[j]].reading)
    ensures forall j, j' :: 0 <= j < j' < |ix| ==> ix[j] < ix[j']
    ensures forall k :: 0 <= k < |steps| && !BelowHorizon(steps[k].reading) ==> k in ix
  {
    if steps == [] then []
    else
      var n := |steps| - 1;
      var front := steps[..n];
      assert forall k :: 0 <= k < n ==> steps[k] == front[k];
      VisibleIndices(front) + if BelowHorizon(steps[n].reading) then [] else [n]
  }

  /**
   * The tracking loop over a finite run of passes. `sent` holds the
   * commands whose write succeeded; `stopped` says that a failed write
   * ended the loop.
   */
  method Track(steps: seq<Step>) returns (sent: seq<string>, stopped: bool)
    ensures stopped <==> FirstFailure(steps) < |steps|
    ensures sent == VisibleCommands(steps[..FirstFailure(steps)])
  {
    sent, stopped := [], false;
    var i := 0;
    while i < |steps|
      invariant 0 <= i <= |steps|
      invariant i <= FirstFailure(steps)
      invariant sent == VisibleCommands(steps[..i])
    {
      assert steps[..i + 1][..i] == steps[..i];
      assert VisibleCommands(steps[..i + 1]) == sent + PassCommands(steps[i]);
      var position := SatellitePosition(steps[i].reading);
      if position.Some? {
        var (az, el) := position.value;
        var result := SendToArduino(az, el, steps[i].port);
        if result.ok {
          sent := sent + [result.wire];
        } else {
          stopped := true;
          break;
        }
      }
      assert !Fails(steps[i]);
      assert FirstFailure(steps) != i;
      i := i + 1;
    }
    assert !stopped ==> steps[..i] == steps;
  }

  lemma {:induction false} VisibleCommandsAppend(a: seq<Step>, b: seq<Step>)
    ensures VisibleCommands(a + b) == VisibleCommands(a) + VisibleCommands(b)
    decreases |b|
  {
    if b != [] {
      var n := |b| - 1;
      assert (a + b)[..|a + b| - 1] == a + b[..n];
      assert (a + b)[|a + b| - 1] == b[n];
      VisibleCommandsAppend(a, b[..n]);
    } else {
      assert a + b == a;
    }
  }

  /**
   * The commands are exactly those of the visible passes, one each, in the
   * order of the passes: the j-th command is the one built from the j-th
   * visible reading, so no command is ever built from a reading below the
   * horizon.
   */
  lemma {:induction false} SentInOrder(steps: seq<Step>)
    ensures |VisibleCommands(steps)| == |VisibleIndices(steps)|
    ensures forall j :: 0 <= j < |VisibleIndices(steps)| ==>
      VisibleCommands(steps)[j] == CommandFor(steps[VisibleIndices(steps)[j]].reading)
    decreases |steps|
  {
    if steps != [] {
      var n := |steps| - 1;
      var front := steps[..n];
      SentInOrder(front);
      var cmds, ix := VisibleCommands(steps), VisibleIndices(steps);
      var frontCmds, frontIx := VisibleCommands(front), VisibleIndices(front);
      assert cmds == frontCmds + PassCommands(steps[n]);
      assert ix == frontIx + if BelowHorizon(steps[n].reading) then [] else [n];
      forall j | 0 <= j < |ix|
        ensures cmds[j] == CommandFor(steps[ix[j]].reading)
      {
        if j < |frontIx| {
          assert ix[j] == frontIx[j] && cmds[j] == frontCmds[j];
          assert steps[frontIx[j]] == front[frontIx[j]];
        } else {
          assert ix[j] == n;
        }
      }
    }
  }

  /** No command carries a negative elevation field. */
  lemma {:induction false} SentElevationNonNegative(steps: seq<Step>)
    ensures forall c :: c in VisibleCommands(steps) ==> Parse(c).Some? && Parse(c).value.el >= 0
    decreases |steps|
  {
    if steps != [] {
      var n := |steps| - 1;
      SentElevationNonNegative(steps[..n]);
      var r := steps[n].reading;
      if !BelowHorizon(r) {
        FormatNonNegativeElevation(r.azimuth, r.elevation);
      }
    }
  }

  /** A pass below the horizon adds no command and does not end the loop. */
  lemma BelowHorizonIsSkipped(steps: seq<Step>, k: nat)
    requires k < |steps| && BelowHorizon(steps[k].reading)
    ensures VisibleCommands(steps[..k + 1]) == VisibleCommands(steps[..k])
    ensures FirstFailure(steps) != k
  {
    assert steps[..k + 1][..k] == steps[..k];
    assert !Fails(steps[k]);
  }

  /** Once a write has failed, whatever the later passes hold changes nothing. */
  lemma {:induction false} FailureIgnoresLaterPasses(steps: seq<Step>, later: seq<Step>)
    requires FirstFailure(steps) < |steps|
    ensures FirstFailure(steps + later) == FirstFailure(steps)
    ensures (steps + later)[..FirstFailure(steps)] == steps[..FirstFailure(steps)]
  {
    var f := FirstFailure(steps);
    assert forall k :: 0 <= k <= f ==> (steps + later)[k] == steps[k];
  }
}
