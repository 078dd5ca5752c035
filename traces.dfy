/**
 * The floor traces of the previous room's movement: one flat marker per
 * recorded position, lying just above the floor.
 */
module Traces {
  import opened Wrappers
  import opened Geometry
  import opened MoveLogs

  /** The height every marker is placed at, just above the floor. */
  const TraceHeight: real := 0.02

  /** A marker's orientation: rotated by -pi/2 about x, lying flat on the floor. */
  datatype Orientation = FlatOnFloor

  /** What `setMatrixAt` writes for one instance: its position and orientation. */
  datatype Placement = Placement(position: Vec3, orientation: Orientation)

  /** A coordinate as JavaScript computes it: a number, or NaN. */
  datatype Coord = Num(value: real) | NaN

  /**
   * The x and z that Traces.jsx line 18 writes for one log as written:
   * `pos[0]` and `pos[2]` index a `{pos, time}` record, which has no such
   * properties, so both are `undefined`. `Vector3.set(x, y, z)` keeps the
   * current z when `z` is `undefined`, so z stays at the fresh temporary
   * object's 0, while x becomes NaN once the matrix is written out.
   */
  function TraceXZAsWritten(log: MoveLog): (xz: (Coord, Coord))
    ensures xz.0 == NaN && xz.0 != Num(log.pos.x)
    ensures xz.1 == Num(0.0)
  {
    (NaN, Num(0.0))
  }

  /**
   * The placement for one recorded sample, reading its position as the
   * ghost replay does: x and z of `log.pos`, at `TraceHeight`, lying flat.
   */
  function TraceAt(log: MoveLog): (r: Placement)
    ensures r.position.x == log.pos.x && r.position.z == log.pos.z
    ensures r.position.y == TraceHeight && r.orientation == FlatOnFloor
  {
    Placement(Vec3(log.pos.x, TraceHeight, log.pos.z), FlatOnFloor)
  }

  /**
   * A sample at [3, 1, 4]: as written its marker gets NaN for x and 0 for z;
   * the corrected placement keeps 3 and 4 and moves y to `TraceHeight`.
   */
  lemma MarkerPositionLost()
    ensures var log := MoveLog(Vec3(3.0, 1.0, 4.0), 0.0);
      TraceXZAsWritten(log) == (NaN, Num(0.0)) &&
      TraceAt(log).position == Vec3(3.0, TraceHeight, 4.0)
  {
  }

  /**
   * The placements the layout effect writes: slot `i` from log `i`, keeping
   * its x and z and putting it at `TraceHeight`, lying flat.
   */
  function TracePlacements(logs: seq<MoveLog>): (r: seq<Placement>)
    ensures |r| == |logs|
    ensures forall i :: 0 <= i < |r| ==>
      r[i].position.x == logs[i].pos.x && r[i].position.y == TraceHeight &&
      r[i].position.z == logs[i].pos.z && r[i].orientation == FlatOnFloor
  {
    seq(|logs|, i requires 0 <= i < |logs| => TraceAt(logs[i]))
  }

  /**
   * What the component renders: nothing for missing or empty logs,
   * otherwise an instanced mesh with one instance slot per log.
   */
  function InstanceCount(logs: Option<seq<MoveLog>>): (r: Option<nat>)
    ensures r.None? <==> logs.None? || |logs.value| == 0
    ensures r.Some? ==> r.value == |logs.value| && r.value > 0
  {
    if logs.None? || |logs.value| == 0 then None else Some(|logs.value|)
  }

  /** The instanced mesh: one placement per instance slot, and the flag asking for an upload. */
  class TraceMesh {
    var instances: array<Placement>
    var needsUpdate: bool

    /** An instanced mesh with `count` slots. */
    constructor (count: nat)
      ensures fresh(instances) && instances.Length == count && !needsUpdate
    {
      instances := new Placement[count];
      needsUpdate := false;
    }

    /**
     * The `useLayoutEffect` body: with no logs nothing is written; otherwise
     * every slot `i` receives the placement for log `i` and an upload is
     * requested.
     */
    method Layout(logs: seq<MoveLog>)
      requires instances.Length == |logs|
      modifies instances, this`needsUpdate
      ensures instances == old(instances)
      ensures |logs| == 0 ==> needsUpdate == old(needsUpdate)
      ensures |logs| > 0 ==> instances[..] == TracePlacements(logs) && needsUpdate
    {
      if |logs| == 0 {
        return;
      }
      var index := 0;
      while index < |logs|
        invariant 0 <= index <= |logs|
        invariant forall j :: 0 <= j < index ==> instances[j] == TraceAt(logs[j])
      {
        instances[index] := TraceAt(logs[index]);
        index := index + 1;
      }
      needsUpdate := true;
    }
  }

  /**
   * Rendering followed by the layout effect: for non-empty logs a fresh
   * mesh with exactly one slot per log, every slot written from its log.
   */
  method Mount(logs: seq<MoveLog>) returns (mesh: TraceMesh?)
    ensures (mesh == null) <==> InstanceCount(Some(logs)).None?
    ensures mesh != null ==> fresh(mesh) && fresh(mesh.instances)
    ensures mesh != null ==> Some(mesh.instances.Length) == InstanceCount(Some(logs))
    ensures mesh != null ==> mesh.instances[..] == TracePlacements(logs) && mesh.needsUpdate
  {
    match InstanceCount(Some(logs))
    case None =>
      mesh := null;
    case Some(count) =>
      mesh := new TraceMesh(count);
      mesh.Layout(logs);
  }
}
