/**
 * The ghost replay of the previous room's movement: each frame the ghost is
 * placed on the recorded trajectory at the time elapsed since the room was
 * entered, or hidden once the recording has run out.
 */
module Phantom {
  import opened Wrappers
  import opened Geometry
  import opened MoveLogs

  /** What one frame does to the ghost mesh: nothing, or set its position and visibility. */
  datatype FrameUpdate = Skip | Place(pos: Vec3, visible: bool)

  /** The replay clock: milliseconds since the current room was entered. */
  function PlaybackTime(now: real, roomStartTime: real): (t: real)
    ensures roomStartTime + t == now
  {
    now - roomStartTime
  }

  /** True when some recorded sample lies strictly after time `t`: the replay is not over. */
  ghost predicate HasLaterLog(logs: seq<MoveLog>, t: real)
  {
    exists i :: 0 <= i < |logs| && logs[i].time > t
  }

  /** Logs whose times never decrease. */
  ghost predicate Sorted(logs: seq<MoveLog>)
  {
    forall i, j :: 0 <= i <= j < |logs| ==> logs[i].time <= logs[j].time
  }

  /**
   * `logs.findIndex(log => log.time > t)`: the first index whose time is
   * strictly after `t`, or None when there is none. No ordering of the
   * logs is assumed.
   */
  function FindLater(logs: seq<MoveLog>, t: real): (r: Option<nat>)
    ensures r.Some? ==> r.value < |logs| && logs[r.value].time > t
    ensures r.Some? ==> forall j :: 0 <= j < r.value ==> logs[j].time <= t
    ensures r.None? ==> forall j :: 0 <= j < |logs| ==> logs[j].time <= t
  {
    if |logs| == 0 then None
    else if logs[0].time > t then Some(0)
    else match FindLater(logs[1..], t)
      case None => None
      case Some(k) => Some(k + 1)
  }

  /**
   * The same search as a loop, returning -1 when no sample is later than
   * `t`, as `findIndex` does.
   */
  method FindLaterIndex(logs: seq<MoveLog>, t: real) returns (k: int)
    ensures -1 <= k < |logs|
    ensures k == -1 <==> FindLater(logs, t).None?
    ensures k >= 0 ==> FindLater(logs, t) == Some(k)
  {
    var i := 0;
    while i < |logs|
      invariant 0 <= i <= |logs|
      invariant forall j :: 0 <= j < i ==> logs[j].time <= t
    {
      if logs[i].time > t {
        FindLaterIsFirst(logs, t, i);
        return i;
      }
      i := i + 1;
    }
    FindLaterNone(logs, t);
    return -1;
  }

  /** The first later index is unique: any index that is later than `t` with no later one before it is the one found. */
  lemma {:induction false} FindLaterIsFirst(logs: seq<MoveLog>, t: real, i: nat)
    requires i < |logs| && logs[i].time > t
    requires forall j :: 0 <= j < i ==> logs[j].time <= t
    ensures FindLater(logs, t) == Some(i)
  {
    if i > 0 {
      FindLaterIsFirst(logs[1..], t, i - 1);
    }
  }

  /** When no sample is later than `t` the search finds nothing. */
  lemma {:induction false} FindLaterNone(logs: seq<MoveLog>, t: real)
    requires forall j :: 0 <= j < |logs| ==> logs[j].time <= t
    ensures FindLater(logs, t).None?
  {
    if |logs| > 0 {
      assert logs[0].time <= t;
      FindLaterNone(logs[1..], t);
    }
  }

  /**
   * The interpolation fraction between two bracketing samples. Inside the
   * bracket it lies in [0, 1).
   */
  function Alpha(prev: MoveLog, next: MoveLog, t: real): (alpha: real)
    requires prev.time != next.time
    ensures prev.time <= t < next.time ==> 0.0 <= alpha < 1.0
    ensures t == prev.time ==> alpha == 0.0
  {
    var d := next.time - prev.time;
    var a := (t - prev.time) / d;
    if prev.time <= t < next.time then FractionInUnit(t - prev.time, d); a else a
  }

  lemma FractionInUnit(num: real, den: real)
    requires 0.0 <= num < den
    ensures 0.0 <= num / den < 1.0
  {
    var q := num / den;
    assert q * den == num;
  }

  /** The per-coordinate interpolation between the bracketing samples. */
  function Interpolate(prev: MoveLog, next: MoveLog, t: real): (r: Vec3)
    requires prev.time != next.time
    ensures t == prev.time ==> r == prev.pos
    ensures prev.time <= t < next.time ==>
      Min(prev.pos.x, next.pos.x) <= r.x <= Max(prev.pos.x, next.pos.x) &&
      Min(prev.pos.y, next.pos.y) <= r.y <= Max(prev.pos.y, next.pos.y) &&
      Min(prev.pos.z, next.pos.z) <= r.z <= Max(prev.pos.z, next.pos.z)
  {
    var alpha := Alpha(prev, next, t);
    if prev.time <= t < next.time then
      LerpBetween(prev.pos.x, next.pos.x, alpha);
      LerpBetween(prev.pos.y, next.pos.y, alpha);
      LerpBetween(prev.pos.z, next.pos.z, alpha);
      LerpVec(prev.pos, next.pos, alpha)
    else LerpVec(prev.pos, next.pos, alpha)
  }

  /**
   * One frame of the ghost: with no mesh or no logs nothing happens; when
   * the replay has run out the ghost is hidden at the last sample; when the
   * first sample is still ahead it is shown there; otherwise it is shown
   * between the samples that bracket the playback time.
   */
  function GhostFrame(mounted: bool, logs: seq<MoveLog>, now: real, roomStartTime: real): (r: FrameUpdate)
    ensures r.Skip? <==> !mounted || |logs| == 0
    ensures r.Place? ==> (r.visible <==> HasLaterLog(logs, PlaybackTime(now, roomStartTime)))
    ensures r.Place? && !r.visible ==> r.pos == logs[|logs| - 1].pos
    ensures r.Place? && logs[0].time > PlaybackTime(now, roomStartTime) ==> r == Place(logs[0].pos, true)
  {
    if !mounted || |logs| == 0 then Skip
    else
      var t := PlaybackTime(now, roomStartTime);
      match FindLater(logs, t)
      case None => Place(logs[|logs| - 1].pos, false)
      case Some(next) =>
        if next == 0 then Place(logs[0].pos, true)
        else Place(Interpolate(logs[next - 1], logs[next], t), true)
  }

  /** What rendering the component yields: a `TypeError`, nothing, or the ghost mesh. */
  datatype RenderOutcome = TypeError | RendersNothing | RendersGhost

  /**
   * The render at Phantom.jsx line 49: it reads `previousMoveLogs.length`
   * with no guard, so a missing array throws; an empty one renders nothing,
   * and then no frame updates anything; otherwise the ghost is rendered and
   * every frame on its mounted mesh places it.
   */
  function GhostRender(logs: Option<seq<MoveLog>>): (r: RenderOutcome)
    ensures r == TypeError <==> logs.None?
    ensures r == RendersNothing ==>
      forall mounted: bool, now: real, start: real :: GhostFrame(mounted, logs.value, now, start) == Skip
    ensures r == RendersGhost ==>
      forall now: real, start: real :: GhostFrame(true, logs.value, now, start).Place?
  {
    match logs
    case None => TypeError
    case Some(l) => if |l| == 0 then RendersNothing else RendersGhost
  }

  /**
   * When several samples share the playback time and a later sample follows
   * them, the ghost stands visible at the last of them.
   */
  lemma AtLastSampleOfItsTime(logs: seq<MoveLog>, now: real, roomStartTime: real, k: nat)
    requires k + 1 < |logs| && logs[k].time == PlaybackTime(now, roomStartTime)
    requires forall j :: 0 <= j <= k ==> logs[j].time <= PlaybackTime(now, roomStartTime)
    requires logs[k + 1].time > PlaybackTime(now, roomStartTime)
    ensures GhostFrame(true, logs, now, roomStartTime) == Place(logs[k].pos, true)
  {
    FindLaterIsFirst(logs, PlaybackTime(now, roomStartTime), k + 1);
  }

  /**
   * In the interpolating case the found index brackets the playback time,
   * so the denominator is strictly positive and the fraction lies in [0, 1),
   * whatever the order of the logs.
   */
  lemma Bracket(logs: seq<MoveLog>, t: real)
    requires FindLater(logs, t).Some? && FindLater(logs, t).value > 0
    ensures var k := FindLater(logs, t).value;
      logs[k - 1].time <= t < logs[k].time &&
      logs[k].time - logs[k - 1].time > 0.0 &&
      0.0 <= Alpha(logs[k - 1], logs[k], t) < 1.0
  {
  }

  /**
   * In the interpolating case every coordinate of the ghost lies between the
   * coordinates of the two bracketing samples, and the ghost stands exactly
   * at the earlier sample when the playback time equals that sample's time.
   */
  lemma InterpolatedBetween(logs: seq<MoveLog>, now: real, roomStartTime: real)
    requires var k := FindLater(logs, PlaybackTime(now, roomStartTime)); k.Some? && k.value > 0
    ensures var t := PlaybackTime(now, roomStartTime);
      var k := FindLater(logs, t).value;
      var prev, next := logs[k - 1].pos, logs[k].pos;
      var r := GhostFrame(true, logs, now, roomStartTime);
      r.Place? && r.visible &&
      Min(prev.x, next.x) <= r.pos.x <= Max(prev.x, next.x) &&
      Min(prev.y, next.y) <= r.pos.y <= Max(prev.y, next.y) &&
      Min(prev.z, next.z) <= r.pos.z <= Max(prev.z, next.z) &&
      (t == logs[k - 1].time ==> r.pos == prev)
  {
  }

  /** For logs in time order, once the playback time reaches the last sample the ghost is hidden there. */
  lemma SortedEndHidden(logs: seq<MoveLog>, now: real, roomStartTime: real)
    requires Sorted(logs) && |logs| > 0
    requires PlaybackTime(now, roomStartTime) >= logs[|logs| - 1].time
    ensures GhostFrame(true, logs, now, roomStartTime) == Place(logs[|logs| - 1].pos, false)
  {
  }

  /**
   * At or before the first sample's time the ghost stands at the first
   * sample, provided the second sample (if any) is strictly later than it.
   */
  lemma AtOrBeforeFirstSample(logs: seq<MoveLog>, now: real, roomStartTime: real)
    requires |logs| > 0 && PlaybackTime(now, roomStartTime) <= logs[0].time
    requires |logs| > 1 ==> logs[0].time < logs[1].time
    ensures GhostFrame(true, logs, now, roomStartTime).pos == logs[0].pos
  {
    var t := PlaybackTime(now, roomStartTime);
    if t == logs[0].time && |logs| > 1 {
      FindLaterIsFirst(logs, t, 1);
    }
  }

  /**
   * Two samples at time 0 followed by one at 10 ms, played at 0: the ghost
   * stands visible at the second sample, not the first, because the bracket
   * search skips every sample whose time is not strictly later.
   */
  lemma DuplicateStartTime()
    ensures var logs := [MoveLog(Vec3(0.0, 0.0, 0.0), 0.0), MoveLog(Vec3(1.0, 0.0, 0.0), 0.0),
                         MoveLog(Vec3(2.0, 0.0, 0.0), 10.0)];
      GhostFrame(true, logs, 0.0, 0.0) == Place(Vec3(1.0, 0.0, 0.0), true)
  {
    var logs := [MoveLog(Vec3(0.0, 0.0, 0.0), 0.0), MoveLog(Vec3(1.0, 0.0, 0.0), 0.0),
                 MoveLog(Vec3(2.0, 0.0, 0.0), 10.0)];
    FindLaterIsFirst(logs, 0.0, 2);
  }

  /** Halfway between a sample at [0,0,0] (0 ms) and one at [10,0,0] (1000 ms) the ghost is at [5,0,0]. */
  lemma Midpoint(now: real, roomStartTime: real)
    requires PlaybackTime(now, roomStartTime) == 500.0
    ensures GhostFrame(true, [MoveLog(Vec3(0.0, 0.0, 0.0), 0.0), MoveLog(Vec3(10.0, 0.0, 0.0), 1000.0)], now, roomStartTime)
      == Place(Vec3(5.0, 0.0, 0.0), true)
  {
    var logs := [MoveLog(Vec3(0.0, 0.0, 0.0), 0.0), MoveLog(Vec3(10.0, 0.0, 0.0), 1000.0)];
    FindLaterIsFirst(logs, 500.0, 1);
    assert Alpha(logs[0], logs[1], 500.0) == 0.5;
  }

  /** The ghost mesh (`meshRef.current`): the position and visibility the frame callback sets. */
  class GhostMesh {
    var position: Vec3
    var visible: bool

    /** A freshly mounted mesh stands at the origin and is visible. */
    constructor ()
      ensures position == Vec3(0.0, 0.0, 0.0) && visible
    {
      position := Vec3(0.0, 0.0, 0.0);
      visible := true;
    }

    /** The `useFrame` callback: updates the mesh in place as `GhostFrame` prescribes. */
    method OnFrame(logs: seq<MoveLog>, now: real, roomStartTime: real)
      modifies this
      ensures match GhostFrame(true, logs, now, roomStartTime)
        case Skip => position == old(position) && visible == old(visible)
        case Place(p, v) => position == p && visible == v
    {
      if |logs| == 0 {
        return;
      }
      var playbackTime := now - roomStartTime;
      var nextIndex := FindLaterIndex(logs, playbackTime);
      if nextIndex == -1 {
        position := logs[|logs| - 1].pos;
        visible := false;
        return;
      }
      visible := true;
      if nextIndex == 0 {
        position := logs[0].pos;
        return;
      }
      var prevLog := logs[nextIndex - 1];
      var nextLog := logs[nextIndex];
      var alpha := (playbackTime - prevLog.time) / (nextLog.time - prevLog.time);
      assert alpha == Alpha(prevLog, nextLog, playbackTime);
      position := Vec3(Lerp(prevLog.pos.x, nextLog.pos.x, alpha),
                       Lerp(prevLog.pos.y, nextLog.pos.y, alpha),
                       Lerp(prevLog.pos.z, nextLog.pos.z, alpha));
      assert position == Interpolate(prevLog, nextLog, playbackTime);
    }
  }
}
