/** The recorded-movement sample that the ghost replay and the floor traces both read. */
module MoveLogs {
  import opened Geometry

  /** One recorded movement sample: a position and its room-relative time in milliseconds. */
  datatype MoveLog = MoveLog(pos: Vec3, time: real)
}
