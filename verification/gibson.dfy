/** The fields of the external gibson library's GIB record that the second
    converter reads. How that library parses a GIB file is not part of this
    model; only the shape of its result is. */
module Gibson {
  import opened Wrappers
  import opened Decimal

  datatype GibColor = Black | White

  /** A move: a stone on a point, or a pass; both carry the player and the
      move number. */
  datatype Move =
    | Point(color: GibColor, moveNumber: Int32, x: Int32, y: Int32)
    | Pass(color: GibColor, moveNumber: Int32)

  datatype GameResult =
    | Score(winner: GibColor, score: Option<real>)
    | Resignation(winner: GibColor)
    | Time(winner: GibColor)

  /** Main time, then byo-yomi length and count. */
  datatype TimeSettings = TimeSettings(timeLimit: Int32, overtimeSeconds: Int32, overtimePeriods: Int32)

  datatype Gib = Gib(
    handicap: Int32,
    komi: Option<real>,
    gamePlace: Option<string>,
    playerBlack: Option<string>,
    playerWhite: Option<string>,
    gameResult: Option<GameResult>,
    timeSettings: Option<TimeSettings>,
    moves: seq<Move>)
}
