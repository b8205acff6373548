/**
 * The values the appointment grid passes around: the cell statuses and
 * work modes of the constants file, and the shapes of a time range, a
 * rendered cell and a pair of slot indices.
 */
module AppointmentTypes {
  import opened TimeText

  datatype CellStatus = Idle | Selected | Occupied | Invalid | Expired

  datatype WorkMode = Edit | View

  /** `[start, end]`: the half-open stretch of the day from `start` up to `end`. */
  datatype TimeRange = TimeRange(start: Time, end: Time)

  /**
   * One rendered cell: `index` is the first slot it stands for, and
   * `rowStart`/`rowEnd` are its 1-based, end-exclusive layout rows.
   */
  datatype Cell = Cell(index: int, rowStart: int, rowEnd: int, status: CellStatus)

  /** A span of slot indices; `-1` in either place means "none". */
  datatype Indices = Indices(startIndex: int, endIndex: int)
}
