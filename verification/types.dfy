/** Values shared by every stage of the k-means job. */
module Types {

  /** An input point: two integer coordinates. */
  datatype Point = Point(x: int, y: int)

  /** One non-empty line of a center file once its fields are converted to
      integers: the leading class id and every field that follows it. */
  datatype Record = Record(id: int, coords: seq<int>)

  /** A center as the job writes it back: class id and two coordinates. */
  datatype Center = Center(id: int, x: int, y: int)

  /** The record that reading back a written center yields. */
  function AsRecord(c: Center): Record {
    Record(c.id, [c.x, c.y])
  }

  /** The records of a sequence of written centers, in the same order. */
  function Records(cs: seq<Center>): (rs: seq<Record>)
    ensures |rs| == |cs|
    ensures forall i :: 0 <= i < |cs| ==> rs[i] == AsRecord(cs[i])
  {
    seq(|cs|, i requires 0 <= i < |cs| => AsRecord(cs[i]))
  }

  /** Why a run stops, one case per exception the job can raise. */
  datatype Error =
    | IncorrectMetric   // ValueError: the metric name is not one of the three
    | EmptyReduce       // TypeError: reduce() over no coordinate pairs
    | BadInt            // ValueError: int() of a field that is not an integer
    | ShortRecord       // IndexError: a center line with fewer than three fields
    | MissingFile       // FileNotFoundError: removing a file that does not exist
    | NegativeBudget    // ValueError: max_steps_count < 0
    | OutOfFuel         // the unbounded loop ran longer than the fuel it was given
}
