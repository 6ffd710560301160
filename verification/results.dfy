/** Failure-compatible result types shared by the whole model.

    Each Java exception the core can raise becomes one `Error` value; the
    operations return `Result<T>` instead of throwing. */
module Results {

  /** The error conditions of the tile pipeline. */
  datatype Error =
    | DimensionError          // width or height of an image is not a multiple of 8
    | CapacityError           // more pixels or tiles than the 16 x 24 tile grid holds
    | ClassificationError     // a PIXEL_PERFECT pixel matches no palette entry
    | InvalidColor            // a colour string has no hexadecimal digit (NumberFormatException)
    | PaletteParseError       // the same failure, reported by the palette sort (ParseException)
    | TileMapResolutionError  // a layout region matches no tile

  datatype Option<+T> = None | Some(value: T)

  datatype Result<+T> = Success(value: T) | Failure(error: Error) {

    predicate IsFailure() {
      Failure?
    }

    function PropagateFailure<U>(): Result<U>
      requires Failure?
    {
      Failure(error)
    }

    function Extract(): T
      requires Success?
    {
      value
    }
  }

  /** All the values of a run of outcomes, or the error of the first one
      that failed; outcomes are inspected from position `from` on. */
  function AllSucceedFrom<T>(rs: seq<Result<T>>, from: nat): (r: Result<seq<T>>)
    requires from <= |rs|
    decreases |rs| - from
    ensures r.Failure? <==> exists i | from <= i < |rs| :: rs[i].Failure?
    ensures r.Failure? ==> exists i | from <= i < |rs| ::
      rs[i].Failure? && r.error == rs[i].error && forall j | from <= j < i :: rs[j].Success?
    ensures r.Success? ==> |r.value| == |rs| - from
    ensures r.Success? ==> forall i | from <= i < |rs| :: rs[i] == Success(r.value[i - from])
  {
    if from == |rs| then Success([])
    else if rs[from].Failure? then Failure(rs[from].error)
    else
      var rest := AllSucceedFrom(rs, from + 1);
      if rest.Failure? then Failure(rest.error)
      else Success([rs[from].value] + rest.value)
  }

  /** All the values of a sequence of outcomes, or the first error. */
  function AllSucceed<T>(rs: seq<Result<T>>): (r: Result<seq<T>>)
    ensures r.Failure? <==> exists i | 0 <= i < |rs| :: rs[i].Failure?
    ensures r.Failure? ==> exists i | 0 <= i < |rs| ::
      rs[i].Failure? && r.error == rs[i].error && forall j | 0 <= j < i :: rs[j].Success?
    ensures r.Success? ==> |r.value| == |rs| && forall i | 0 <= i < |rs| :: rs[i] == Success(r.value[i])
  {
    AllSucceedFrom(rs, 0)
  }
}
