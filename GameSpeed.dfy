/**
 * The speed label's interpolation: the slider value in [X1, X2] is mapped
 * linearly onto [Y2, Y1], the larger value giving the smaller result.
 * The source computes in double precision; this model uses exact reals.
 */
module GameSpeed {

  const X1: real := 0.009
  const Y1: real := 10.0
  const X2: real := 0.5
  const Y2: real := 1.0

  /** The outcome of the interpolation: a value, or the out-of-range error. */
  datatype Result<T> = Ok(value: T) | OutOfRange

  /**
   * GetGameSpeedByValue: rejects an input outside [X1, X2] and otherwise
   * returns the point of the line through (X1, Y1) and (X2, Y2) above it,
   * which lies in [Y2, Y1].
   */
  function GameSpeedByValue(input: real): (r: Result<real>)
    ensures r.OutOfRange? <==> input < X1 || input > X2
    ensures r.Ok? ==> Y2 <= r.value <= Y1
  {
    if input < X1 || input > X2 then OutOfRange
    else Ok(Y1 + (input - X1) * (Y2 - Y1) / (X2 - X1))
  }

  /** The slider value the interpolation sends to y: the inverse line. */
  function ValueForGameSpeed(y: real): real
  {
    X1 + (y - Y1) * (X2 - X1) / (Y2 - Y1)
  }

  /** The interpolation passes through both calibration points and the midpoint. */
  lemma GameSpeedCalibration()
    ensures GameSpeedByValue(X1) == Ok(Y1)
    ensures GameSpeedByValue(X2) == Ok(Y2)
    ensures GameSpeedByValue((X1 + X2) / 2.0) == Ok((Y1 + Y2) / 2.0)
  {
  }

  /** A larger slider value gives a strictly smaller result. */
  lemma GameSpeedDecreasing(a: real, b: real)
    requires X1 <= a < b <= X2
    ensures GameSpeedByValue(a).Ok? && GameSpeedByValue(b).Ok?
    ensures GameSpeedByValue(a).value > GameSpeedByValue(b).value
  {
  }

  /** Every in-range input is recovered from its result: the map is one-to-one onto [Y2, Y1]. */
  lemma GameSpeedRoundTrip(input: real)
    requires X1 <= input <= X2
    ensures GameSpeedByValue(input).Ok?
    ensures ValueForGameSpeed(GameSpeedByValue(input).value) == input
  {
  }

  /** Every point of [Y2, Y1] is reached. */
  lemma GameSpeedOnto(y: real)
    requires Y2 <= y <= Y1
    ensures X1 <= ValueForGameSpeed(y) <= X2
    ensures GameSpeedByValue(ValueForGameSpeed(y)) == Ok(y)
  {
  }
}
