/**
 * `Fps`: the frame rates offered to the user. Each member's underlying value is not a rate
 * but the delay in milliseconds the server sleeps between two frames.
 */
module FrameRate {

  /** The declared members. */
  datatype Fps = OneHundredAndTwenty | Sixty | Thirty | Fifteen

  /** The underlying value `(int)fps`: the per-frame delay in milliseconds. */
  function Delay(f: Fps): (ms: int)
    ensures ms > 0
  {
    match f
    case OneHundredAndTwenty => 8
    case Sixty => 16
    case Thirty => 33
    case Fifteen => 66
  }

  /** The rate in frames per second that the member's name announces. */
  function NominalRate(f: Fps): (rate: int)
    ensures rate > 0
  {
    match f
    case OneHundredAndTwenty => 120
    case Sixty => 60
    case Thirty => 30
    case Fifteen => 15
  }

  /** All members, in declaration order. */
  const AllFps: seq<Fps> := [OneHundredAndTwenty, Sixty, Thirty, Fifteen]

  /** Every member is listed once, and the delays are exactly 8, 16, 33 and 66. */
  lemma AllFpsComplete(f: Fps)
    ensures f in AllFps
    ensures (set g | g in AllFps :: Delay(g)) == {8, 16, 33, 66}
  {
    assert Delay(AllFps[0]) == 8 && Delay(AllFps[1]) == 16;
    assert Delay(AllFps[2]) == 33 && Delay(AllFps[3]) == 66;
  }

  /** Each delay is a thousand milliseconds divided by the nominal rate, rounded down. */
  lemma DelayIsPeriod(f: Fps)
    ensures Delay(f) == 1000 / NominalRate(f)
  {
  }

  /** A lower rate means a longer delay, and conversely; so the delays are distinct. */
  lemma DelayOrder(a: Fps, b: Fps)
    ensures NominalRate(a) > NominalRate(b) <==> Delay(a) < Delay(b)
    ensures Delay(a) == Delay(b) <==> a == b
  {
  }
}
