/**
 * `Resolution`: the five stream resolutions and the size each one stands for. A C# enum
 * variable can hold any integer, so the lookup takes the enum's underlying value and fails
 * with `ArgumentOutOfRangeException` outside the five declared members.
 */
module Resolution {
  import opened Wrappers

  const OneThousandAndEightyPWidth := 1920
  const OneThousandAndEightyPHeight := 1080
  const SevenHundredAndTwentyPWidth := 1080
  const SevenHundredAndTwentyPHeight := 720
  const FourHundredAndEightyPWidth := 854
  const FourHundredAndEightyPHeight := 480
  const ThreeHundredAndSixtyPWidth := 480
  const ThreeHundredAndSixtyPHeight := 360
  const TwoHundredAndFortyPWidth := 352
  const TwoHundredAndFortyPHeight := 240

  /** The declared members, in declaration order. */
  datatype Resolutions =
    | OneThousandAndEightyP
    | SevenHundredAndTwentyP
    | FourHundredAndEightyP
    | ThreeHundredAndSixtyP
    | TwoHundredAndFortyP

  /** `System.Drawing.Size`. */
  datatype Size = Size(width: int, height: int)

  /** The exception thrown for a value that names no member. */
  datatype ResolutionError = ArgumentOutOfRange(value: int)

  /** The underlying value of a member: its position in the declaration. */
  function Ordinal(r: Resolutions): (n: int)
    ensures 0 <= n < 5
  {
    match r
    case OneThousandAndEightyP => 0
    case SevenHundredAndTwentyP => 1
    case FourHundredAndEightyP => 2
    case ThreeHundredAndSixtyP => 3
    case TwoHundredAndFortyP => 4
  }

  /** The member whose underlying value is `n`, if any. */
  function FromOrdinal(n: int): (r: Option<Resolutions>)
    ensures r.Some? <==> 0 <= n < 5
    ensures r.Some? ==> Ordinal(r.value) == n
  {
    if n == 0 then Some(OneThousandAndEightyP)
    else if n == 1 then Some(SevenHundredAndTwentyP)
    else if n == 2 then Some(FourHundredAndEightyP)
    else if n == 3 then Some(ThreeHundredAndSixtyP)
    else if n == 4 then Some(TwoHundredAndFortyP)
    else None
  }

  /** The size of a declared member: the arms of the switch. */
  function SizeOf(r: Resolutions): (s: Size)
    ensures 0 < s.height <= s.width
  {
    match r
    case OneThousandAndEightyP => Size(OneThousandAndEightyPWidth, OneThousandAndEightyPHeight)
    case SevenHundredAndTwentyP => Size(SevenHundredAndTwentyPWidth, SevenHundredAndTwentyPHeight)
    case FourHundredAndEightyP => Size(FourHundredAndEightyPWidth, FourHundredAndEightyPHeight)
    case ThreeHundredAndSixtyP => Size(ThreeHundredAndSixtyPWidth, ThreeHundredAndSixtyPHeight)
    case TwoHundredAndFortyP => Size(TwoHundredAndFortyPWidth, TwoHundredAndFortyPHeight)
  }

  /** `GetResolutionSize` applied to an enum variable holding `value`. */
  function GetResolutionSize(value: int): (r: Result<Size, ResolutionError>)
    ensures r.Success? <==> 0 <= value < 5
    ensures r.Failure? ==> r.error == ArgumentOutOfRange(value)
    ensures r.Success? ==> 0 < r.value.height <= r.value.width
  {
    match FromOrdinal(value)
    case Some(res) => Success(SizeOf(res))
    case None => Failure(ArgumentOutOfRange(value))
  }

  /** Every declared member gets its size; the underlying value is what is looked up. */
  lemma GetResolutionSizeOfMember(r: Resolutions)
    ensures GetResolutionSize(Ordinal(r)) == Success(SizeOf(r))
  {
    assert FromOrdinal(Ordinal(r)) == Some(r);
  }

  /**
   * The table as written. The 720p entry is 1080 wide, not the 1280 its user-interface label
   * `"1280x720 (720p)"` announces.
   */
  lemma SizesAsWritten()
    ensures GetResolutionSize(0) == Success(Size(1920, 1080))
    ensures GetResolutionSize(1) == Success(Size(1080, 720))
    ensures GetResolutionSize(2) == Success(Size(854, 480))
    ensures GetResolutionSize(3) == Success(Size(480, 360))
    ensures GetResolutionSize(4) == Success(Size(352, 240))
  {
  }

  /** Widths and heights both strictly decrease in declaration order. */
  lemma SizesDecrease(a: Resolutions, b: Resolutions)
    requires Ordinal(a) < Ordinal(b)
    ensures SizeOf(a).width > SizeOf(b).width && SizeOf(a).height > SizeOf(b).height
  {
  }

  /** Distinct members have distinct sizes, and so do distinct valid values. */
  lemma GetResolutionSizeInjective(u: int, v: int)
    requires GetResolutionSize(u).Success? && GetResolutionSize(u) == GetResolutionSize(v)
    ensures u == v
  {
    var a, b := FromOrdinal(u).value, FromOrdinal(v).value;
    if a != b {
      if Ordinal(a) < Ordinal(b) { SizesDecrease(a, b); } else { SizesDecrease(b, a); }
    }
  }
}
