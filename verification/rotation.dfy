/**
 `areDimensionsSwapped`: whether the preview's width and height must be
 exchanged to express the texture view in sensor coordinates.
 */
module Rotation {

  /** `Surface.ROTATION_0` .. `Surface.ROTATION_270`. */
  const ROTATION_0: int := 0
  const ROTATION_90: int := 1
  const ROTATION_180: int := 2
  const ROTATION_270: int := 3

  /** The orientations a camera sensor reports, in degrees. */
  predicate IsQuarterTurn(degrees: int)
  {
    degrees == 0 || degrees == 90 || degrees == 180 || degrees == 270
  }

  /**
   The `when` table over the display rotation; any other rotation value is
   logged as invalid and answered with `false`. The contract gives the
   geometric reading: the dimensions are swapped exactly when display and
   sensor together turn the image by an odd number of quarter turns.
   */
  function AreDimensionsSwapped(displayRotation: int, sensorOrientation: int): (swapped: bool)
    ensures swapped <==>
      && ROTATION_0 <= displayRotation <= ROTATION_270
      && IsQuarterTurn(sensorOrientation)
      && (displayRotation * 90 + sensorOrientation) % 180 == 90
  {
    if displayRotation == ROTATION_0 || displayRotation == ROTATION_180 then
      sensorOrientation == 90 || sensorOrientation == 270
    else if displayRotation == ROTATION_90 || displayRotation == ROTATION_270 then
      sensorOrientation == 0 || sensorOrientation == 180
    else
      false
  }

  /** Turning the display by half a turn never changes the answer. */
  lemma HalfTurnInvariant(displayRotation: int, sensorOrientation: int)
    requires ROTATION_0 <= displayRotation <= ROTATION_270
    ensures AreDimensionsSwapped(displayRotation, sensorOrientation)
         == AreDimensionsSwapped((displayRotation + 2) % 4, sensorOrientation)
  {
  }

  /** For a valid sensor orientation, a quarter turn of the display always flips the answer. */
  lemma QuarterTurnFlips(displayRotation: int, sensorOrientation: int)
    requires ROTATION_0 <= displayRotation <= ROTATION_270
    requires IsQuarterTurn(sensorOrientation)
    ensures AreDimensionsSwapped(displayRotation, sensorOrientation)
         != AreDimensionsSwapped((displayRotation + 1) % 4, sensorOrientation)
  {
  }
}
