/**
 The standard base dimensions of dimensions.h: every tag of tags.h raised to
 the power 1.
 */
module BaseDimensions {

  import Tags
  import opened Dimensions

  const Length: Dimension := Dimension(Tags.Length, 1)
  const Time: Dimension := Dimension(Tags.Time, 1)
  const Mass: Dimension := Dimension(Tags.Mass, 1)
  const Temperature: Dimension := Dimension(Tags.Temperature, 1)
  const Current: Dimension := Dimension(Tags.Current, 1)
  const Amount: Dimension := Dimension(Tags.Amount, 1)
  const Luminosity: Dimension := Dimension(Tags.Luminosity, 1)
  const Currency: Dimension := Dimension(Tags.Currency, 1)
  const Angle: Dimension := Dimension(Tags.Angle, 1)

  /**
   Each base dimension is its tag with the default exponent 1. This records
   the declarations of the base dimensions and holds by their definitions.
   */
  lemma BaseDimensionsHaveDefaultExponent()
    ensures Length == Of(Tags.Length) && Time == Of(Tags.Time) && Mass == Of(Tags.Mass)
    ensures Temperature == Of(Tags.Temperature) && Current == Of(Tags.Current)
    ensures Amount == Of(Tags.Amount) && Luminosity == Of(Tags.Luminosity)
    ensures Currency == Of(Tags.Currency) && Angle == Of(Tags.Angle)
  {
  }
}
