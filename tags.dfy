/**
 The base-dimension tags of tags.h. Each tag is a marker with no data: a
 nullary constructor, so two tags are the same exactly when they are the
 same constructor.
 */
module Tags {

  datatype Tag =
    | Time
    | Length
    | Mass
    | Current
    | Temperature
    | Amount
    | Luminosity
    | Currency
    | Angle
}
