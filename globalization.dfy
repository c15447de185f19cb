/**
 * The culture data the library consumes from the framework. Only the upper-case
 * mapping of a culture's TextInfo is observable by the modelled code; it is kept
 * uninterpreted as a function value.
 */
module Globalization {

  /** A CultureInfo, seen through TextInfo.ToUpper(char). */
  datatype Culture = Culture(upper: char -> char)

  /**
   * The two process-wide cultures: CultureInfo.CurrentCulture (which may change
   * between calls, so every access reads it again) and CultureInfo.InvariantCulture
   * (`fixed`).
   */
  datatype Cultures = Cultures(current: Culture, fixed: Culture)
}
