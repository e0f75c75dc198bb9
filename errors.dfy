/**
  The exceptions raised by the feature model. The three parse errors are all
  raised as `FeatureParseError` in the source; they are told apart here by the
  condition that raised them.
 */
module Errors {

  datatype Error =
    | DuplicateFeatureLabel(name: string)   // a feature label declared twice
    | FeatureCountMismatch(symbol: string)   // a row with the wrong number of values
    | IllegalFeatureValue(symbol: string)    // a row value outside its feature's values
    | KeyError(key: string)                  // unknown label or symbol
    | IndexError(index: int)                 // list index out of range
    | UnhashableKey(name: string)           // a feature object used as a dictionary key
}
