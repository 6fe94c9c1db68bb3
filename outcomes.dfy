/** Optional values and failures shared by the decision-tree model. */
module Outcomes {

  datatype Option<+T> = None | Some(value: T)

  /** The exceptions the classifier raises instead of returning a value. */
  datatype Error =
    | EmptyData        // most_common(1)[0] on an empty Counter (IndexError)
    | NoFeatures       // max() over an empty list of gains (ValueError)
    | NotANode         // tree.keys() on a leaf label (AttributeError)
    | UnknownFeature   // label.index(name) for a name that is not listed (ValueError)
    | ExampleTooShort  // data[index] past the end of the example (IndexError)
    | NoFalse          // L.index(False) when no element equals False (ValueError)

  datatype Result<+T> = Ok(value: T) | Err(error: Error)
}
