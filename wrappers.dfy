/** Optional values, and the results and error kinds of the tree operations. */
module Wrappers {

  datatype Option<+T> = None | Some(value: T)

  /** The failures the tree operations report. */
  datatype Error =
    | NotFound         // no flattened key has a segment equal to the identifier
    | NoChildren       // the node has no child to return
    | InvalidDirective // an insertion mode other than the ones offered
    | InvalidOperation // a path the JSON mutator refuses (the empty path: the whole document)
    | SyntaxError      // an array index that is not a decimal digit
    | Malformed        // a value that does not decode as the expected object or array
    | Unrepresentable  // a mutation whose outcome is no longer a labelled-array tree

  datatype Result<+T> = Ok(value: T) | Err(error: Error)
}
