/** Outcomes of the geocoder's two core functions: a value, or the Python
    exception the code raises on its way there. */
module Outcomes {

  /** The exceptions the core can raise on some inputs. */
  datatype PyError =
    | IndexError   // `word[0]` on an empty segment
    | KeyError     // column projection of a column-less DataFrame

  datatype Result<+T> = Ok(value: T) | Err(error: PyError)
}
