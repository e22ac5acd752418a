/** The optional value used for the scanner's partial operations: a camera
    index that may not exist, a payload that may not decode, a spreadsheet
    file that may not have been written yet. */
module Wrappers {

  datatype Option<+T> = None | Some(value: T)

}
