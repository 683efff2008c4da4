/**
 * The exceptions of the data-preparation functions that the model represents, as values.
 */
module Outcomes {

  datatype Error =
    | FileNotFound(path: string)  // os.listdir on a directory that does not exist, or os.makedirs('')
    | SameFile(path: string)      // shutil.copyfile with the same source and destination
    | CannotReshape(size: nat)    // numpy's reshape with a shape the array's size cannot fill

  /** Either the value a call returns or the exception it raises. */
  datatype Outcome<+T> = Ok(value: T) | Err(error: Error)
}
