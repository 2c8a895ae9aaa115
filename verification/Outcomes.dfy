/** Result and option types shared by the models of the scripts and the map client. */
module Outcomes {

  datatype Option<+T> = None | Some(value: T)

  /** A value, or the error the program raises instead of returning one. */
  datatype Result<+T> = Ok(value: T) | Error(message: string)
}
