/** Outcome types shared by the modelled components: a raised exception of the
    source is a `Err`, an absent value is a `None`. */
module Outcomes {
  datatype Option<+T> = None | Some(value: T)

  datatype Result<+T, +E> = Ok(value: T) | Err(error: E)
}
