/** A reference that may be null: `None` stands for C#'s `null`. */
module Optional {

  datatype Option<T> = None | Some(value: T)

}
