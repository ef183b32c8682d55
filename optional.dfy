/** A value that may be absent: the model of a nullable (`T | null`) state field. */
module Optional {

  datatype Option<T> = None | Some(value: T)

}
