/** Small shared definitions used by every other module of the model. */
module Base {

  /** An optional value: used for inputs that may be absent, such as the
      point at which a cooperative stop flag is first observed. */
  datatype Option<+T> = None | Some(value: T)

  /** A byte as carried by the recording stream and written to the encoder. */
  type byte = b: int | 0 <= b < 256
}
