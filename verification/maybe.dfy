/** The optional value that the decoders of this model return when their input is malformed. */
module Maybe {

  datatype Option<+T> = None | Some(value: T)

}
