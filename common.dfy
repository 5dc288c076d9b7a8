/** Values shared by the waitlist modules. */
module Common {

  /** A value that may be missing: an absent JSON field or a SQL NULL. */
  datatype Option<T> = None | Some(value: T)

  /** A `created_at` value; only its order matters to the model. */
  type Timestamp = int
}
