/** Failure-carrying values shared by the Arow generator and the CSV writer models.
    The C# code signals failures by throwing; here a thrown exception is an Err. */
module Results {

  datatype Option<+T> = None | Some(value: T)

  datatype Result<+T, +E> = Ok(value: T) | Err(error: E)
}
