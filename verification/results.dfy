/** The outcome of one script run: the table it would write, or the reason
    it stops with a non-zero exit status before writing anything. */
module Results {

  datatype Result<+T, +E> = Ok(value: T) | Err(error: E)

}
