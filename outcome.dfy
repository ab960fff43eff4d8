/** Failure-carrying values shared by the pipeline stages. */
module Outcome {

  datatype Option<+T> = None | Some(value: T)

  /** The exceptions the pipeline lets escape to its caller. */
  datatype Error =
    | FetchError(url: string)             // requests.get failed or raise_for_status fired
    | UnsupportedFormat(message: string)  // ValueError from load_dataset
    | ParseError(path: string)            // the CSV or JSON reader rejected the file

  datatype Result<+T> = Ok(value: T) | Err(error: Error)

  /** The message load_dataset raises for a suffix it does not know. */
  const UnsupportedMessage: string := "Unsupported file format. Use CSV or JSON."
}
