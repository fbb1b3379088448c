/** Option and Result values, and the ways a command of the tool can fail.
    The Go program panics, calls os.Exit or log.Fatal on each of these; here
    they are returned as values and the caller decides what to print. */
module Wrappers {

  datatype Option<+T> = None | Some(value: T)

  datatype Result<+T, +E> = Ok(value: T) | Err(error: E)

  /** Why a command stops before it finishes. */
  datatype Failure =
    | Usage                      // wrong number or shape of arguments: usage text, exit 1
    | Transport                  // http.DefaultClient.Do (or reading the body) failed: panic
    | Undecodable                // the JSON body did not unmarshal: panic
    | Remote(message: string)    // the content endpoint answered with an error message: exit 1
    | BadPattern                 // regexp.MustCompile rejected the search term: panic
    | BadBase64                  // the file content was not valid base64: log.Fatal
}
