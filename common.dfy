/**
 * Shared result types. The program signals failure by raising Python
 * exceptions; here each exception that the modelled code can raise is a
 * constructor of `PyError`, and an operation that can raise returns a
 * `Result` or an `Outcome`.
 */
module Common {

  datatype Option<+T> = None | Some(value: T)

  /** The exceptions the modelled code raises, named after their Python classes. */
  datatype PyError =
    | AttributeError      // `.group` called on the `None` of a failed `re.match`
    | IndexError          // `[0]` on an empty string or list
    | EOFError            // `input()` with the operator's answers exhausted
    | FileNotFoundError   // a missing parent directory or `_info.yml`
    | FileExistsError     // `mkdir` or `symlink` onto something already there
    | IsADirectoryError   // `unlink` of a directory
    | NotADirectoryError  // a path whose parent is a file
    | KeyError            // a file record without a `url`
    | DownloadFailed(url: string)  // the `Exception("Failed to download: " + url)` of a download

  datatype Result<+T> = Ok(value: T) | Err(error: PyError)

  datatype Outcome = Pass | Fail(error: PyError)
}
