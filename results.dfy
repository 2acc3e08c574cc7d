/** Optional values and the Python exceptions the model surfaces. */
module Results {

  datatype Option<+T> = None | Some(value: T)

  /** The exceptions the modelled code can raise. */
  datatype Raised =
    | AttributeError(attribute: string)   // attribute looked up on an object that lacks it
    | FileExistsError(path: string)       // `os.makedirs` on an existing path

  /** A call that returns normally, or raises. */
  datatype Outcome = Pass | Fail(error: Raised)
}
