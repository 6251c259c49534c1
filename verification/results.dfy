/** Outcomes of the pipeline's two kinds of file read. */
module Results {

  /** A value that may be absent: a missing JSON field (`undefined`) or a file
      that could not be read or parsed. */
  datatype Option<+T> = None | Some(value: T)

  /** The fatal failures that stop a run: the promise returned by the aggregation rejects. */
  datatype Error =
    | ManifestUnreadable(path: string)
      // an application's package.json is missing or is not JSON
    | PackageJsonUnreadable(dependency: string, lib: string)
      // a dependency's own package.json under `lib/node_modules` is missing or is not JSON

  datatype Result<+T> = Ok(value: T) | Err(error: Error) {

    predicate IsFailure() {
      Err?
    }

    function PropagateFailure<U>(): Result<U>
      requires Err?
    {
      Err(error)
    }

    function Extract(): T
      requires Ok?
    {
      value
    }
  }
}
