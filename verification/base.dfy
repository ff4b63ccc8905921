/** Shared vocabulary: bytes, digests, paths, and the failure-carrying result
    type that stands for the exceptions the snapshot tools raise. */
module Base {

  newtype uint8 = x: int | 0 <= x < 256

  type Bytes = seq<uint8>

  /** A hex digest as `hexdigest()` returns it. */
  type Digest = string

  /** SHA-256 (FIPS 180-4) as an uninterpreted, deterministic function of the
      whole byte string. */
  type Hasher = Bytes -> Digest

  /** A path as the list of its components, outermost first; the root of an
      absolute path is implicit. */
  type Path = seq<string>

  datatype Option<T> = None | Some(value: T)

  /** The exceptions the modelled code can raise, each naming the path it concerns. */
  datatype Error =
    | NotFound(path: Path)          // FileNotFoundError
    | IsADirectory(path: Path)      // IsADirectoryError
    | PermissionDenied(path: Path)  // PermissionError
    | NotADirectory(path: Path)     // FileExistsError / NotADirectoryError from mkdir
    | Malformed(path: Path)         // json.JSONDecodeError

  datatype Result<T> = Success(value: T) | Failure(error: Error) {
    predicate IsFailure() {
      Failure?
    }

    function PropagateFailure<U>(): Result<U>
      requires Failure?
    {
      Failure(error)
    }

    function Extract(): T
      requires Success?
    {
      value
    }
  }

  predicate StartsWith(s: string, prefix: string) {
    |prefix| <= |s| && s[..|prefix|] == prefix
  }

  predicate EndsWith(s: string, suffix: string) {
    |suffix| <= |s| && s[|s| - |suffix|..] == suffix
  }
}
