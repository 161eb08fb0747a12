/** Values shared by every part of the bucket model. */
module Common {

  datatype Option<+T> = None | Some(value: T)

  datatype Result<+T, +E> = Ok(value: T) | Err(error: E) {
    predicate IsFailure() { Err? }

    function PropagateFailure<U>(): Result<U, E>
      requires Err?
    {
      Err(error)
    }

    function Extract(): T
      requires Ok?
    {
      value
    }
  }

  /** The errors a request can end with: the HTTP 400, 413 and 404 answers of the service. */
  datatype HttpError =
    | UnsupportedType
    | PayloadTooLarge(maxUploadBytes: int)
    | NotFound

  /** What `stat()` reports about one file of the bucket: its size in bytes and its
      modification time, in whole seconds. */
  datatype Meta = Meta(size: nat, mtime: int)

  /** The bucket directory: a flat set of regular files, each known by its name. */
  type Files = map<string, Meta>

  /** `small` is `big` with some entries removed and every other entry unchanged. */
  ghost predicate SubMap(small: Files, big: Files) {
    forall k :: k in small ==> k in big && small[k] == big[k]
  }

  predicate Distinct<T(==)>(s: seq<T>) {
    forall i, j :: 0 <= i < j < |s| ==> s[i] != s[j]
  }

  /** Python's `value or default` for an optional string: None and "" both give the default. */
  function OrDefault(value: Option<string>, default: string): string {
    match value
    case Some(s) => if s == "" then default else s
    case None => default
  }

  function Min(a: int, b: int): int { if a <= b then a else b }

  function Max(a: int, b: int): int { if a >= b then a else b }
}
