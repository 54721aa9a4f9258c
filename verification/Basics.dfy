/** Values shared by every module: options, results with the peer's finite
    diagnostics, and symbolic SHA-256 digests. */
module Basics {

  newtype byte = x: int | 0 <= x < 256

  datatype Option<+T> = None | Some(value: T)

  /** The finite failure codes a peer reports; no other detail leaves it. */
  datatype Error =
    | MalformedFrame | Oversized | UnsupportedVersion | WrongNetwork | UnknownNode
    | TopologyMismatch | UnauthorizedCodename | ConflictingMessage | Custody
    | AuthFailed | Interrupted
    | InvalidCatalog | InvalidPublisher | InvalidSignature
    | CatalogRollback | CatalogFork | CatalogMissingRevision | CatalogLifecycle

  datatype Result<+T> = Ok(value: T) | Err(code: Error) {
    predicate IsFailure() { Err? }
    function PropagateFailure<U>(): Result<U>
      requires Err?
    {
      Err(code)
    }
    function Extract(): T
      requires Ok?
    {
      value
    }
  }

  /** A check that carries no value; `require(test, code)` of the source. */
  datatype Check = Pass | Fail(code: Error) {
    predicate IsFailure() { Fail? }
    function PropagateFailure<U>(): Result<U>
      requires Fail?
    {
      Err(code)
    }
  }

  function Require(test: bool, code: Error): Check {
    if test then Pass else Fail(code)
  }

  /** A digest is the term that names its preimage, so equal digests have equal
      preimages; `Unrelated` is any other hexadecimal string. */
  datatype Digest<+T> = Sha256(preimage: T) | Unrelated(hex: string)

  /** The two ends of a link. */
  datatype Side = Left | Right {
    function Other(): Side { if Left? then Right else Left }
  }

  // Bounds used by several modules.

  const LAST_TIMESTAMP := 253402300799
  const MAX_FILE := 67108864
  const MAX_CHUNK := 65536
  const PER_SESSION := 64

  predicate Unrepeated(s: seq<string>) {
    forall i, j :: 0 <= i < j < |s| ==> s[i] != s[j]
  }

  lemma SubsetSize(s: set<string>, t: set<string>)
    requires s <= t
    ensures |s| <= |t|
  {
    assert t == s + (t - s);
  }
}
