/**
 Vocabulary shared by every module: bytes, identifiers, options and results, and the
 CRDT document.

 A Rust `String` is represented by its UTF-8 bytes (`Id`), so that byte order, byte
 lengths and byte prefixes mean what they mean in the daemon.

 A CRDT document is the finite set of operations it has integrated. `apply_update` is
 union, so applying an update twice, or two updates in either order, makes no
 difference; that is all the daemon relies on from the CRDT library.
 */
module Basics {
  type byte = b: int | 0 <= b < 256

  type Id = seq<byte>

  type Op = nat

  type Doc = set<Op>

  datatype Option<+T> = None | Some(value: T)

  datatype Result<+T, +E> = Ok(value: T) | Err(error: E)

  function Max(a: int, b: int): int {
    if a < b then b else a
  }

  function Min(a: int, b: int): int {
    if a < b then a else b
  }

  /** A proper subset is strictly smaller, stated for the pairs the proofs need. */
  lemma SubsetSize<T>(a: set<T>, b: set<T>)
    requires a <= b
    ensures |a| <= |b|
    ensures |a| == |b| ==> a == b
  {
    var rest := b - a;
    assert b == a + rest;
    assert |b| == |a| + |rest|;
  }
}
