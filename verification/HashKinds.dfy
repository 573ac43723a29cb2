/** The object formats of a repository (src/hash.rs). */
module HashKinds {

  datatype HashKind = Sha1 | Sha256 | Blake3

  /** Bytes of a raw ID. */
  function IdSize(kind: HashKind): nat {
    if kind.Sha1? then 20 else 32
  }

  /** Hexadecimal digits of an ID. */
  function HexLen(kind: HashKind): nat {
    2 * IdSize(kind)
  }
}
