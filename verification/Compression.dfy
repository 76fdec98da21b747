/** Compression encodings and the case structure of `compress` and `decompress`. The codecs
    themselves are libraries and appear as function values. */
module Compression {
  import opened Bytes

  type Level = nat

  datatype Encoding =
    | Identity
    | Gzip(config: Option<Level>)
    | Zlib(config: Option<Level>)
    | Zstd(config: Option<Level>)

  /** Equality of encodings in the source ignores the configuration. */
  predicate SameKind(a: Encoding, b: Encoding) {
    match (a, b)
    case (Identity, Identity) => true
    case (Gzip(_), Gzip(_)) => true
    case (Zlib(_), Zlib(_)) => true
    case (Zstd(_), Zstd(_)) => true
    case _ => false
  }

  /** The compression libraries; an error carries its display text. */
  datatype Libraries = Libraries(
    gzip: (Level, bytes) -> Result<bytes, bytes>,
    gunzip: bytes -> Result<bytes, bytes>,
    zlib: (Level, bytes) -> Result<bytes, bytes>,
    unzlib: bytes -> Result<bytes, bytes>,
    zstd: (Level, bytes) -> Result<bytes, bytes>,
    unzstd: bytes -> Result<bytes, bytes>
  )

  /** What the libraries promise: decompression inverts compression at every level. */
  ghost predicate LibrariesLawful(lib: Libraries) {
    && (forall l, s :: lib.gzip(l, s).Ok? ==> lib.gunzip(lib.gzip(l, s).value) == Ok(s))
    && (forall l, s :: lib.zlib(l, s).Ok? ==> lib.unzlib(lib.zlib(l, s).value) == Ok(s))
    && (forall l, s :: lib.zstd(l, s).Ok? ==> lib.unzstd(lib.zstd(l, s).value) == Ok(s))
  }

  const ZSTD_DEFAULT_LEVEL: Level := 3

  /** The bytes `compress` appends to its destination: nothing at all for `Identity` and for an
      encoding without configuration. */
  function Compress(lib: Libraries, e: Encoding, src: bytes): Result<bytes, bytes> {
    match e
    case Gzip(Some(level)) => lib.gzip(level, src)
    case Zlib(Some(level)) => lib.zlib(level, src)
    case Zstd(Some(level)) => lib.zstd(if level == 0 then ZSTD_DEFAULT_LEVEL else level, src)
    case _ => Ok([])
  }

  /** The bytes `decompress` appends to its destination: nothing at all for `Identity`. */
  function Decompress(lib: Libraries, e: Encoding, src: bytes): Result<bytes, bytes> {
    match e
    case Gzip(_) => lib.gunzip(src)
    case Zlib(_) => lib.unzlib(src)
    case Zstd(_) => lib.unzstd(src)
    case Identity => Ok([])
  }

  /** The encodings `compress` really handles. */
  predicate Usable(e: Encoding) {
    !e.Identity? && e.config.Some?
  }

  lemma DecompressCompress(lib: Libraries, e: Encoding, received: Encoding, src: bytes)
    requires LibrariesLawful(lib) && Usable(e) && SameKind(e, received)
    ensures Compress(lib, e, src).Ok? ==> Decompress(lib, received, Compress(lib, e, src).value) == Ok(src)
  {
  }

  /** Zstd level 0 stands for level 3; every other level is passed on. */
  lemma ZstdLevels(lib: Libraries, level: Level, src: bytes)
    ensures Compress(lib, Zstd(Some(level)), src) == lib.zstd(if level == 0 then 3 else level, src)
  {
  }

  /** A peer that knows only the named format reads what is sent in it, and what it sends is read. */
  lemma PeersUnderstand(lib: Libraries, level: Level, src: bytes)
    requires LibrariesLawful(lib)
    ensures var sent := Compress(lib, Gzip(Some(level)), src); sent.Ok? ==> lib.gunzip(sent.value) == Ok(src)
    ensures var sent := Compress(lib, Zlib(Some(level)), src); sent.Ok? ==> lib.unzlib(sent.value) == Ok(src)
    ensures var sent := Compress(lib, Zstd(Some(level)), src); sent.Ok? ==> lib.unzstd(sent.value) == Ok(src)
    ensures lib.gzip(level, src).Ok? ==> Decompress(lib, Gzip(None), lib.gzip(level, src).value) == Ok(src)
    ensures lib.zlib(level, src).Ok? ==> Decompress(lib, Zlib(None), lib.zlib(level, src).value) == Ok(src)
    ensures lib.zstd(level, src).Ok? ==> Decompress(lib, Zstd(None), lib.zstd(level, src).value) == Ok(src)
  {
  }
}
