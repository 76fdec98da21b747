/** Binary metadata values (`-bin` keys): base64 text compared and hashed by what it decodes to. */
module BinaryMetadata {
  import opened Bytes
  import Base64
  import Percent

  /** What a value feeds to the hasher. */
  datatype HashInput = Decoded(data: bytes) | Undecodable

  function FromBytes(src: bytes): (text: bytes) {
    Base64.Encode(src)
  }

  function ToBytes(text: bytes): (r: Option<bytes>) {
    Base64.Decode(text)
  }

  predicate ValuesEqual(a: bytes, b: bytes) {
    match (ToBytes(a), ToBytes(b))
    case (Some(x), Some(y)) => x == y
    case (None, None) => true
    case _ => false
  }

  function Hashed(text: bytes): HashInput {
    match ToBytes(text)
    case Some(data) => Decoded(data)
    case None => Undecodable
  }

  /** Every byte string can be stored and read back; the `unwrap` in `from_bytes` never fires
      because the text is always a legal header value. */
  lemma StoreAndRead(src: bytes)
    ensures ToBytes(FromBytes(src)) == Some(src)
    ensures Percent.HeaderSafe(FromBytes(src))
  {
    Base64.DecodeEncode(src);
    Base64.EncodeIsSymbols(src);
  }

  /** Two values are equal exactly when neither decodes, or both do and their texts differ only in
      padding; and equal values are exactly those that hash alike. Equality is therefore an
      equivalence compatible with hashing. */
  lemma EqualityIsTextUpToPadding(a: bytes, b: bytes)
    ensures ValuesEqual(a, b) <==>
            (ToBytes(a).None? && ToBytes(b).None?)
            || (ToBytes(a).Some? && ToBytes(b).Some? && Base64.Strip(a) == Base64.Strip(b))
    ensures ValuesEqual(a, b) <==> Hashed(a) == Hashed(b)
  {
    if ToBytes(a).Some? && ToBytes(b).Some? {
      Base64.EncodeDecode(a);
      Base64.EncodeDecode(b);
    }
  }
}
