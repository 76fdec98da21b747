/** HTTP header maps: a name maps to a non-empty list of values. */
module HeaderMaps {
  import opened Bytes

  type Headers = map<string, seq<bytes>>

  /** Names reserved by the gRPC protocol (`GRPC_RESERVED_HEADERS`). */
  const RESERVED: seq<string> := [
    "te", "user-agent", "content-type", "grpc-message", "grpc-message-type", "grpc-status"
  ]

  function First(h: Headers, name: string): Option<bytes> {
    if name in h && h[name] != [] then Some(h[name][0]) else None
  }

  /** The headers without the reserved names. */
  function Sanitized(h: Headers): Headers {
    h - (set name | name in RESERVED)
  }

  class HeaderMap {
    var entries: Headers

    constructor (entries: Headers)
      ensures this.entries == entries
    {
      this.entries := entries;
    }

    /** Replaces every value of `name` by one value. */
    method Insert(name: string, value: bytes)
      modifies this
      ensures entries == old(entries)[name := [value]]
    {
      entries := entries[name := [value]];
    }

    method Remove(name: string)
      modifies this
      ensures entries == old(entries) - {name}
    {
      entries := entries - {name};
    }

    /** A name present in `other` takes all its values from `other`. */
    method Extend(other: Headers)
      modifies this
      ensures entries == old(entries) + other
    {
      entries := entries + other;
    }

    /** `into_sanitized_headers`: removes the reserved names one by one. */
    method Sanitize()
      modifies this
      ensures entries == Sanitized(old(entries))
      ensures entries == old(entries) - {"te", "user-agent", "content-type", "grpc-message", "grpc-message-type", "grpc-status"}
    {
      for i := 0 to |RESERVED|
        invariant forall name :: name in entries <==> name in old(entries) && name !in RESERVED[..i]
        invariant forall name :: name in entries ==> entries[name] == old(entries)[name]
      {
        Remove(RESERVED[i]);
        assert RESERVED[..i + 1] == RESERVED[..i] + [RESERVED[i]];
      }
      assert RESERVED[..|RESERVED|] == RESERVED;
    }
  }
}
