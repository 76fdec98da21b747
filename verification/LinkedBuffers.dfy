/** A buffer made of a list of closed nodes and one growing tail. A zero-copy insertion closes the
    tail into a node first. */
module LinkedBuffers {
  import opened Bytes

  /** What a message encoder does to the buffer. */
  datatype Piece = Write(data: bytes) | ZeroCopy(data: bytes)

  function Content(pieces: seq<Piece>): (r: bytes) {
    if pieces == [] then [] else pieces[0].data + Content(pieces[1..])
  }

  /** The nodes of a buffer whose tail is `tail` after the pieces are written. */
  function Nodes(pieces: seq<Piece>, tail: bytes): (r: seq<bytes>)
    ensures |r| > 0
    decreases |pieces|
  {
    if pieces == [] then [tail]
    else
      match pieces[0]
      case Write(data) => Nodes(pieces[1..], tail + data)
      case ZeroCopy(data) => [tail, data] + Nodes(pieces[1..], [])
  }

  /** Nothing is lost, reordered or duplicated by the node structure. */
  lemma {:induction false} NodesContent(pieces: seq<Piece>, tail: bytes)
    ensures Flatten(Nodes(pieces, tail)) == tail + Content(pieces)
    decreases |pieces|
  {
    if pieces == [] {
      assert Flatten([tail]) == tail + Flatten([]);
    } else {
      match pieces[0]
      case Write(data) =>
        NodesContent(pieces[1..], tail + data);
      case ZeroCopy(data) =>
        var rest := Nodes(pieces[1..], []);
        NodesContent(pieces[1..], []);
        assert ([tail, data] + rest)[1..] == [data] + rest;
        assert ([data] + rest)[1..] == rest;
    }
  }

  /** Whatever the tail starts with stays, whole, at the start of node 0. */
  lemma {:induction false} NodesKeepPrefix(pieces: seq<Piece>, prefix: bytes, tail: bytes)
    ensures Nodes(pieces, prefix + tail) == Nodes(pieces, tail)[0 := prefix + Nodes(pieces, tail)[0]]
    decreases |pieces|
  {
    if pieces != [] && pieces[0].Write? {
      assert prefix + tail + pieces[0].data == prefix + (tail + pieces[0].data);
      NodesKeepPrefix(pieces[1..], prefix, tail + pieces[0].data);
    }
  }

  class LinkedBytes {
    var list: seq<bytes>
    var tail: bytes

    constructor ()
      ensures list == [] && tail == []
    {
      list, tail := [], [];
    }

    function AllNodes(): seq<bytes>
      reads this
    {
      list + [tail]
    }

    function Len(): nat
      reads this
    {
      |Flatten(AllNodes())|
    }

    method PutSlice(data: bytes)
      modifies this
      ensures list == old(list) && tail == old(tail) + data
    {
      tail := tail + data;
    }

    method Insert(data: bytes)
      modifies this
      ensures list == old(list) + [old(tail), data] && tail == []
    {
      list := list + [tail, data];
      tail := [];
    }

    /** Runs an encoder's pieces against the buffer. */
    method WriteAll(pieces: seq<Piece>)
      modifies this
      ensures AllNodes() == old(list) + Nodes(pieces, old(tail))
    {
      var i := 0;
      while i < |pieces|
        invariant 0 <= i <= |pieces|
        invariant list + Nodes(pieces[i..], tail) == old(list) + Nodes(pieces, old(tail))
      {
        ghost var rest := Nodes(pieces[i + 1..], []);
        assert pieces[i..][1..] == pieces[i + 1..];
        match pieces[i] {
          case Write(data) =>
            PutSlice(data);
          case ZeroCopy(data) =>
            assert list + ([tail, data] + rest) == (list + [tail, data]) + rest;
            Insert(data);
        }
        i := i + 1;
      }
      assert pieces[i..] == [];
    }

    /** Overwrites the first bytes of node 0: the first closed node, or the tail if none is closed. */
    method PatchFront(prefix: bytes)
      requires |prefix| <= |AllNodes()[0]|
      modifies this
      ensures AllNodes() == old(AllNodes())[0 := prefix + old(AllNodes())[0][|prefix|..]]
    {
      if list != [] {
        list := list[0 := prefix + list[0][|prefix|..]];
      } else {
        tail := prefix + tail[|prefix|..];
      }
    }
  }
}
