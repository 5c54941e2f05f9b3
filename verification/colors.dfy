/** Colour buffers: the flat R, G, B byte layout the host passes and the list
    of colours the drivers receive. */
module Colors {
  import opened Types

  /** The colours of a buffer, one per three consecutive bytes (`step_by(3)`). */
  function Chunk(bytes: seq<u8>): (cs: seq<Rgb>)
    requires |bytes| % 3 == 0
    ensures 3 * |cs| == |bytes|
    ensures |cs| > 0 ==> cs[0] == Rgb(bytes[0], bytes[1], bytes[2])
    decreases |bytes|
  {
    if |bytes| == 0 then []
    else [Rgb(bytes[0], bytes[1], bytes[2])] + Chunk(bytes[3..])
  }

  /** The flat layout of a list of colours: red, green, blue of each in turn. */
  function Flatten(cs: seq<Rgb>): (bytes: seq<u8>)
    ensures |bytes| == 3 * |cs|
    decreases |cs|
  {
    if |cs| == 0 then []
    else [cs[0].r, cs[0].g, cs[0].b] + Flatten(cs[1..])
  }

  /** Colour `i` occupies bytes `3i`, `3i + 1` and `3i + 2` of the flat layout. */
  lemma {:induction false} FlattenLayout(cs: seq<Rgb>, i: nat)
    requires i < |cs|
    ensures Flatten(cs)[3 * i] == cs[i].r
    ensures Flatten(cs)[3 * i + 1] == cs[i].g
    ensures Flatten(cs)[3 * i + 2] == cs[i].b
    decreases i
  {
    if i > 0 {
      FlattenLayout(cs[1..], i - 1);
      assert Flatten(cs)[3..] == Flatten(cs[1..]);
    }
  }

  /** Chunking a flat buffer and flattening the colours gives the buffer back. */
  lemma {:induction false} FlattenChunk(bytes: seq<u8>)
    requires |bytes| % 3 == 0
    ensures Flatten(Chunk(bytes)) == bytes
    decreases |bytes|
  {
    if |bytes| > 0 {
      var cs := Chunk(bytes);
      assert cs[1..] == Chunk(bytes[3..]);
      FlattenChunk(bytes[3..]);
      assert bytes == bytes[..3] + bytes[3..];
    }
  }

  /** Flattening a list of colours and chunking the bytes gives the list back. */
  lemma {:induction false} ChunkFlatten(cs: seq<Rgb>)
    ensures Chunk(Flatten(cs)) == cs
    decreases |cs|
  {
    if |cs| > 0 {
      var bytes := Flatten(cs);
      assert bytes[3..] == Flatten(cs[1..]);
      ChunkFlatten(cs[1..]);
      assert cs == [cs[0]] + cs[1..];
    }
  }
}
