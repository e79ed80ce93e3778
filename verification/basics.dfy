/** Small shared vocabulary: optional values and raw bytes. */
module Basics {

  /** Python's `None`-or-value. */
  datatype Option<+T> = None | Some(value: T)

  /** One octet of a Python `bytes` object. */
  newtype byte = b: int | 0 <= b < 256

  type Bytes = seq<byte>

  /** `b"".join(chunks)`: the chunks laid end to end, in order. */
  function Flatten(chunks: seq<Bytes>): (r: Bytes)
  {
    if |chunks| == 0 then [] else chunks[0] + Flatten(chunks[1..])
  }

  /** Joining one more chunk at the end extends the joined bytes by exactly that chunk. */
  lemma {:induction false} FlattenAppend(chunks: seq<Bytes>, last: Bytes)
    ensures Flatten(chunks + [last]) == Flatten(chunks) + last
  {
    if |chunks| == 0 {
      assert chunks + [last] == [last];
    } else {
      assert (chunks + [last])[1..] == chunks[1..] + [last];
      FlattenAppend(chunks[1..], last);
    }
  }

  /** Joining a chunk in front of others puts its bytes in front of theirs. */
  lemma FlattenPrepend(first: Bytes, chunks: seq<Bytes>, tail: Bytes)
    ensures Flatten([first] + chunks) + tail == first + (Flatten(chunks) + tail)
  {
    assert ([first] + chunks)[1..] == chunks;
  }

  /** The length of the joined bytes is the sum of the chunk lengths; with uniform chunks it is a product. */
  lemma {:induction false} FlattenUniformLength(chunks: seq<Bytes>, width: nat)
    requires forall i :: 0 <= i < |chunks| ==> |chunks[i]| == width
    ensures |Flatten(chunks)| == |chunks| * width
  {
    if |chunks| > 0 {
      FlattenUniformLength(chunks[1..], width);
    }
  }

  function Min(a: int, b: int): int
  {
    if a <= b then a else b
  }
}
