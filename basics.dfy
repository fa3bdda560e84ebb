/** Value types shared by every part of the pipeline model: bytes, fixed-width
    integers, an optional value, and flattening of a sequence of byte runs. */
module Basics {

  /** One element of a std::vector<uint8_t>. */
  type Byte = b: int | 0 <= b < 256

  /** The bit pattern of a 32-bit word (used for a float32 whose value is opaque). */
  type Word32 = w: int | 0 <= w < 0x1_0000_0000

  /** A C++ int / int32_t. */
  type Int32 = x: int | -0x8000_0000 <= x < 0x8000_0000

  datatype Option<T> = None | Some(value: T)

  /** The concatenation of a sequence of runs, first run first. */
  function Flatten<T>(runs: seq<seq<T>>): seq<T>
  {
    if runs == [] then [] else runs[0] + Flatten(runs[1..])
  }

  /** Flattening distributes over concatenation of the run sequences. */
  lemma {:induction false} FlattenAppend<T>(a: seq<seq<T>>, b: seq<seq<T>>)
    ensures Flatten(a + b) == Flatten(a) + Flatten(b)
  {
    if a != [] {
      assert (a + b)[1..] == a[1..] + b;
      FlattenAppend(a[1..], b);
    } else {
      assert a + b == b;
    }
  }
}
