/** Machine integer widths of the Rust source and the small result types used across the model. */
module Types {

  /** `u8`: one byte of a file. */
  type u8 = x: int | 0 <= x < 0x100

  /** `u32`: the width of the Adler-32 sums and of the weak hash. */
  type u32 = x: int | 0 <= x < 0x1_0000_0000

  /** `u64`: the width of the strong hash. */
  type u64 = x: int | 0 <= x < 0x1_0000_0000_0000_0000

  const U32_MODULUS: int := 0x1_0000_0000

  /** The strong (level 2) hash, `X2Hash64::sum64`, is a call into the external `xxh3` crate;
      the model takes it as a parameter and proves everything for every such function. */
  type StrongHash = seq<u8> -> u64

  /** Rust's `Option<T>`. */
  datatype Option<+T> = None | Some(value: T)

  /** The result of an operation that may `panic!`: the panic message is kept. */
  datatype Outcome<+T> = Done(value: T) | Panic(message: string)

  /** Concatenation of a sequence of byte strings. */
  function Flatten(parts: seq<seq<u8>>): (r: seq<u8>)
  {
    if parts == [] then [] else Flatten(parts[..|parts| - 1]) + parts[|parts| - 1]
  }

  lemma {:induction false} FlattenAppend(parts: seq<seq<u8>>, more: seq<seq<u8>>)
    ensures Flatten(parts + more) == Flatten(parts) + Flatten(more)
    decreases |more|
  {
    if more == [] {
      assert parts + more == parts;
    } else {
      var last := |more| - 1;
      assert (parts + more)[..|parts + more| - 1] == parts + more[..last];
      FlattenAppend(parts, more[..last]);
    }
  }
}
