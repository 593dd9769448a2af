/**
  Text buffers. An arena is a Rust `String` seen as bytes plus an allocation:
  its length, its capacity, and a `generation` that counts how often the bytes
  have been moved to a new allocation. Any slice borrowed from an arena stays
  readable only while the generation it was borrowed at is still current.
 */
module Arenas {

  /** One UTF-8 code unit; Rust's `str::len` counts these. */
  newtype byte = b: int | 0 <= b < 256

  /** The content of a Rust `&str`, compared byte for byte like `str`'s `Eq`. */
  type Text = seq<byte>

  datatype Arena = Arena(bytes: Text, capacity: nat, generation: nat)

  /** The used part of a buffer never exceeds its allocation. */
  predicate WellFormed(a: Arena)
  {
    |a.bytes| <= a.capacity
  }

  /** `String::with_capacity(capacity)`: an empty buffer in a fresh allocation. */
  function Allocate(capacity: nat): (a: Arena)
    ensures WellFormed(a)
    ensures a.bytes == [] && a.capacity == capacity
  {
    Arena([], capacity, 0)
  }

  /** `String::push_str`. When the bytes fit in the current allocation they are
      written after the existing ones in place; otherwise the buffer is moved to a
      larger allocation first, which starts a new generation. */
  function PushStr(a: Arena, s: Text): (r: Arena)
    requires WellFormed(a)
    ensures WellFormed(r)
    ensures |r.bytes| == |a.bytes| + |s|
    ensures r.bytes[..|a.bytes|] == a.bytes && r.bytes[|a.bytes|..] == s
    ensures r.generation == a.generation <==> |a.bytes| + |s| <= a.capacity
    ensures r.generation == a.generation ==> r.capacity == a.capacity
  {
    var needed := |a.bytes| + |s|;
    if needed <= a.capacity then
      Arena(a.bytes + s, a.capacity, a.generation)
    else
      Arena(a.bytes + s, if 2 * a.capacity < needed then needed else 2 * a.capacity, a.generation + 1)
  }
}
