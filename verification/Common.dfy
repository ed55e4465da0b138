/** Small vocabulary shared by the other modules. */
module Common {

  datatype Option<+T> = None | Some(value: T)

  /** Go's `byte`: sequences of it stand for both []byte and string. */
  type byte = x: int | 0 <= x < 256 witness 0

  /** A uint32. */
  type word = x: int | 0 <= x < 0x1_0000_0000 witness 0

  function Min(a: int, b: int): int {
    if a <= b then a else b
  }

  lemma Assoc(a: seq<byte>, b: seq<byte>, c: seq<byte>)
    ensures (a + b) + c == a + (b + c)
  {
  }
}
