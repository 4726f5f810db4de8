/** Bytes, 16-bit numbers, line ends and the option type the other modules share. */
module Bytes {
  type byte = x: int | 0 <= x < 256
  type bytes = seq<byte>

  /** Block numbers and message sizes are 16 bits wide. */
  const WRAP: nat := 0x10000
  type u16 = x: int | 0 <= x < 0x10000

  const CR: byte := 13
  const LF: byte := 10
  const CRLF: bytes := [CR, LF]

  datatype Option<+T> = None | Some(value: T)

  /** The concatenation of all pieces, in order. */
  function Flatten(pieces: seq<bytes>): bytes
  {
    if pieces == [] then [] else Flatten(pieces[..|pieces| - 1]) + pieces[|pieces| - 1]
  }

  lemma {:induction false} FlattenConcat(a: seq<bytes>, b: seq<bytes>)
    ensures Flatten(a + b) == Flatten(a) + Flatten(b)
    decreases |b|
  {
    if b == [] {
      assert a + b == a;
    } else {
      var n := |b| - 1;
      assert (a + b)[..|a + b| - 1] == a + b[..n];
      FlattenConcat(a, b[..n]);
    }
  }
}

/** Arithmetic on ring offsets: the remainder of a sum, for any ring size. */
module Modular {
  lemma MultipleAtLeast(size: nat, k: nat)
    requires k >= 1
    ensures size * k >= size
  {
  }

  lemma QuotientUnique(x: nat, size: nat, q: nat, r: nat)
    requires r < size && x == size * q + r
    ensures x % size == r
  {
    var q', r' := x / size, x % size;
    assert x == size * q' + r';
    if q < q' {
      MultipleAtLeast(size, q' - q);
    } else if q' < q {
      MultipleAtLeast(size, q - q');
    }
  }

  /** An offset that runs past the end of the ring is the same ring cell, one ring size later. */
  lemma RingOffset(x: nat, d: nat, size: nat)
    requires size > 0 && d <= size
    ensures (x + d) % size == if x % size + d < size then x % size + d else x % size + d - size
  {
    var q, r := x / size, x % size;
    assert x == size * q + r;
    if r + d < size {
      QuotientUnique(x + d, size, q, r + d);
    } else {
      assert x + d == size * (q + 1) + (r + d - size);
      if r + d - size < size {
        QuotientUnique(x + d, size, q + 1, r + d - size);
      }
    }
  }

  /** Two positions less than one ring apart never share a ring cell. */
  lemma RingDistinct(i: nat, j: nat, size: nat)
    requires i < j < i + size
    ensures i % size != j % size
  {
    RingOffset(i, j - i, size);
  }
}
