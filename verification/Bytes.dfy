/** What several parts of the library work on: bytes, words, and copying within a buffer. */
module Bytes {
  type Byte = x: int | 0 <= x < 256

  const TWO32 := 0x1_0000_0000

  type Word = x: int | 0 <= x < TWO32

  function Power256(n: nat): (p: nat)
    ensures p > 0
  {
    if n == 0 then 1 else 256 * Power256(n - 1)
  }

  function Power2(n: nat): (p: nat)
    ensures p > 0
  {
    if n == 0 then 1 else 2 * Power2(n - 1)
  }

  lemma {:induction false} Power2OfTwo(m: nat, n: nat)
    ensures Power2(m + n) == Power2(m) * Power2(n)
  {
    if m > 0 {
      Power2OfTwo(m - 1, n);
    }
  }

  method CopyInto<T>(buf: array<T>, at: nat, data: seq<T>)
    requires at + |data| <= buf.Length
    modifies buf
    ensures buf[..] == old(buf[..at]) + data + old(buf[at + |data|..])
    ensures buf[..at] == old(buf[..at]) && buf[at..at + |data|] == data && buf[..at + |data|] == old(buf[..at]) + data
  {
    forall i | 0 <= i < |data| {
      buf[at + i] := data[i];
    }
  }

  /** Moves `n` bytes to the front; source and target may overlap. */
  method MoveDown<T>(buf: array<T>, from: nat, n: nat)
    requires from + n <= buf.Length
    modifies buf
    ensures buf[..n] == old(buf[from..from + n]) && buf[n..] == old(buf[n..])
  {
    forall i | 0 <= i < n {
      buf[i] := buf[from + i];
    }
  }
}
