/** Machine integers of the 32-bit target and the little-endian numbers it keeps in memory. */
module Bytes {
  type byte = x: int | 0 <= x < 0x100
  type uint16 = x: int | 0 <= x < 0x1_0000
  type uint32 = x: int | 0 <= x < 0x1_0000_0000

  const WORD_LIMIT := 0x1_0000_0000

  /** The largest number of `n` bytes, plus one. */
  function Limit(n: nat): (r: int)
    ensures r > 0
  {
    if n == 0 then 1 else 0x100 * Limit(n - 1)
  }

  /** The number stored in the `n` bytes from offset `i`, least significant byte first. */
  function Number(m: seq<byte>, i: int, n: nat): (w: int)
    requires 0 <= i <= |m| - n
    ensures 0 <= w < Limit(n)
    decreases n
  {
    if n == 0 then 0 else m[i] as int + 0x100 * Number(m, i + 1, n - 1)
  }

  /** The `n` bytes that store `w`. */
  function NumberBytes(w: int, n: nat): (b: seq<byte>)
    requires 0 <= w < Limit(n)
    ensures |b| == n
    decreases n
  {
    if n == 0 then [] else [w % 0x100] + NumberBytes(w / 0x100, n - 1)
  }

  lemma {:induction false} NumberRoundTrip(m: seq<byte>, i: int, w: int, n: nat)
    requires 0 <= w < Limit(n)
    requires 0 <= i <= |m| - n
    requires m[i..i + n] == NumberBytes(w, n)
    ensures Number(m, i, n) == w
    decreases n
  {
    if n > 0 {
      assert m[i] == m[i..i + n][0];
      assert m[i + 1..i + n] == m[i..i + n][1..];
      NumberRoundTrip(m, i + 1, w / 0x100, n - 1);
    }
  }

  lemma {:induction false} NumberKept(m: seq<byte>, k: seq<byte>, i: int, j: int, n: nat)
    requires 0 <= i <= |m| - n && 0 <= j <= |k| - n
    requires m[i..i + n] == k[j..j + n]
    ensures Number(m, i, n) == Number(k, j, n)
    decreases n
  {
    if n > 0 {
      assert m[i] == m[i..i + n][0] && k[j] == k[j..j + n][0];
      assert m[i + 1..i + n] == m[i..i + n][1..] && k[j + 1..j + n] == k[j..j + n][1..];
      NumberKept(m, k, i + 1, j + 1, n - 1);
    }
  }

  /** The 32-bit word stored at offset `i`. */
  function Word(m: seq<byte>, i: int): (w: uint32)
    requires 0 <= i <= |m| - 4
  {
    assert Limit(4) == WORD_LIMIT;
    Number(m, i, 4)
  }

  /** A word lies in memory least significant byte first. */
  lemma WordIs(m: seq<byte>, i: int)
    requires 0 <= i <= |m| - 4
    ensures Word(m, i) == m[i] as int + 256 * m[i + 1] as int + 65536 * m[i + 2] as int + 16777216 * m[i + 3] as int
    ensures Word(m, i) == 0 <==> m[i] == m[i + 1] == m[i + 2] == m[i + 3] == 0
  {
    assert Number(m, i + 4, 0) == 0;
    assert Number(m, i + 3, 1) == m[i + 3] as int;
    assert Number(m, i + 2, 2) == m[i + 2] as int + 0x100 * m[i + 3] as int;
    assert Number(m, i + 1, 3) == m[i + 1] as int + 0x100 * (m[i + 2] as int + 0x100 * m[i + 3] as int);
  }
}
