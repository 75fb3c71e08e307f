/** The Internet checksum (sections 1 and 2 of RFC 1071) as a little-endian machine computes it. */
module InternetChecksum {
  import opened Arithmetic
  import opened Bytes

  const M := 0xFFFF

  // ---------------------------------------------------------------- specification

  /** The sum of the 16-bit words of `s`, low byte first; an odd last byte counts as it is. */
  function Sum(s: seq<byte>): (r: nat) {
    if |s| == 0 then 0
    else if |s| == 1 then s[0]
    else s[0] as int + 0x100 * s[1] as int + Sum(s[2..])
  }

  /** The same with the high byte first, as the standard writes it; an odd last byte is padded with a zero. */
  function NetworkSum(s: seq<byte>): (r: nat) {
    if |s| == 0 then 0
    else if |s| == 1 then 0x100 * s[0] as int
    else 0x100 * s[0] as int + s[1] as int + NetworkSum(s[2..])
  }

  /** Adds the carries back in until sixteen bits are left. */
  function Fold(x: nat): (r: uint16)
    decreases x
  {
    if x < 0x1_0000 then x else Fold(x % 0x1_0000 + x / 0x1_0000)
  }

  function Checksum(s: seq<byte>): uint16 {
    M - Fold(Sum(s))
  }

  function Swapped(x: uint16): uint16 {
    x % 0x100 * 0x100 + x / 0x100
  }

  // ---------------------------------------------------------------- one's-complement arithmetic

  /** Folding computes the one's-complement sum: the same residue modulo 65535, and zero for zero only. */
  lemma {:induction false} FoldIsResidue(x: nat)
    ensures Fold(x) % M == x % M
    ensures Fold(x) == 0 <==> x == 0
    decreases x
  {
    if x >= 0x1_0000 {
      var y := x % 0x1_0000 + x / 0x1_0000;
      assert x == y + M * (x / 0x1_0000);
      FoldIsResidue(y);
    }
  }

  /** A sixteen-bit number is known by its residue and by being zero or not. */
  lemma ResidueIsFold(x: nat, r: uint16)
    requires r % M == x % M && (r == 0 <==> x == 0)
    ensures Fold(x) == r
  {
    FoldIsResidue(x);
  }

  /** 32 bits hold the sum of any buffer whose length fits sixteen. */
  lemma {:induction false} SumBound(s: seq<byte>)
    ensures Sum(s) <= M * ((|s| + 1) / 2)
  {
    if |s| > 1 { SumBound(s[2..]); }
  }

  lemma NoOverflow(s: seq<byte>)
    requires |s| <= 0xFFFF
    ensures Sum(s) < WORD_LIMIT
  {
    SumBound(s);
  }

  lemma {:induction false} SumConcat(a: seq<byte>, b: seq<byte>)
    requires |a| % 2 == 0
    ensures Sum(a + b) == Sum(a) + Sum(b)
  {
    if a == [] {
      assert a + b == b;
    } else {
      assert (a + b)[2..] == a[2..] + b;
      SumConcat(a[2..], b);
    }
  }

  // ---------------------------------------------------------------- the computation

  method IpChecksum(data: seq<byte>) returns (checksum: uint16)
    requires |data| <= 0xFFFF
    ensures checksum == Checksum(data)
  {
    NoOverflow(data);
    var at, len := 0, |data|;
    var sum: uint32 := 0;
    while len > 1
      invariant 0 <= at && at + len == |data| && len >= 0 && at % 2 == 0
      invariant sum + Sum(data[at..]) == Sum(data)
      decreases len
    {
      assert data[at..][2..] == data[at + 2..];
      sum := sum + data[at] as int + 0x100 * data[at + 1] as int;
      at := at + 2;
      len := len - 2;
    }
    if len == 1 {
      sum := sum + data[at];
    }
    while sum / 0x1_0000 != 0
      invariant Fold(sum) == Fold(Sum(data))
      decreases sum
    {
      sum := sum % 0x1_0000 + sum / 0x1_0000;
    }
    checksum := M - sum;
  }

  // ---------------------------------------------------------------- verification

  /** The buffer with `c` stored low byte first at offset `k`. */
  function Stored(s: seq<byte>, k: nat, c: uint16): seq<byte>
    requires k + 2 <= |s|
  {
    s[k := c % 0x100][k + 1 := c / 0x100]
  }

  lemma SumOfWord(x: byte, y: byte, rest: seq<byte>)
    ensures Sum([x, y] + rest) == x as int + 0x100 * y as int + Sum(rest)
  {
    assert ([x, y] + rest)[2..] == rest;
  }

  lemma SumStored(s: seq<byte>, k: nat, c: uint16)
    requires k + 2 <= |s| && k % 2 == 0 && s[k] == s[k + 1] == 0
    ensures Sum(Stored(s, k, c)) == Sum(s) + c
  {
    hide Sum;
    var a, b := s[..k], s[k + 2..];
    assert s == a + ([0, 0] + b);
    assert Stored(s, k, c) == a + ([c % 0x100, c / 0x100] + b);
    SumConcat(a, [0, 0] + b);
    SumConcat(a, [c % 0x100, c / 0x100] + b);
    SumOfWord(0, 0, b);
    SumOfWord(c % 0x100, c / 0x100, b);
  }

  /** With its checksum stored in a zeroed aligned field, a whole buffer checksums to zero. */
  lemma StoredVerifies(s: seq<byte>, k: nat)
    requires k + 2 <= |s| && k % 2 == 0 && s[k] == s[k + 1] == 0
    ensures Checksum(Stored(s, k, Checksum(s))) == 0
  {
    hide Sum;
    var c := Checksum(s);
    SumStored(s, k, c);
    Complement(Sum(s));
  }

  /** A sum and its complement fold to all ones. */
  lemma Complement(x: nat)
    ensures Fold(x + (M - Fold(x))) == M
  {
    var f := Fold(x);
    FoldIsResidue(x);
    hide Fold;
    var y := x + (M - f);
    assert y == M * (x / M - f / M + 1);
    ModIs(y, M, x / M - f / M + 1, 0);
    ResidueIsFold(y, M);
  }

  lemma SameResidueIff(x: nat, c: uint16, d: uint16)
    ensures (x + c) % M == (x + d) % M <==> c == d || (c == 0 && d == M) || (c == M && d == 0)
  {
    var p, q := (x + c) / M, (x + d) / M;
    if (x + c) % M == (x + d) % M {
      assert c - d == M * (p - q);
    }
  }

  lemma SameFoldIff(x: nat, y: nat)
    requires x > 0 && y > 0
    ensures Fold(x) == Fold(y) <==> x % M == y % M
  {
    FoldIsResidue(x);
    FoldIsResidue(y);
    if x % M == y % M { ResidueIsFold(y, Fold(x)); }
  }

  /**
   Replacing one aligned word goes unnoticed exactly when nothing changed, or when 0 and 65535 were
   exchanged and some other byte is not zero.
   */
  lemma WordChangeDetected(s: seq<byte>, k: nat, c: uint16, d: uint16)
    requires k + 2 <= |s| && k % 2 == 0 && s[k] == s[k + 1] == 0
    ensures Checksum(Stored(s, k, c)) == Checksum(Stored(s, k, d)) <==>
            c == d || (((c == 0 && d == M) || (c == M && d == 0)) && exists i | 0 <= i < |s| :: s[i] != 0)
  {
    SumStored(s, k, c);
    SumStored(s, k, d);
    SumIsZeroIff(s);
    if Sum(s) > 0 {
      SameFoldIff(Sum(s) + c, Sum(s) + d);
      SameResidueIff(Sum(s), c, d);
    }
  }

  lemma {:induction false} SumIsZeroIff(s: seq<byte>)
    ensures Sum(s) == 0 <==> forall i | 0 <= i < |s| :: s[i] == 0
  {
    if |s| > 1 {
      SumIsZeroIff(s[2..]);
      assert forall i | 2 <= i < |s| :: s[i] == s[2..][i - 2];
    }
  }

  // ---------------------------------------------------------------- byte order

  lemma {:induction false} NetworkSumResidue(s: seq<byte>)
    ensures NetworkSum(s) % M == (0x100 * Sum(s)) % M
    ensures NetworkSum(s) == 0 <==> Sum(s) == 0
  {
    if |s| > 1 {
      NetworkSumResidue(s[2..]);
      WordResidue(s[0], s[1], NetworkSum(s[2..]), Sum(s[2..]));
    }
  }

  /** One word in either order: swapping its bytes multiplies by 256 modulo 65535. */
  lemma WordResidue(a: byte, b: byte, x: nat, y: nat)
    requires x % M == (0x100 * y) % M
    ensures (0x100 * a as int + b as int + x) % M == (0x100 * (a as int + 0x100 * b as int + y)) % M
  {
    var w: nat := 0x100 * a as int + b as int;
    var r := x % M;
    AddMultiple(w + r, x / M);
    AddMultiple(w + r, 0x100 * y / M);
    AddMultiple(w + 0x100 * y, b);
  }

  lemma SwapIsTimes256(x: uint16)
    ensures Swapped(x) % M == (0x100 * x) % M
    ensures Swapped(x) == 0 <==> x == 0
  {
    assert 0x100 * x == Swapped(x) + M * (x / 0x100);
    AddMultiple(Swapped(x), x / 0x100);
  }

  lemma SwapComplement(x: uint16)
    ensures Swapped(M - x) == M - Swapped(x)
  {
    var q, r := x / 0x100, x % 0x100;
    assert M - x == 0x100 * (0xFF - q) + (0xFF - r);
    assert (M - x) / 0x100 == 0xFF - q && (M - x) % 0x100 == 0xFF - r;
  }

  /** Summing in either byte order stores the same two bytes. */
  lemma ByteOrderIndependent(s: seq<byte>)
    ensures M - Fold(NetworkSum(s)) == Swapped(Checksum(s))
  {
    var f := Fold(Sum(s));
    FoldIsResidue(Sum(s));
    NetworkSumResidue(s);
    SwapIsTimes256(f);
    SwapComplement(f);
    TimesResidue(f, Sum(s));
    ResidueIsFold(NetworkSum(s), Swapped(f));
  }

  lemma AddMultiple(x: nat, k: nat)
    ensures (x + M * k) % M == x % M
  {
    ModIs(x + M * k, M, x / M + k, x % M);
  }

  lemma TimesResidue(a: nat, b: nat)
    requires a % M == b % M
    ensures (0x100 * a) % M == (0x100 * b) % M
  {
    var r := a % M;
    AddMultiple(0x100 * r, 0x100 * (a / M));
    AddMultiple(0x100 * r, 0x100 * (b / M));
  }
}
