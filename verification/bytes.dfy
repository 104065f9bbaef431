/** Bytes, little-endian integers and the integer casts the source relies on. */
module ByteStrings {

  type byte = b: int | 0 <= b < 256
  type Bytes = seq<byte>

  const U32: nat := 0x1_0000_0000
  const U64: nat := 0x1_0000_0000_0000_0000

  type u32 = n: nat | n < U32
  type u64 = n: nat | n < U64
  type i32 = n: int | -0x8000_0000 <= n < 0x8000_0000
  type i64 = n: int | -0x8000_0000_0000_0000 <= n < 0x8000_0000_0000_0000

  // ----- two's-complement casts (`as i32`, `as u32`, `as i64`, `as u64`)

  function AsI32(n: u32): i32 {
    if n < 0x8000_0000 then n else n - U32
  }

  function AsU32(n: i32): u32 {
    if 0 <= n then n else n + U32
  }

  function AsI64(n: u64): i64 {
    if n < 0x8000_0000_0000_0000 then n else n - U64
  }

  function AsU64(n: i64): u64 {
    if 0 <= n then n else n + U64
  }

  // ----- little-endian integers

  function Pow256(k: nat): (r: nat)
    ensures 0 < r
  {
    if k == 0 then 1 else 256 * Pow256(k - 1)
  }

  /** The low `width` bytes of `n`, least significant first: `(n as uN).to_le_bytes()`. */
  function LeBytes(n: nat, width: nat): (s: Bytes)
    ensures |s| == width
  {
    if width == 0 then [] else [n % 256] + LeBytes(n / 256, width - 1)
  }

  function FromLe(s: Bytes): nat {
    if s == [] then 0 else s[0] + 256 * FromLe(s[1..])
  }

  lemma Pow256Values()
    ensures Pow256(4) == U32 && Pow256(8) == U64
  {
    assert Pow256(4) == 256 * 256 * 256 * 256 * Pow256(0);
    assert Pow256(8) == 256 * 256 * 256 * 256 * Pow256(4);
  }

  lemma {:induction false} LeDecodes(n: nat, width: nat)
    requires n < Pow256(width)
    ensures FromLe(LeBytes(n, width)) == n
  {
    if width != 0 {
      LeDecodes(n / 256, width - 1);
      assert LeBytes(n, width)[1..] == LeBytes(n / 256, width - 1);
    }
  }

  lemma {:induction false} LeEncodes(s: Bytes)
    ensures FromLe(s) < Pow256(|s|)
    ensures LeBytes(FromLe(s), |s|) == s
  {
    if s != [] {
      LeEncodes(s[1..]);
      assert FromLe(s) / 256 == FromLe(s[1..]) && FromLe(s) % 256 == s[0];
      assert s == [s[0]] + s[1..];
    }
  }

  /** Four bytes hold exactly the integers below 2^32, and read back as written. */
  lemma Le32(n: u32)
    ensures FromLe(LeBytes(n, 4)) == n
  {
    Pow256Values();
    LeDecodes(n, 4);
  }

  lemma Le64(n: u64)
    ensures FromLe(LeBytes(n, 8)) == n
  {
    Pow256Values();
    LeDecodes(n, 8);
  }

  lemma Le32Encodes(s: Bytes)
    requires |s| == 4
    ensures FromLe(s) < U32 && LeBytes(FromLe(s), 4) == s
  {
    Pow256Values();
    LeEncodes(s);
  }

  function Zeros(n: nat): (s: Bytes)
    ensures |s| == n
  {
    seq(n, _ => 0)
  }

  function Reversed(s: Bytes): (r: Bytes)
    ensures |r| == |s|
    ensures forall i :: 0 <= i < |s| ==> r[i] == s[|s| - 1 - i]
  {
    seq(|s|, i requires 0 <= i < |s| => s[|s| - 1 - i])
  }

  lemma ReversedTwice(s: Bytes)
    ensures Reversed(Reversed(s)) == s
  {
  }

  /** The concatenation of all parts, in order. */
  function Concat(parts: seq<Bytes>): Bytes {
    if parts == [] then [] else parts[0] + Concat(parts[1..])
  }

  function TotalLength(parts: seq<Bytes>): nat {
    if parts == [] then 0 else |parts[0]| + TotalLength(parts[1..])
  }

  lemma {:induction false} ConcatLength(parts: seq<Bytes>)
    ensures |Concat(parts)| == TotalLength(parts)
  {
    if parts != [] {
      ConcatLength(parts[1..]);
    }
  }

  lemma {:induction false} ConcatSnoc(parts: seq<Bytes>, last: Bytes)
    ensures Concat(parts + [last]) == Concat(parts) + last
    ensures TotalLength(parts + [last]) == TotalLength(parts) + |last|
  {
    if parts == [] {
      assert parts + [last] == [last];
      assert Concat([last]) == last + Concat([]);
    } else {
      assert (parts + [last])[1..] == parts[1..] + [last];
      ConcatSnoc(parts[1..], last);
    }
  }
}
