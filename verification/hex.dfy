/** Prefixed hex, as CKB's JSON forms use it (H256 and Bytes in crates/types/src/ckb.rs). */
module Hex {
  import opened Wrappers
  import opened ByteStrings

  function Digit(n: nat): char
    requires n < 16
  {
    "0123456789abcdef"[n]
  }

  function DigitValue(c: char): Option<nat> {
    if '0' <= c <= '9' then Some((c - '0') as nat)
    else if 'a' <= c <= 'f' then Some((c - 'a') as nat + 10)
    else if 'A' <= c <= 'F' then Some((c - 'A') as nat + 10)
    else None
  }

  function Encode(s: Bytes): string {
    if s == [] then "" else [Digit(s[0] / 16), Digit(s[0] % 16)] + Encode(s[1..])
  }

  function Decode(t: string): Result<Bytes> {
    if t == "" then Ok([])
    else if |t| == 1 then Err(Malformed("odd number of digits"))
    else
      var hi, lo := DigitValue(t[0]), DigitValue(t[1]);
      if hi.None? || lo.None? || hi.value >= 16 || lo.value >= 16 then Err(Malformed("invalid hex digit"))
      else
        var rest :- Decode(t[2..]);
        Ok([hi.value * 16 + lo.value] + rest)
  }

  /** `0x`-prefixed hex. */
  function ToHex(s: Bytes): string {
    "0x" + Encode(s)
  }

  /** The prefix is optional on the way in. */
  function FromHex(t: string): Result<Bytes> {
    Decode(if "0x" <= t then t[2..] else t)
  }

  lemma DigitRoundTrip(n: nat)
    requires n < 16
    ensures DigitValue(Digit(n)) == Some(n)
  {
  }

  lemma {:induction false} DecodeEncode(s: Bytes)
    ensures Decode(Encode(s)) == Ok(s)
  {
    if s != [] {
      DecodeEncode(s[1..]);
      DigitRoundTrip(s[0] / 16);
      DigitRoundTrip(s[0] % 16);
      assert Encode(s)[2..] == Encode(s[1..]);
      assert s == [s[0]] + s[1..];
    }
  }

  lemma HexRoundTrip(s: Bytes)
    ensures FromHex(ToHex(s)) == Ok(s)
  {
    assert ToHex(s)[2..] == Encode(s);
    DecodeEncode(s);
  }
}
