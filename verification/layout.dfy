/**
 The wire layouts written out byte by byte, with every constant in the open (CKB RFC 0008 tables as
 crates/types/src/molecule.rs builds them, the lock args of crates/types/src/protocol.rs, and prefixed
 hex). What the index stores is stated in these terms, and the encoders are proved to produce them.
 */
module Layout {
  import opened Wrappers
  import opened ByteStrings
  import opened Ckb
  import opened Molecule
  import opened Protocol
  import Hex

  // ----- integers and strings

  function U32Bytes(n: nat): (s: Bytes)
    ensures |s| == 4
  {
    [n % 256, n / 256 % 256, n / 65536 % 256, n / 16777216 % 256]
  }

  function U64Bytes(n: nat): (s: Bytes)
    ensures |s| == 8
  {
    U32Bytes(n) + U32Bytes(n / 4294967296)
  }

  /** A txid as Bitcoin stores it: its displayed bytes back to front. */
  function Mirrored(txid: H256): (s: H256) {
    seq(32, i requires 0 <= i < 32 => txid[31 - i])
  }

  function NibbleChar(n: nat): char
    requires n < 16
  {
    if n < 10 then '0' + n as char else 'a' + (n - 10) as char
  }

  /** Two lower-case digits a byte, the high one first, behind `0x`. */
  function HexText(s: Bytes): string {
    ['0', 'x'] + seq(2 * |s|, i requires 0 <= i < 2 * |s| =>
                     NibbleChar(if i % 2 == 0 then s[i / 2] / 16 else s[i / 2] % 16))
  }

  // ----- scripts, cells, out points, data

  function HashTypeByte(t: ScriptHashType): byte {
    if t == Data then 0 else if t == Type then 1 else if t == Data1 then 2 else 4
  }

  function ScriptBytes(s: Script): Bytes {
    U32Bytes(53 + |s.args|) + U32Bytes(16) + U32Bytes(48) + U32Bytes(49)
    + s.codeHash + [HashTypeByte(s.hashType)] + U32Bytes(|s.args|) + s.args
  }

  function TypeBytes(type_: Option<Script>): Bytes {
    if type_.Some? then ScriptBytes(type_.value) else []
  }

  function CellBytes(c: CellOutput): Bytes {
    U32Bytes(24 + |ScriptBytes(c.lock)| + |TypeBytes(c.type_)|) + U32Bytes(16) + U32Bytes(24) + U32Bytes(24 + |ScriptBytes(c.lock)|)
    + U64Bytes(c.capacity) + ScriptBytes(c.lock) + TypeBytes(c.type_)
  }

  function PointBytes(p: OutPoint): Bytes {
    p.txHash + U32Bytes(p.index)
  }

  function DataBytes(data: Bytes): Bytes {
    U32Bytes(|data|) + data
  }

  // ----- lock args

  function SealArgsBytes(vout: nat, txid: H256): Bytes {
    U32Bytes(vout) + Mirrored(txid)
  }

  function TimeArgsBytes(target: Script, after: nat, txid: H256): Bytes {
    U32Bytes(52 + |ScriptBytes(target)|) + U32Bytes(16) + U32Bytes(16 + |ScriptBytes(target)|)
    + U32Bytes(20 + |ScriptBytes(target)|) + ScriptBytes(target) + U32Bytes(after) + Mirrored(txid)
  }

  /** The lock args a commitment covers: the last 32 bytes, the Bitcoin txid, are zero. */
  function BlankTail(args: Bytes): Bytes {
    if |args| < 32 then args else args[..|args| - 32] + seq(32, _ => 0)
  }

  // ----- the encoders produce them

  lemma LeFour(n: nat, width: nat)
    ensures LeBytes(n, width + 4) == U32Bytes(n) + LeBytes(n / 4294967296, width)
  {
    var n1, n2, n3 := n / 256, n / 65536, n / 16777216;
    assert n1 / 256 == n2 && n2 / 256 == n3 && n3 / 256 == n / 4294967296;
    assert LeBytes(n, width + 4) == [n % 256] + LeBytes(n1, width + 3);
    assert LeBytes(n1, width + 3) == [n1 % 256] + LeBytes(n2, width + 2);
    assert LeBytes(n2, width + 2) == [n2 % 256] + LeBytes(n3, width + 1);
    assert LeBytes(n3, width + 1) == [n3 % 256] + LeBytes(n / 4294967296, width);
  }

  lemma Le4(n: nat)
    ensures LeBytes(n, 4) == U32Bytes(n)
  {
    LeFour(n, 0);
  }

  lemma Le8(n: nat)
    ensures LeBytes(n, 8) == U64Bytes(n)
  {
    hide U32Bytes;
    LeFour(n, 4);
    Le4(n / 4294967296);
  }

  lemma MirroredIs(txid: H256)
    ensures ToInternalBytes(txid) == Mirrored(txid)
  {
  }

  /** A table of three fields has its offsets at bytes 4, 8 and 12. */
  lemma ThreeFieldTable(a: Bytes, b: Bytes, c: Bytes)
    ensures Table([a, b, c]) == U32Bytes(16 + |a| + |b| + |c|) + U32Bytes(16) + U32Bytes(16 + |a|) + U32Bytes(16 + |a| + |b|)
                                + a + b + c
  {
    hide LeBytes;
    var f := [a, b, c];
    assert f[1..] == [b, c] && [b, c][1..] == [c] && [c][1..] == [];
    assert TotalLength([c]) == |c| + TotalLength([]);
    assert TotalLength([b, c]) == |b| + TotalLength([c]);
    assert Concat([c]) == c + Concat([]);
    assert Concat([b, c]) == b + Concat([c]);
    assert OffsetBytes([c], 16 + |a| + |b|) == LeBytes(16 + |a| + |b|, 4) + OffsetBytes([], 16 + |a| + |b| + |c|);
    assert OffsetBytes([b, c], 16 + |a|) == LeBytes(16 + |a|, 4) + OffsetBytes([c], 16 + |a| + |b|);
    Le4(16 + |a| + |b| + |c|);
    Le4(16);
    Le4(16 + |a|);
    Le4(16 + |a| + |b|);
  }

  /** What the encoders append for data, out points, scripts and cells is the layout written out. */
  lemma DataIs(data: Bytes)
    ensures EncodeBytes(data) == DataBytes(data)
  {
    Le4(|data|);
  }

  lemma PointIs(p: OutPoint)
    ensures EncodeOutPoint(p) == PointBytes(p)
  {
    Le4(p.index);
  }

  lemma ScriptIs(s: Script)
    ensures EncodeScript(s) == ScriptBytes(s)
  {
    hide U32Bytes, Table;
    DataIs(s.args);
    ThreeFieldTable(s.codeHash, [s.hashType.ToByte()], EncodeBytes(s.args));
  }

  lemma CellIs(c: CellOutput)
    ensures EncodeCellOutput(c) == CellBytes(c)
  {
    hide U32Bytes, Table, ScriptBytes, LeBytes;
    Le8(c.capacity);
    ScriptIs(c.lock);
    if c.type_.Some? {
      ScriptIs(c.type_.value);
    }
    ThreeFieldTable(LeBytes(c.capacity, 8), EncodeScript(c.lock), EncodeScriptOpt(c.type_));
  }

  // ----- and the parsers accept exactly them

  lemma SealParsesExactly(args: Bytes, a: RgbppLockArgs)
    ensures ParseRgbpp(args) == Ok(a) <==> args == SealArgsBytes(a.outIndex, a.txid)
  {
    RgbppArgsExact(args, a);
    Le4(a.outIndex);
    MirroredIs(a.txid);
  }

  lemma TimeParsesExactly(args: Bytes, a: BtcTimeLockArgs)
    ensures ParseBtcTime(args) == Ok(a) <==> args == TimeArgsBytes(a.targetLock, a.after, a.txid) && |args| < 4294967296
  {
    hide U32Bytes, Table, ScriptBytes, LeBytes, ParseBtcTime;
    BtcTimeArgsExact(args, a);
    Le4(a.after);
    MirroredIs(a.txid);
    ScriptIs(a.targetLock);
    ThreeFieldTable(EncodeScript(a.targetLock), LeBytes(a.after, 4), ToInternalBytes(a.txid));
    assert BtcTimeHead(a) + [ToInternalBytes(a.txid)]
        == [EncodeScript(a.targetLock), LeBytes(a.after, 4), ToInternalBytes(a.txid)];
  }

  // ----- hex

  lemma {:induction false} HexDigits(s: Bytes, i: nat)
    ensures |Hex.Encode(s)| == 2 * |s|
    ensures i < |s| ==> Hex.Encode(s)[2 * i] == NibbleChar(s[i] / 16) && Hex.Encode(s)[2 * i + 1] == NibbleChar(s[i] % 16)
  {
    if s != [] {
      HexDigits(s[1..], if i == 0 then 0 else i - 1);
      DigitIs(s[0] / 16);
      DigitIs(s[0] % 16);
    }
  }

  lemma HexIs(s: Bytes)
    ensures Hex.ToHex(s) == HexText(s)
  {
    hide NibbleChar, Hex.Encode;
    HexDigits(s, 0);
    var a, b := Hex.Encode(s), HexText(s)[2..];
    forall i | 0 <= i < 2 * |s|
      ensures a[i] == b[i]
    {
      HexDigits(s, i / 2);
      assert i == 2 * (i / 2) + i % 2;
    }
    assert a == b;
  }

  lemma DigitIs(n: nat)
    requires n < 16
    ensures Hex.Digit(n) == NibbleChar(n)
  {
  }
}
