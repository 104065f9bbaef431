/**
 The commitment pre-image and the OP_RETURN scan (crates/types/src/commitment.rs).

 The pre-image concatenates self-delimiting parts behind two one-byte counts. It determines the
 committed transaction prefix exactly as long as the input count fits its byte; the output count
 byte is redundant.
 */
module Commitment {
  import opened Wrappers
  import opened ByteStrings
  import opened Ckb
  import opened Molecule
  import opened Layout

  type u16 = n: nat | n < 0x1_0000

  datatype Entry = Entry(output: CellOutput, data: Bytes)

  datatype CommitmentPreimage = CommitmentPreimage(version: u16, inputs: seq<OutPoint>, outputs: seq<Entry>)

  const RGBPP_TAG: Bytes := [0x52, 0x47, 0x42, 0x2b, 0x2b]

  function EncodeEntry(e: Entry): Bytes {
    EncodeCellOutput(e.output) + EncodeBytes(e.data)
  }

  function Points(inputs: seq<OutPoint>): (s: Bytes)
    ensures |s| == 36 * |inputs|
  {
    if inputs == [] then [] else EncodeOutPoint(inputs[0]) + Points(inputs[1..])
  }

  function Entries(outputs: seq<Entry>): Bytes {
    if outputs == [] then [] else EncodeEntry(outputs[0]) + Entries(outputs[1..])
  }

  function Head(p: CommitmentPreimage): (s: Bytes)
    ensures |s| == 9
  {
    RGBPP_TAG + [p.version / 256, p.version % 256] + [|p.inputs| % 256, |p.outputs| % 256]
  }

  function Preimage(p: CommitmentPreimage): Bytes {
    Head(p) + Points(p.inputs) + Entries(p.outputs)
  }

  // ----- the pre-image byte by byte

  function PointsLaidOut(points: seq<OutPoint>): Bytes {
    if points == [] then [] else PointBytes(points[0]) + PointsLaidOut(points[1..])
  }

  function EntriesLaidOut(outputs: seq<Entry>): Bytes {
    if outputs == [] then []
    else CellBytes(outputs[0].output) + DataBytes(outputs[0].data) + EntriesLaidOut(outputs[1..])
  }

  /** `RGB++`, the version high byte first, the two counts, the out points, and each output with its data. */
  function LaidOut(version: u16, points: seq<OutPoint>, outputs: seq<Entry>): Bytes {
    [0x52, 0x47, 0x42, 0x2b, 0x2b, version / 256, version % 256, |points| % 256, |outputs| % 256]
    + PointsLaidOut(points) + EntriesLaidOut(outputs)
  }

  lemma {:induction false} PointsAreLaidOut(points: seq<OutPoint>)
    ensures Points(points) == PointsLaidOut(points)
  {
    hide EncodeOutPoint, PointBytes;
    if points != [] {
      PointIs(points[0]);
      PointsAreLaidOut(points[1..]);
    }
  }

  lemma {:induction false} EntriesAreLaidOut(outputs: seq<Entry>)
    ensures Entries(outputs) == EntriesLaidOut(outputs)
  {
    hide EncodeCellOutput, EncodeBytes, CellBytes, DataBytes;
    if outputs != [] {
      CellIs(outputs[0].output);
      DataIs(outputs[0].data);
      EntriesAreLaidOut(outputs[1..]);
    }
  }

  lemma PreimageIsLaidOut(p: CommitmentPreimage)
    ensures Preimage(p) == LaidOut(p.version, p.inputs, p.outputs)
  {
    hide Points, Entries, PointsLaidOut, EntriesLaidOut;
    PointsAreLaidOut(p.inputs);
    EntriesAreLaidOut(p.outputs);
  }

  lemma {:induction false} PointsSnoc(inputs: seq<OutPoint>, last: OutPoint)
    ensures Points(inputs + [last]) == Points(inputs) + EncodeOutPoint(last)
  {
    hide LeBytes;
    if inputs == [] {
      assert inputs + [last] == [last];
      assert Points([last]) == EncodeOutPoint(last) + Points([]);
    } else {
      assert (inputs + [last])[1..] == inputs[1..] + [last];
      PointsSnoc(inputs[1..], last);
    }
  }

  lemma {:induction false} EntriesSnoc(outputs: seq<Entry>, last: Entry)
    ensures Entries(outputs + [last]) == Entries(outputs) + EncodeEntry(last)
  {
    hide EncodeEntry;
    if outputs == [] {
      assert outputs + [last] == [last];
      assert Entries([last]) == EncodeEntry(last) + Entries([]);
    } else {
      assert (outputs + [last])[1..] == outputs[1..] + [last];
      EntriesSnoc(outputs[1..], last);
    }
  }

  method Encode(p: CommitmentPreimage) returns (buf: Bytes)
    ensures buf == Preimage(p) == LaidOut(p.version, p.inputs, p.outputs)
  {
    hide LeBytes, EncodeOutPoint, EncodeCellOutput, EncodeBytes, Points, Entries, LaidOut;
    PreimageIsLaidOut(p);
    buf := RGBPP_TAG;
    buf := buf + [p.version / 256, p.version % 256];
    buf := buf + [|p.inputs| % 256];
    buf := buf + [|p.outputs| % 256];
    assert buf == Head(p);
    ghost var head := buf;
    NoPoints();
    NoEntries();
    for i := 0 to |p.inputs|
      invariant buf == head + Points(p.inputs[..i])
    {
      PointsSnoc(p.inputs[..i], p.inputs[i]);
      assert p.inputs[..i + 1] == p.inputs[..i] + [p.inputs[i]];
      buf := buf + EncodeOutPoint(p.inputs[i]);
    }
    assert p.inputs[..|p.inputs|] == p.inputs;
    ghost var front := buf;
    for i := 0 to |p.outputs|
      invariant buf == front + Entries(p.outputs[..i])
    {
      EntriesSnoc(p.outputs[..i], p.outputs[i]);
      assert p.outputs[..i + 1] == p.outputs[..i] + [p.outputs[i]];
      buf := buf + EncodeCellOutput(p.outputs[i].output);
      buf := buf + EncodeBytes(p.outputs[i].data);
    }
    assert p.outputs[..|p.outputs|] == p.outputs;
  }

  // ----- unique decodability

  /** Every length in the pre-image fits the u32 that records it. */
  predicate EntrySized(e: Entry) {
    |EncodeCellOutput(e.output)| < U32 && |e.data| < U32
  }

  predicate Sized(p: CommitmentPreimage) {
    forall i :: 0 <= i < |p.outputs| ==> EntrySized(p.outputs[i])
  }

  /** A table is self-delimiting: its first four bytes say where it ends. */
  lemma TablePrefix(a: seq<Bytes>, b: seq<Bytes>, restA: Bytes, restB: Bytes)
    requires TableSize(a) < U32 && TableSize(b) < U32
    requires Table(a) + restA == Table(b) + restB
    ensures Table(a) == Table(b) && restA == restB
  {
    hide LeBytes, FromLe;
    TableLength(a);
    TableLength(b);
    assert (Table(a) + restA)[..4] == LeBytes(TableSize(a), 4);
    assert (Table(b) + restB)[..4] == LeBytes(TableSize(b), 4);
    Le32(TableSize(a));
    Le32(TableSize(b));
    assert (Table(a) + restA)[..TableSize(a)] == Table(a);
    assert (Table(b) + restB)[..TableSize(a)] == Table(b);
    assert (Table(a) + restA)[TableSize(a)..] == restA;
    assert (Table(b) + restB)[TableSize(a)..] == restB;
  }

  lemma BytesPrefix(a: Bytes, b: Bytes, restA: Bytes, restB: Bytes)
    requires |a| < U32 && |b| < U32
    requires EncodeBytes(a) + restA == EncodeBytes(b) + restB
    ensures a == b && restA == restB
  {
    hide LeBytes, FromLe;
    var x, y := EncodeBytes(a) + restA, EncodeBytes(b) + restB;
    assert x[..4] == LeBytes(|a|, 4) && y[..4] == LeBytes(|b|, 4);
    Le32(|a|);
    Le32(|b|);
    assert x[4..4 + |a|] == a && y[4..4 + |a|] == b;
    assert x[4 + |a|..] == restA && y[4 + |a|..] == restB;
  }

  lemma EntryPrefix(a: Entry, b: Entry, restA: Bytes, restB: Bytes)
    requires EntrySized(a) && EntrySized(b)
    requires EncodeEntry(a) + restA == EncodeEntry(b) + restB
    ensures a == b && restA == restB
  {
    hide LeBytes, FromLe, Table, EncodeBytes;
    var ra, rb := EncodeBytes(a.data) + restA, EncodeBytes(b.data) + restB;
    assert EncodeEntry(a) + restA == EncodeCellOutput(a.output) + ra;
    assert EncodeEntry(b) + restB == EncodeCellOutput(b.output) + rb;
    TableLength(CellOutputFields(a.output));
    TableLength(CellOutputFields(b.output));
    TablePrefix(CellOutputFields(a.output), CellOutputFields(b.output), ra, rb);
    CellOutputInjective(a.output, b.output);
    BytesPrefix(a.data, b.data, restA, restB);
  }

  lemma EntryNonEmpty(e: Entry)
    ensures EncodeEntry(e) != []
  {
    hide LeBytes;
    assert |EncodeBytes(e.data)| >= 4;
  }

  /** Concatenated entries decode uniquely, however many there are. */
  lemma {:induction false} EntriesInjective(a: seq<Entry>, b: seq<Entry>)
    requires forall i :: 0 <= i < |a| ==> EntrySized(a[i])
    requires forall i :: 0 <= i < |b| ==> EntrySized(b[i])
    requires Entries(a) == Entries(b)
    ensures a == b
  {
    hide EncodeEntry, EntrySized;
    if a == [] || b == [] {
      if a != [] {
        EntryNonEmpty(a[0]);
      }
      if b != [] {
        EntryNonEmpty(b[0]);
      }
    } else {
      EntryPrefix(a[0], b[0], Entries(a[1..]), Entries(b[1..]));
      EntriesInjective(a[1..], b[1..]);
      assert a == [a[0]] + a[1..] && b == [b[0]] + b[1..];
    }
  }

  lemma {:induction false} PointsInjective(a: seq<OutPoint>, b: seq<OutPoint>)
    requires |a| == |b| && Points(a) == Points(b)
    ensures a == b
  {
    hide EncodeOutPoint;
    if a != [] {
      assert Points(a)[..36] == EncodeOutPoint(a[0]) && Points(b)[..36] == EncodeOutPoint(b[0]);
      assert Points(a)[36..] == Points(a[1..]) && Points(b)[36..] == Points(b[1..]);
      OutPointInjective(a[0], b[0]);
      PointsInjective(a[1..], b[1..]);
      assert a == [a[0]] + a[1..] && b == [b[0]] + b[1..];
    }
  }

  lemma PreimageParts(a: CommitmentPreimage, b: CommitmentPreimage)
    requires Preimage(a) == Preimage(b)
    ensures a.version == b.version && |a.inputs| % 256 == |b.inputs| % 256
    ensures |a.inputs| == |b.inputs| ==>
              Points(a.inputs) == Points(b.inputs) && Entries(a.outputs) == Entries(b.outputs)
  {
    hide Points, Entries;
    var x, y := Preimage(a), Preimage(b);
    assert x[5] == a.version / 256 && x[6] == a.version % 256 && x[7] == |a.inputs| % 256;
    assert y[5] == b.version / 256 && y[6] == b.version % 256 && y[7] == |b.inputs| % 256;
    var n := 9 + 36 * |a.inputs|;
    assert x[9..n] == Points(a.inputs) && x[n..] == Entries(a.outputs);
    if |a.inputs| == |b.inputs| {
      assert y[9..n] == Points(b.inputs) && y[n..] == Entries(b.outputs);
    }
  }

  /** With at most 255 inputs on each side, equal pre-images commit to the same transaction prefix. */
  lemma PreimageDecodesUniquely(a: CommitmentPreimage, b: CommitmentPreimage)
    requires Sized(a) && Sized(b) && |a.inputs| <= 255 && |b.inputs| <= 255
    requires Preimage(a) == Preimage(b)
    ensures a == b
  {
    hide Preimage, EntrySized;
    PreimageParts(a, b);
    PointsInjective(a.inputs, b.inputs);
    EntriesInjective(a.outputs, b.outputs);
  }

  // ----- the input count byte: where uniqueness ends

  ghost predicate UniqueUpTo(maxInputs: nat) {
    forall a: CommitmentPreimage, b: CommitmentPreimage ::
      Sized(a) && Sized(b) && |a.inputs| <= maxInputs && |b.inputs| <= maxInputs && Preimage(a) == Preimage(b)
      ==> a == b
  }

  function PointOf(w: Bytes): OutPoint
    requires |w| == 36
  {
    Le32Encodes(w[32..]);
    OutPoint(w[..32], FromLe(w[32..]))
  }

  /** Any 36 n bytes are the encoding of n out points. */
  lemma {:induction false} BytesArePoints(w: Bytes, n: nat) returns (points: seq<OutPoint>)
    requires |w| == 36 * n
    ensures |points| == n && Points(points) == w
  {
    if n == 0 {
      points := [];
    } else {
      var rest := BytesArePoints(w[36..], n - 1);
      Le32Encodes(w[..36][32..]);
      points := [PointOf(w[..36])] + rest;
      assert points[1..] == rest;
      assert EncodeOutPoint(points[0]) == w[..36];
      assert w == w[..36] + w[36..];
    }
  }

  predicate DistinctPoints(inputs: seq<OutPoint>) {
    forall i, j :: 0 <= i < j < |inputs| ==> inputs[i] != inputs[j]
  }

  lemma {:induction false} PointsAppend(a: seq<OutPoint>, b: seq<OutPoint>)
    ensures Points(a + b) == Points(a) + Points(b)
  {
    hide EncodeOutPoint;
    if a == [] {
      assert a + b == b;
    } else {
      assert (a + b)[1..] == a[1..] + b;
      PointsAppend(a[1..], b);
    }
  }

  lemma {:induction false} PointSlice(points: seq<OutPoint>, i: nat)
    requires i < |points|
    ensures Points(points)[36 * i..36 * i + 36] == EncodeOutPoint(points[i])
  {
    hide LeBytes, EncodeOutPoint;
    if i > 0 {
      PointSlice(points[1..], i - 1);
      var rest := Points(points[1..]);
      assert Points(points)[36..] == rest;
      assert Points(points)[36 * i..36 * i + 36] == rest[36 * (i - 1)..36 * (i - 1) + 36];
    }
  }

  lemma PointStarts(points: seq<OutPoint>, i: nat)
    requires i < |points|
    ensures points[i].txHash == Points(points)[36 * i..36 * i + 32]
  {
    hide LeBytes, Points;
    PointSlice(points, i);
    assert Points(points)[36 * i..36 * i + 32] == Points(points)[36 * i..36 * i + 36][..32];
  }

  // A cell as an issuance creates it: no capacity or type to speak of, and lock args of 36 zero bytes, which
  // are the RGB++ args of output 0 with the Bitcoin txid replaced by the placeholder.

  function SealCell(codeHash: H256, hashType: ScriptHashType): CellOutput {
    CellOutput(0, Script(codeHash, hashType, Zeros(36)), None)
  }

  /** The total size, the last offset and the fields of a three-field table, as bytes of it. */
  lemma ThreeFields(fields: seq<Bytes>, a: nat, b: nat)
    requires |fields| == 3 && a == |fields[0]| && b == |fields[1]|
    ensures var t := Table(fields);
            && |t| == 16 + a + b + |fields[2]| && t[0..4] == LeBytes(|t|, 4) && t[12..16] == LeBytes(16 + a + b, 4)
            && t[16..16 + a] == fields[0] && t[16 + a..16 + a + b] == fields[1] && t[16 + a + b..] == fields[2]
  {
    hide LeBytes, Concat, TotalLength;
    var t := Table(fields);
    TableLength(fields);
    Totals(fields);
    OffsetEntry(fields, 16, 2);
    ConcatSlice(fields, 0);
    ConcatSlice(fields, 1);
    ConcatSlice(fields, 2);
    assert t[4..16] == OffsetBytes(fields, 16);
    assert t[16..] == Concat(fields);
    FieldSlice(t, 16, 0, a);
    FieldSlice(t, 16, a, a + b);
    FieldSlice(t, 16, a + b, |t| - 16);
    assert t[4..16][8..12] == t[12..16];
    assert t[16 + a + b..|t|] == t[16 + a + b..];
  }

  lemma FieldSlice(t: Bytes, start: nat, from: nat, to: nat)
    requires from <= to && start + to <= |t|
    ensures t[start..][from..to] == t[start + from..start + to]
  {
  }

  lemma Totals(fields: seq<Bytes>)
    requires |fields| == 3
    ensures TotalLength(fields[..0]) == 0 && TotalLength(fields[..1]) == |fields[0]|
    ensures TotalLength(fields[..2]) == |fields[0]| + |fields[1]|
    ensures TotalLength(fields) == |fields[0]| + |fields[1]| + |fields[2]|
  {
    TotalLengthPrefix(fields, 0);
    TotalLengthPrefix(fields, 1);
    TotalLengthPrefix(fields, 2);
    assert fields[..3] == fields;
  }

  lemma SealScriptBytes(codeHash: H256, hashType: ScriptHashType)
    ensures var s := EncodeScript(Script(codeHash, hashType, Zeros(36)));
            |s| == 89 && s[12] == 49 && s[48] == hashType.ToByte() && s[49] == 36 && s[84] == 0 && s[85] == 0
  {
    hide LeBytes, Table;
    var f := ScriptFields(Script(codeHash, hashType, Zeros(36)));
    var s := Table(f);
    ThreeFields(f, 32, 1);
    SmallLe(49);
    SmallLe(36);
    assert s[12] == s[12..16][0] && s[48] == s[48..49][0] && s[49] == s[49..][0];
    assert s[84] == s[49..][35] && s[85] == s[49..][36];
    assert f[2] == LeBytes(36, 4) + Zeros(36);
  }

  lemma SealBytes(codeHash: H256, hashType: ScriptHashType)
    ensures var c := EncodeCellOutput(SealCell(codeHash, hashType));
            |c| == 113 && c[0] == 113 && c[24..] == EncodeScript(Script(codeHash, hashType, Zeros(36)))
  {
    hide LeBytes, EncodeScript, Table;
    var f := CellOutputFields(SealCell(codeHash, hashType));
    var c := Table(f);
    ScriptLength(Script(codeHash, hashType, Zeros(36)));
    ThreeFields(f, 8, 89);
    SmallLe(113);
    assert c[0] == c[0..4][0];
    assert c[24..113] == c[24..];
  }

  lemma SmallLe(n: nat)
    requires n < 0x1_0000
    ensures LeBytes(n, 4) == [n % 256, n / 256, 0, 0]
  {
    assert LeBytes(n, 4) == [n % 256] + LeBytes(n / 256, 3);
    assert LeBytes(n / 256, 3) == [n / 256] + LeBytes(0, 2);
    assert LeBytes(0, 2) == [0] + LeBytes(0, 1);
    assert LeBytes(0, 1) == [0] + LeBytes(0, 0);
  }

  /** The first bytes of the four out points that the front of an output, read as inputs, spells. */
  function FrontBytes(codeHash: H256, hashType: ScriptHashType): Bytes {
    EncodeCellOutput(SealCell(codeHash, hashType)) + LeBytes(9216, 4) + Zeros(27)
  }

  lemma FrontStarts(codeHash: H256, hashType: ScriptHashType)
    ensures var w := FrontBytes(codeHash, hashType);
            && |w| == 144
            && w[0] == 113 && w[36] == 49 && w[72] == hashType.ToByte() && w[73] == 36 && w[108] == 0 && w[109] == 0
  {
    hide LeBytes, EncodeCellOutput, EncodeScript;
    SealBytes(codeHash, hashType);
    SealScriptBytes(codeHash, hashType);
    SmallLe(9216);
    var c, w := EncodeCellOutput(SealCell(codeHash, hashType)), FrontBytes(codeHash, hashType);
    assert w[..113] == c;
    assert c[36] == c[24..][12] && c[72] == c[24..][48] && c[73] == c[24..][49];
    assert c[108] == c[24..][84] && c[109] == c[24..][85];
  }

  /** Out points of a shape the front never has, all different. */
  function Filler(i: nat): OutPoint
    requires i < 252
  {
    OutPoint([255, i] + Zeros(30), 0)
  }

  function Fillers(): (points: seq<OutPoint>)
    ensures |points| == 252
  {
    seq(252, i requires 0 <= i < 252 => Filler(i))
  }

  lemma DistinctInputs(codeHash: H256, hashType: ScriptHashType, front: seq<OutPoint>)
    requires |front| == 4 && Points(front) == FrontBytes(codeHash, hashType)
    ensures DistinctPoints(front + Fillers())
  {
    hide FrontBytes, Points;
    var w := FrontBytes(codeHash, hashType);
    FrontStarts(codeHash, hashType);
    PointStarts(front, 0);
    PointStarts(front, 1);
    PointStarts(front, 2);
    PointStarts(front, 3);
    assert front[0].txHash[0] == 113 && front[1].txHash[0] == 49 && front[2].txHash[0] == hashType.ToByte();
    assert front[2].txHash[1] == 36 && front[3].txHash[0] == 0 && front[3].txHash[1] == 0;
    forall i | 0 <= i < 252
      ensures Fillers()[i].txHash[0] == 255 && Fillers()[i].txHash[1] == i
    {
    }
    var all := front + Fillers();
    forall i, j | 0 <= i < j < |all|
      ensures all[i] != all[j]
    {
      if j < 4 {
      } else {
        assert all[j] == Fillers()[j - 4];
        if 4 <= i {
          assert all[i] == Fillers()[i - 4];
        }
      }
    }
  }

  /**
   One output whose data hides 256 inputs and another output, against those 256 inputs, all different, and
   that output: both counts cut to the bytes 0 and 1, and the bodies coincide.
   */
  lemma CountByteCollision(codeHash: H256, hashType: ScriptHashType)
    returns (a: CommitmentPreimage, b: CommitmentPreimage, data: Bytes)
    ensures a == CommitmentPreimage(0, [], [Entry(SealCell(codeHash, hashType), data)])
    ensures b == CommitmentPreimage(0, b.inputs, [Entry(SealCell(codeHash, hashType), [])])
    ensures |b.inputs| == 256 && DistinctPoints(b.inputs) && Sized(a) && Sized(b)
    ensures Preimage(a) == Preimage(b)
  {
    hide EncodeCellOutput, LeBytes, FromLe, Points, DistinctPoints;
    SealBytes(codeHash, hashType);
    var cell := SealCell(codeHash, hashType);
    var tail := EncodeEntry(Entry(cell, []));
    data := Zeros(27) + Points(Fillers()) + tail;
    var front := BytesArePoints(FrontBytes(codeHash, hashType), 4);
    DistinctInputs(codeHash, hashType, front);
    PointsAppend(front, Fillers());
    a := CommitmentPreimage(0, [], [Entry(cell, data)]);
    b := CommitmentPreimage(0, front + Fillers(), [Entry(cell, [])]);
    assert Entries(a.outputs) == EncodeEntry(Entry(cell, data)) + Entries([]);
    assert Entries(b.outputs) == tail + Entries([]);
    assert EncodeEntry(Entry(cell, data)) == Points(b.inputs) + tail;
    assert Head(a) == Head(b);
    NoPoints();
  }

  lemma NoPoints()
    ensures Points([]) == []
  {
  }

  /** The encoding tells all contents with up to `maxInputs` inputs apart iff the byte can hold that count. */
  lemma UniqueExactlyUpTo255(maxInputs: nat)
    ensures UniqueUpTo(maxInputs) <==> maxInputs <= 255
  {
    hide Preimage, Sized;
    if maxInputs <= 255 {
      forall a: CommitmentPreimage, b: CommitmentPreimage |
        Sized(a) && Sized(b) && |a.inputs| <= maxInputs && |b.inputs| <= maxInputs && Preimage(a) == Preimage(b)
        ensures a == b
      {
        PreimageDecodesUniquely(a, b);
      }
    } else {
      var a, b, data := CountByteCollision(Zeros(32), Data);
      assert a != b;
    }
  }

  // ----- what a longer input list would have to contain

  lemma Inner(t: Bytes, s: Bytes, at: nat, i: nat, j: nat)
    requires at + |s| <= |t| && t[at..at + |s|] == s && i <= j <= |s|
    ensures t[at + i..at + j] == s[i..j]
  {
    forall k | i <= k < j
      ensures t[at + k] == s[k]
    {
      assert t[at..at + |s|][k] == t[at + k];
    }
    assert t[at + i..at + j] == s[i..j];
  }

  /** The code hash of a cell's lock sits at bytes 40 to 72 of its encoding. */
  lemma LockBytes(output: CellOutput)
    ensures var t := EncodeCellOutput(output);
            |t| >= 77 && t[40..72] == output.lock.codeHash
  {
    hide U32Bytes, U64Bytes, EncodeCellOutput;
    CellIs(output);
    var t, s := CellBytes(output), ScriptBytes(output.lock);
    assert |s| >= 53 && s[16..48] == output.lock.codeHash;
    Inner(t, s, 24, 16, 48);
  }

  /** The output index that the end of a code hash spells. */
  function SpelledIndex(codeHash: H256): u32 {
    Le32Encodes(codeHash[28..32]);
    FromLe(codeHash[28..32])
  }

  lemma EntryFront(outputs: seq<Entry>)
    requires outputs != []
    ensures |Entries(outputs)| >= 77 && Entries(outputs)[40..72] == outputs[0].output.lock.codeHash
  {
    hide EncodeCellOutput;
    LockBytes(outputs[0].output);
    var t := EncodeCellOutput(outputs[0].output);
    assert Entries(outputs)[..|t|] == t;
    assert Entries(outputs)[40..72] == t[40..72];
  }

  lemma IndexBytes(p: OutPoint, codeHash: H256)
    requires EncodeOutPoint(p)[32..36] == codeHash[28..32]
    ensures p.index == SpelledIndex(codeHash)
  {
    hide LeBytes, FromLe;
    Le32(p.index);
    assert EncodeOutPoint(p)[32..36] == LeBytes(p.index, 4);
  }

  /**
   Contents with different numbers of inputs share an encoding only if one input of the longer list has the
   index spelled by the code hash of the shorter one's first output.
   */
  lemma LongerSpellsIndex(a: CommitmentPreimage, b: CommitmentPreimage)
    requires Preimage(a) == Preimage(b) && |a.inputs| < |b.inputs|
    ensures a.outputs != [] && |a.inputs| + 1 < |b.inputs|
    ensures b.inputs[|a.inputs| + 1].index == SpelledIndex(a.outputs[0].output.lock.codeHash)
  {
    hide EncodeOutPoint, Points, Entries, FromLe, SpelledIndex;
    PreimageParts(a, b);
    var n := |a.inputs|;
    var x, y := Preimage(a)[9..], Preimage(b)[9..];
    assert x == Points(a.inputs) + Entries(a.outputs) && y == Points(b.inputs) + Entries(b.outputs);
    NoEntries();
    assert |Entries(a.outputs)| >= 36 * (|b.inputs| - n);
    EntryFront(a.outputs);
    PointSlice(b.inputs, n + 1);
    assert x[36 * n..][40..72] == Entries(a.outputs)[40..72];
    assert y[36 * (n + 1)..36 * (n + 1) + 36] == EncodeOutPoint(b.inputs[n + 1]);
    assert x[36 * n + 68..36 * n + 72] == x[36 * n..][40..72][28..32];
    assert y[36 * n + 68..36 * n + 72] == y[36 * (n + 1)..36 * (n + 1) + 36][32..36];
    IndexBytes(b.inputs[n + 1], a.outputs[0].output.lock.codeHash);
  }

  lemma NoEntries()
    ensures Entries([]) == []
  {
  }

  // ----- finding a published commitment

  function OpReturnPayload(script: Bytes): Option<Bytes> {
    if |script| < 2 || script[0] != 0x6a then None
    else
      var rest := script[1..];
      var n := rest[0];
      if 0x01 <= n <= 0x4b then Push(n, rest[1..])
      else if n == 0x4c then if |rest| < 2 then None else Push(rest[1], rest[2..])
      else if n == 0x4d then if |rest| < 3 then None else Push(FromLe(rest[1..3]), rest[3..])
      else if n == 0x4e then if |rest| < 5 then None else Push(FromLe(rest[1..5]), rest[5..])
      else None
  }

  function Push(len: nat, rest: Bytes): Option<Bytes> {
    if |rest| < len then None else Some(rest[..len])
  }

  predicate Tagged(script: Bytes) {
    var p := OpReturnPayload(script);
    p.Some? && |p.value| == 37 && RGBPP_TAG <= p.value
  }

  predicate Bare(script: Bytes) {
    var p := OpReturnPayload(script);
    p.Some? && |p.value| == 32
  }

  /**
   An OP_RETURN script that pushes `payload`: directly if that has 1 to 75 bytes, or behind one of the three
   push opcodes with a length of one, two or four bytes. Whatever follows the push is ignored.
   */
  predicate Carries(script: Bytes, payload: Bytes) {
    var n := |payload|;
    || (1 <= n <= 75 && [0x6a, n] + payload <= script)
    || (n < 256 && [0x6a, 0x4c, n] + payload <= script)
    || (n < 65536 && [0x6a, 0x4d, n % 256, n / 256] + payload <= script)
    || (n < 4294967296 && [0x6a, 0x4e] + U32Bytes(n) + payload <= script)
  }

  lemma TwoBytes(s: Bytes)
    requires |s| == 2
    ensures FromLe(s) == s[0] as nat + 256 * (s[1] as nat)
  {
    assert s[1..] == [s[1]] && [s[1]][1..] == [];
    assert FromLe([s[1]]) == s[1] + 256 * FromLe([]);
  }

  lemma PushIs(front: Bytes, script: Bytes, n: nat, payload: Bytes)
    requires front <= script
    ensures Push(n, script[|front|..]) == Some(payload) <==> n == |payload| && front + payload <= script
  {
    if |front| + n <= |script| {
      assert script[|front|..][..n] == script[|front|..|front| + n];
      assert script[..|front| + n] == front + script[|front|..|front| + n];
    }
    if front + payload <= script {
      assert script[|front|..|front| + |payload|] == payload;
    }
  }

  lemma LongPush(script: Bytes, payload: Bytes)
    requires |script| >= 6 && script[..2] == [0x6a, 0x4e]
    ensures Push(FromLe(script[2..6]), script[6..]) == Some(payload)
       <==> |payload| < 4294967296 && [0x6a, 0x4e] + U32Bytes(|payload|) + payload <= script
  {
    hide FromLe, Push, U32Bytes, LeBytes;
    var m := FromLe(script[2..6]);
    Le32Encodes(script[2..6]);
    Le4(m);
    PushIs(script[..6], script, m, payload);
    assert script[..6] == script[..2] + script[2..6];
    if |payload| < 4294967296 && [0x6a, 0x4e] + U32Bytes(|payload|) + payload <= script {
      Le32(|payload|);
      Le4(|payload|);
      assert script[2..6] == U32Bytes(|payload|);
    }
  }

  lemma MediumPush(script: Bytes, payload: Bytes)
    requires |script| >= 4 && script[..2] == [0x6a, 0x4d]
    ensures Push(FromLe(script[2..4]), script[4..]) == Some(payload)
       <==> |payload| < 65536 && [0x6a, 0x4d, |payload| % 256, |payload| / 256] + payload <= script
  {
    hide FromLe, Push;
    TwoBytes(script[2..4]);
    PushIs(script[..4], script, FromLe(script[2..4]), payload);
    assert script[..4] == script[..2] + script[2..4];
    if |payload| < 65536 && [0x6a, 0x4d, |payload| % 256, |payload| / 256] + payload <= script {
      assert script[2] == |payload| % 256 && script[3] == |payload| / 256;
    }
  }

  lemma PayloadIs(script: Bytes, payload: Bytes)
    ensures OpReturnPayload(script) == Some(payload) <==> Carries(script, payload)
  {
    hide FromLe, Push, U32Bytes;
    if |script| >= 2 && script[0] == 0x6a {
      var n, rest := script[1], script[1..];
      assert script[..2] == [0x6a, n];
      if 0x01 <= n <= 0x4b {
        PushIs(script[..2], script, n, payload);
        assert rest[1..] == script[2..];
      } else if n == 0x4c && |script| >= 3 {
        PushIs(script[..3], script, script[2], payload);
        assert rest[2..] == script[3..];
      } else if n == 0x4d && |script| >= 4 {
        MediumPush(script, payload);
        assert rest[3..] == script[4..] && rest[1..3] == script[2..4];
      } else if n == 0x4e && |script| >= 6 {
        LongPush(script, payload);
        assert rest[5..] == script[6..] && rest[1..5] == script[2..6];
      }
    }
  }

  /** The script pushes `RGB++` and 32 more bytes, or just 32 bytes. */
  ghost predicate CarriesTagged(script: Bytes) {
    exists h: H256 :: Carries(script, [0x52, 0x47, 0x42, 0x2b, 0x2b] + h)
  }

  ghost predicate CarriesBare(script: Bytes) {
    exists h: H256 :: Carries(script, h)
  }

  lemma TaggedIs(script: Bytes)
    ensures Tagged(script) <==> CarriesTagged(script)
    ensures Tagged(script) ==>
              Carries(script, [0x52, 0x47, 0x42, 0x2b, 0x2b] + OpReturnPayload(script).value[5..])
    ensures Bare(script) <==> CarriesBare(script)
    ensures Bare(script) ==> Carries(script, OpReturnPayload(script).value)
  {
    hide OpReturnPayload, Carries;
    if OpReturnPayload(script).Some? {
      var p := OpReturnPayload(script).value;
      PayloadIs(script, p);
      if RGBPP_TAG <= p {
        assert p == [0x52, 0x47, 0x42, 0x2b, 0x2b] + p[5..];
      }
    }
    if h: H256 :| Carries(script, [0x52, 0x47, 0x42, 0x2b, 0x2b] + h) {
      PayloadIs(script, [0x52, 0x47, 0x42, 0x2b, 0x2b] + h);
    }
    if h: H256 :| Carries(script, h) {
      PayloadIs(script, h);
    }
  }

  /** The first tagged payload wins over any bare one; among bare ones the first wins. */
  method FindCommitment(scripts: seq<Bytes>) returns (found: Option<H256>)
    ensures found.None? <==> forall i :: 0 <= i < |scripts| ==> !CarriesTagged(scripts[i]) && !CarriesBare(scripts[i])
    ensures found.Some? ==>
              exists i :: 0 <= i < |scripts|
                && (|| (Carries(scripts[i], [0x52, 0x47, 0x42, 0x2b, 0x2b] + found.value)
                        && forall k :: 0 <= k < i ==> !CarriesTagged(scripts[k]))
                    || (Carries(scripts[i], found.value)
                        && (forall k :: 0 <= k < |scripts| ==> !CarriesTagged(scripts[k]))
                        && forall k :: 0 <= k < i ==> !CarriesBare(scripts[k])))
  {
    hide OpReturnPayload, Carries, CarriesTagged, CarriesBare;
    forall i | 0 <= i < |scripts|
      ensures Tagged(scripts[i]) <==> CarriesTagged(scripts[i])
      ensures Tagged(scripts[i]) ==>
                Carries(scripts[i], [0x52, 0x47, 0x42, 0x2b, 0x2b] + OpReturnPayload(scripts[i]).value[5..])
      ensures Bare(scripts[i]) <==> CarriesBare(scripts[i])
      ensures Bare(scripts[i]) ==> Carries(scripts[i], OpReturnPayload(scripts[i]).value)
    {
      TaggedIs(scripts[i]);
    }
    var fallback: Option<H256> := None;
    ghost var at := 0;
    for i := 0 to |scripts|
      invariant forall k :: 0 <= k < i ==> !Tagged(scripts[k])
      invariant fallback.None? ==> forall k :: 0 <= k < i ==> !Bare(scripts[k])
      invariant fallback.Some? ==>
                  0 <= at < i && Bare(scripts[at]) && fallback.value == OpReturnPayload(scripts[at]).value
                  && forall k :: 0 <= k < at ==> !Bare(scripts[k])
    {
      var payload := OpReturnPayload(scripts[i]);
      if payload.None? {
        continue;
      }
      if RGBPP_TAG <= payload.value {
        var tagged := payload.value[5..];
        if |tagged| == 32 {
          assert Tagged(scripts[i]);
          return Some(tagged);
        }
      }
      if |payload.value| == 32 && fallback.None? {
        fallback := Some(payload.value);
        at := i;
      }
    }
    return fallback;
  }
}
