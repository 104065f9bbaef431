/**
 The slice of molecule serialization the indexer hand-rolls (crates/types/src/molecule.rs):
 tables, byte vectors, scripts, cell outputs and out points.

 Encoders and the table reader are loops over buffers; each is proved against a function.
 The function level carries the main results: decoding and encoding are inverse on exactly
 the byte strings shorter than 2^32.
 */
module Molecule {
  import opened Wrappers
  import opened ByteStrings
  import opened Ckb

  // ----- tables

  function HeaderSize(fields: seq<Bytes>): nat {
    4 + 4 * |fields|
  }

  function TableSize(fields: seq<Bytes>): nat {
    HeaderSize(fields) + TotalLength(fields)
  }

  /** The header's offsets, when the first field starts at `offset`. */
  function OffsetBytes(fields: seq<Bytes>, offset: nat): (s: Bytes)
    ensures |s| == 4 * |fields|
  {
    if fields == [] then [] else LeBytes(offset, 4) + OffsetBytes(fields[1..], offset + |fields[0]|)
  }

  function Table(fields: seq<Bytes>): Bytes {
    LeBytes(TableSize(fields), 4) + OffsetBytes(fields, HeaderSize(fields)) + Concat(fields)
  }

  lemma TableLength(fields: seq<Bytes>)
    ensures |Table(fields)| == TableSize(fields)
  {
    ConcatLength(fields);
  }

  lemma {:induction false} OffsetBytesSnoc(fields: seq<Bytes>, last: Bytes, offset: nat)
    ensures OffsetBytes(fields + [last], offset)
         == OffsetBytes(fields, offset) + LeBytes(offset + TotalLength(fields), 4)
  {
    if fields == [] {
      assert fields + [last] == [last];
      assert OffsetBytes([last], offset) == LeBytes(offset, 4) + OffsetBytes([], offset + |last|);
    } else {
      assert (fields + [last])[1..] == fields[1..] + [last];
      OffsetBytesSnoc(fields[1..], last, offset + |fields[0]|);
    }
  }

  /** What one more field adds to the running sums of the encoder's loops. */
  lemma OneMoreField(fields: seq<Bytes>, i: nat, offset: nat)
    requires i < |fields|
    ensures TotalLength(fields[..i + 1]) == TotalLength(fields[..i]) + |fields[i]|
    ensures Concat(fields[..i + 1]) == Concat(fields[..i]) + fields[i]
    ensures OffsetBytes(fields[..i + 1], offset)
         == OffsetBytes(fields[..i], offset) + LeBytes(offset + TotalLength(fields[..i]), 4)
  {
    assert fields[..i + 1] == fields[..i] + [fields[i]];
    ConcatSnoc(fields[..i], fields[i]);
    OffsetBytesSnoc(fields[..i], fields[i], offset);
  }

  method EncodeTable(fields: seq<Bytes>) returns (out: Bytes)
    ensures out == Table(fields)
  {
    hide LeBytes;
    var headerLen := 4 + 4 * |fields|;
    var bodyLen := TotalLength(fields);
    var fullSize := headerLen + bodyLen;

    var size := LeBytes(fullSize, 4);
    out := size;
    var offset := headerLen;
    ghost var header: Bytes := [];
    for i := 0 to |fields|
      invariant offset == headerLen + TotalLength(fields[..i])
      invariant header == OffsetBytes(fields[..i], headerLen)
      invariant out == size + header
    {
      OneMoreField(fields, i, headerLen);
      out := out + LeBytes(offset, 4);
      header := header + LeBytes(offset, 4);
      offset := offset + |fields[i]|;
    }
    ghost var body: Bytes := [];
    for i := 0 to |fields|
      invariant body == Concat(fields[..i])
      invariant out == size + header + body
    {
      OneMoreField(fields, i, headerLen);
      out := out + fields[i];
      body := body + fields[i];
    }
    assert fields[..|fields|] == fields;
  }

  /** The i-th field boundary a reader takes from the header; the last one is the end of the data. */
  function Boundary(data: Bytes, count: nat, i: nat): nat
    requires i <= count && 4 + 4 * count <= |data|
  {
    if i == count then |data| else FromLe(data[4 + 4 * i..8 + 4 * i])
  }

  predicate FieldInRange(data: Bytes, count: nat, i: nat)
    requires i < count && 4 + 4 * count <= |data|
  {
    Boundary(data, count, i) <= Boundary(data, count, i + 1) <= |data|
  }

  function FieldAt(data: Bytes, count: nat, i: nat): Bytes
    requires i < count && 4 + 4 * count <= |data| && FieldInRange(data, count, i)
  {
    data[Boundary(data, count, i)..Boundary(data, count, i + 1)]
  }

  predicate FieldsInRange(data: Bytes, count: nat)
    requires 4 + 4 * count <= |data|
  {
    forall i :: 0 <= i < count ==> FieldInRange(data, count, i)
  }

  function TableFields(data: Bytes): Result<seq<Bytes>> {
    if |data| < 4 then Err(Malformed("shorter than the size header"))
    else if FromLe(data[0..4]) != |data| then Err(Malformed("size header"))
    else if |data| == 4 then Ok([])
    else if |data| < 8 then Err(Malformed("missing first offset"))
    else
      var first := FromLe(data[4..8]);
      if first < 8 || first % 4 != 0 || first > |data| then Err(Malformed("implausible first offset"))
      else
        var count := (first - 4) / 4;
        if FieldsInRange(data, count)
        then Ok(seq(count, i requires 0 <= i < count && FieldInRange(data, count, i) => FieldAt(data, count, i)))
        else Err(Malformed("field has invalid range"))
  }

  method ReadTableFields(data: Bytes) returns (r: Result<seq<Bytes>>)
    ensures r == TableFields(data)
  {
    hide FromLe;
    if |data| < 4 {
      return Err(Malformed("shorter than the size header"));
    }
    var fullSize := FromLe(data[0..4]);
    if fullSize != |data| {
      return Err(Malformed("size header"));
    }
    if fullSize == 4 {
      return Ok([]);
    }
    if |data| < 8 {
      return Err(Malformed("missing first offset"));
    }
    var firstOffset := FromLe(data[4..8]);
    if firstOffset < 8 || firstOffset % 4 != 0 || firstOffset > fullSize {
      return Err(Malformed("implausible first offset"));
    }
    var fieldCount := (firstOffset - 4) / 4;

    var offsets: seq<nat> := [];
    for i := 0 to fieldCount
      invariant |offsets| == i
      invariant forall k :: 0 <= k < i ==> offsets[k] == Boundary(data, fieldCount, k)
    {
      var start := 4 + i * 4;
      offsets := offsets + [FromLe(data[start..start + 4])];
    }
    offsets := offsets + [fullSize];

    var fields: seq<Bytes> := [];
    for i := 0 to fieldCount
      invariant |fields| == i
      invariant forall k :: 0 <= k < i ==> FieldInRange(data, fieldCount, k)
      invariant forall k :: 0 <= k < i ==> fields[k] == FieldAt(data, fieldCount, k)
    {
      var start, end := offsets[i], offsets[i + 1];
      if start > end || end > fullSize {
        assert !FieldInRange(data, fieldCount, i);
        return Err(Malformed("field has invalid range"));
      }
      fields := fields + [data[start..end]];
    }
    assert FieldsInRange(data, fieldCount);
    assert TableFields(data).value == fields;
    return Ok(fields);
  }

  // ----- decoding inverts encoding

  /** Header entry `i` of `OffsetBytes` names the start of field `i`. */
  lemma {:induction false} OffsetEntry(fields: seq<Bytes>, offset: nat, i: nat)
    requires i < |fields|
    ensures OffsetBytes(fields, offset)[4 * i..4 * i + 4] == LeBytes(offset + TotalLength(fields[..i]), 4)
  {
    hide LeBytes;
    var rest := OffsetBytes(fields[1..], offset + |fields[0]|);
    assert OffsetBytes(fields, offset) == LeBytes(offset, 4) + rest;
    if i == 0 {
      assert TotalLength(fields[..0]) == 0;
    } else {
      OffsetEntry(fields[1..], offset + |fields[0]|, i - 1);
      assert fields[..i][1..] == fields[1..][..i - 1];
      assert OffsetBytes(fields, offset)[4 * i..4 * i + 4] == rest[4 * (i - 1)..4 * (i - 1) + 4];
    }
  }

  lemma {:induction false} TotalLengthPrefix(fields: seq<Bytes>, i: nat)
    requires i < |fields|
    ensures TotalLength(fields[..i]) + |fields[i]| == TotalLength(fields[..i + 1]) <= TotalLength(fields)
  {
    if i == 0 {
      assert fields[..1] == [fields[0]];
      assert TotalLength([fields[0]]) == |fields[0]| + TotalLength([]);
    } else {
      TotalLengthPrefix(fields[1..], i - 1);
      assert fields[..i][1..] == fields[1..][..i - 1];
      assert fields[..i + 1][1..] == fields[1..][..i];
    }
  }

  lemma {:induction false} ConcatSlice(fields: seq<Bytes>, i: nat)
    requires i < |fields|
    ensures var at := TotalLength(fields[..i]);
            at + |fields[i]| <= |Concat(fields)| && Concat(fields)[at..at + |fields[i]|] == fields[i]
  {
    ConcatLength(fields);
    TotalLengthPrefix(fields, i);
    if i > 0 {
      ConcatSlice(fields[1..], i - 1);
      assert fields[..i][1..] == fields[1..][..i - 1];
      var at := TotalLength(fields[1..][..i - 1]);
      assert Concat(fields)[|fields[0]| + at..|fields[0]| + at + |fields[i]|]
          == Concat(fields[1..])[at..at + |fields[i]|];
    }
  }

  lemma TableBoundary(fields: seq<Bytes>, i: nat)
    requires TableSize(fields) < U32 && i <= |fields|
    ensures |Table(fields)| == TableSize(fields)
    ensures Boundary(Table(fields), |fields|, i) == HeaderSize(fields) + TotalLength(fields[..i])
  {
    TableLength(fields);
    if i == |fields| {
      assert fields[..i] == fields;
    } else {
      var data, header := Table(fields), OffsetBytes(fields, HeaderSize(fields));
      assert data[4..4 + 4 * |fields|] == header;
      assert data[4 + 4 * i..8 + 4 * i] == header[4 * i..4 * i + 4];
      OffsetEntry(fields, HeaderSize(fields), i);
      TotalLengthPrefix(fields, i);
      Le32(HeaderSize(fields) + TotalLength(fields[..i]));
    }
  }

  lemma TableField(fields: seq<Bytes>, i: nat)
    requires TableSize(fields) < U32 && i < |fields|
    ensures |Table(fields)| == TableSize(fields)
    ensures FieldInRange(Table(fields), |fields|, i) && FieldAt(Table(fields), |fields|, i) == fields[i]
  {
    hide LeBytes, FromLe, OffsetBytes;
    TableBoundary(fields, i);
    TableBoundary(fields, i + 1);
    TotalLengthPrefix(fields, i);
    ConcatSlice(fields, i);
    var at := TotalLength(fields[..i]);
    assert Table(fields)[HeaderSize(fields)..] == Concat(fields);
    assert Table(fields)[HeaderSize(fields) + at..HeaderSize(fields) + at + |fields[i]|]
        == Concat(fields)[at..at + |fields[i]|];
  }

  lemma TableDecodes(fields: seq<Bytes>)
    requires TableSize(fields) < U32
    ensures TableFields(Table(fields)) == Ok(fields)
  {
    var data := Table(fields);
    TableLength(fields);
    assert data[0..4] == LeBytes(TableSize(fields), 4);
    Le32(TableSize(fields));
    if fields == [] {
      assert TotalLength(fields) == 0;
    } else {
      TableBoundary(fields, 0);
      assert TotalLength(fields[..0]) == 0;
      assert FromLe(data[4..8]) == HeaderSize(fields);
      forall i | 0 <= i < |fields|
        ensures FieldInRange(data, |fields|, i) && FieldAt(data, |fields|, i) == fields[i]
      {
        TableField(fields, i);
      }
      assert TableFields(data).value == fields;
    }
  }

  /** Reading back the slices from `i` on restores the data from boundary `i` on. */
  lemma {:induction false} SlicesRestore(data: Bytes, count: nat, fields: seq<Bytes>, i: nat)
    requires |data| < U32
    requires i <= count && 4 + 4 * count <= |data| && FieldsInRange(data, count) && |fields| == count
    requires forall k :: 0 <= k < count ==> fields[k] == FieldAt(data, count, k)
    ensures Boundary(data, count, i) <= |data|
    ensures Concat(fields[i..]) == data[Boundary(data, count, i)..]
    ensures OffsetBytes(fields[i..], Boundary(data, count, i)) == data[4 + 4 * i..4 + 4 * count]
    decreases count - i
  {
    hide LeBytes, FromLe;
    if i < count {
      SlicesRestore(data, count, fields, i + 1);
      assert fields[i..][1..] == fields[i + 1..];
      assert FieldInRange(data, count, i);
      var from, to := Boundary(data, count, i), Boundary(data, count, i + 1);
      assert fields[i] == data[from..to];
      assert data[from..] == data[from..to] + data[to..];
      Le32Encodes(data[4 + 4 * i..8 + 4 * i]);
      assert data[4 + 4 * i..4 + 4 * count] == data[4 + 4 * i..8 + 4 * i] + data[8 + 4 * i..4 + 4 * count];
    }
  }

  lemma CanonicalTable(data: Bytes, count: nat, fields: seq<Bytes>)
    requires |data| < U32 && 1 <= count && 4 + 4 * count <= |data|
    requires FromLe(data[0..4]) == |data| && FromLe(data[4..8]) == 4 + 4 * count
    requires FieldsInRange(data, count) && |fields| == count
    requires forall k :: 0 <= k < count ==> fields[k] == FieldAt(data, count, k)
    ensures Table(fields) == data
  {
    SlicesRestore(data, count, fields, 0);
    assert fields[0..] == fields;
    assert Boundary(data, count, 0) == HeaderSize(fields);
    assert OffsetBytes(fields, HeaderSize(fields)) == data[4..4 + 4 * count];
    ConcatLength(fields);
    Le32Encodes(data[0..4]);
  }

  lemma TableCanonical(data: Bytes)
    requires TableFields(data).Ok?
    ensures |data| < U32 && Table(TableFields(data).value) == data
  {
    var fields := TableFields(data).value;
    Le32Encodes(data[0..4]);
    if |data| == 4 {
      assert fields == [] && TotalLength(fields) == 0 && Concat(fields) == [];
      assert data == data[0..4];
    } else {
      CanonicalTable(data, (FromLe(data[4..8]) - 4) / 4, fields);
    }
  }

  /** The reader accepts exactly the encodings shorter than 2^32, and returns what was encoded. */
  lemma TableFieldsExact(data: Bytes, fields: seq<Bytes>)
    ensures TableFields(data) == Ok(fields) <==> data == Table(fields) && |data| < U32
  {
    TableLength(fields);
    if TableFields(data) == Ok(fields) {
      TableCanonical(data);
    }
    if data == Table(fields) && |data| < U32 {
      TableDecodes(fields);
    }
  }

  /** Everything before the last field of a table. */
  function TableFront(fields: seq<Bytes>, lastLength: nat): Bytes {
    var headerLen := 4 + 4 * (|fields| + 1);
    LeBytes(headerLen + TotalLength(fields) + lastLength, 4)
      + OffsetBytes(fields, headerLen) + LeBytes(headerLen + TotalLength(fields), 4) + Concat(fields)
  }

  lemma TableSplit(fields: seq<Bytes>, last: Bytes)
    ensures Table(fields + [last]) == TableFront(fields, |last|) + last
  {
    hide LeBytes, OffsetBytes, Concat, TotalLength;
    ConcatSnoc(fields, last);
    OffsetBytesSnoc(fields, last, 4 + 4 * (|fields| + 1));
  }

  /** Swapping the last field for one of the same length changes only the trailing bytes. */
  lemma LastField(fields: seq<Bytes>, last: Bytes, other: Bytes)
    requires |last| == |other|
    ensures |Table(fields + [last])| == |Table(fields + [other])| >= |last|
    ensures var body := |Table(fields + [last])| - |last|;
            && Table(fields + [last])[body..] == last
            && Table(fields + [other]) == Table(fields + [last])[..body] + other
  {
    hide TableFront, Table;
    TableSplit(fields, last);
    TableSplit(fields, other);
  }

  // ----- byte vectors

  function EncodeBytes(data: Bytes): Bytes {
    LeBytes(|data|, 4) + data
  }

  function ReadBytes(data: Bytes): Result<Bytes> {
    if |data| < 4 then Err(Malformed("missing length prefix"))
    else if 4 + FromLe(data[0..4]) != |data| then Err(Malformed("length prefix"))
    else Ok(data[4..])
  }

  lemma BytesExact(data: Bytes, payload: Bytes)
    ensures ReadBytes(data) == Ok(payload) <==> data == EncodeBytes(payload) && |payload| < U32
  {
    if ReadBytes(data) == Ok(payload) {
      Le32Encodes(data[0..4]);
      assert data == data[0..4] + data[4..];
    }
    if data == EncodeBytes(payload) && |payload| < U32 {
      assert data[0..4] == LeBytes(|payload|, 4);
      Le32(|payload|);
      assert data[4..] == payload;
    }
  }

  // ----- scripts, cell outputs, out points

  function ScriptFields(script: Script): seq<Bytes> {
    [script.codeHash, [script.hashType.ToByte()], EncodeBytes(script.args)]
  }

  function EncodeScript(script: Script): Bytes {
    Table(ScriptFields(script))
  }

  function EncodeScriptOpt(script: Option<Script>): Bytes {
    match script
    case Some(s) => EncodeScript(s)
    case None => []
  }

  function CellOutputFields(output: CellOutput): seq<Bytes> {
    [LeBytes(output.capacity, 8), EncodeScript(output.lock), EncodeScriptOpt(output.type_)]
  }

  function EncodeCellOutput(output: CellOutput): Bytes {
    Table(CellOutputFields(output))
  }

  function EncodeOutPoint(outPoint: OutPoint): (s: Bytes)
    ensures |s| == 36
  {
    outPoint.txHash + LeBytes(outPoint.index, 4)
  }

  function HashTypeFromByte(b: byte): Result<ScriptHashType> {
    if b == 0 then Ok(Data)
    else if b == 1 then Ok(Type)
    else if b == 2 then Ok(Data1)
    else if b == 4 then Ok(Data2)
    else Err(Unsupported(b))
  }

  function DecodeScript(data: Bytes): Result<Script> {
    var fields :- TableFields(data);
    if |fields| != 3 then Err(Malformed("expected 3 fields"))
    else if |fields[0]| != 32 then Err(Length(32, |fields[0]|))
    else if |fields[1]| != 1 then Err(Malformed("hash_type is not one byte"))
    else
      var hashType :- HashTypeFromByte(fields[1][0]);
      var args :- ReadBytes(fields[2]);
      Ok(Script(fields[0], hashType, args))
  }

  lemma ScriptLength(script: Script)
    ensures |EncodeScript(script)| == 53 + |script.args|
  {
    TableLength(ScriptFields(script));
    var f := ScriptFields(script);
    assert f[1..] == [f[1], f[2]];
    assert TotalLength([f[1], f[2]]) == |f[1]| + TotalLength([f[2]]);
    assert TotalLength([f[2]]) == |f[2]| + TotalLength([]);
  }

  /** Scripts decode exactly from their encodings shorter than 2^32. */
  lemma ScriptExact(data: Bytes, script: Script)
    ensures DecodeScript(data) == Ok(script) <==> data == EncodeScript(script) && |data| < U32
  {
    ScriptLength(script);
    var expected := ScriptFields(script);
    TableFieldsExact(data, expected);
    BytesExact(EncodeBytes(script.args), script.args);
    if DecodeScript(data) == Ok(script) {
      var fields := TableFields(data).value;
      BytesExact(fields[2], script.args);
      assert fields[1] == [script.hashType.ToByte()];
      assert fields == expected;
    }
  }

  lemma ScriptInjective(a: Script, b: Script)
    requires EncodeScript(a) == EncodeScript(b) && |EncodeScript(a)| < U32
    ensures a == b
  {
    ScriptExact(EncodeScript(a), a);
    ScriptExact(EncodeScript(a), b);
  }

  lemma CellOutputInjective(a: CellOutput, b: CellOutput)
    requires EncodeCellOutput(a) == EncodeCellOutput(b) && |EncodeCellOutput(a)| < U32
    ensures a == b
  {
    var fa, fb := CellOutputFields(a), CellOutputFields(b);
    TableFieldsExact(EncodeCellOutput(a), fa);
    TableFieldsExact(EncodeCellOutput(a), fb);
    assert fa == fb;
    assert fa[0] == fb[0] && fa[1] == fb[1] && fa[2] == fb[2];
    Le64(a.capacity);
    Le64(b.capacity);
    TableLength(fa);
    TotalLengthPrefix(fa, 1);
    TotalLengthPrefix(fa, 2);
    ScriptInjective(a.lock, b.lock);
    if a.type_.Some? {
      ScriptLength(a.type_.value);
      assert b.type_.Some?;
      ScriptInjective(a.type_.value, b.type_.value);
    } else {
      if b.type_.Some? {
        ScriptLength(b.type_.value);
      }
    }
  }

  lemma OutPointInjective(a: OutPoint, b: OutPoint)
    requires EncodeOutPoint(a) == EncodeOutPoint(b)
    ensures a == b
  {
    assert EncodeOutPoint(a)[..32] == a.txHash && EncodeOutPoint(b)[..32] == b.txHash;
    assert EncodeOutPoint(a)[32..] == LeBytes(a.index, 4) && EncodeOutPoint(b)[32..] == LeBytes(b.index, 4);
    Le32(a.index);
    Le32(b.index);
  }
}
