/** Turning a CKB transaction into RGB++ facts (crates/indexer/src/extract.rs). */
module Extract {
  import opened Wrappers
  import opened ByteStrings
  import opened Ckb
  import opened Molecule
  import opened Protocol
  import opened Layout
  import opened Commitment
  import opened Rows
  import opened Chain
  import Hex

  datatype AssetScripts = AssetScripts(
    xudt: seq<ScriptId>,
    sudt: seq<ScriptId>,
    spore: seq<ScriptId>,
    sporeCluster: seq<ScriptId>)
  {
    function Classify(type_: Option<Script>): AssetKind {
      match type_
      case None => Plain
      case Some(s) =>
        if AnyMatches(xudt, s) then Xudt
        else if AnyMatches(sudt, s) then Sudt
        else if AnyMatches(spore, s) then Spore
        else if AnyMatches(sporeCluster, s) then SporeCluster
        else Unrecognised
    }
  }

  predicate AnyMatches(ids: seq<ScriptId>, s: Script) {
    exists i :: 0 <= i < |ids| && ids[i].Matches(s)
  }

  /** The configuration extraction depends on; `blake` and `doubleSha` are any two hash functions. */
  datatype Rules = Rules(protocol: ProtocolScripts, assets: AssetScripts, blake: Hash, doubleSha: Hash)

  /** An input whose consumed cell has been identified as RGB++. */
  datatype ResolvedInput = ResolvedInput(
    inputIndex: nat,
    outPoint: OutPoint,
    binding: LockBinding,
    cell: CellOutput,
    data: Bytes)

  /** An output recognised as belonging to the RGB++ surface. */
  datatype RgbppOutput = RgbppOutput(index: u32, binding: LockBinding, cell: CellOutput, data: Bytes)

  // ----- outputs

  function ReadOutput(protocol: ProtocolScripts, tx: Tx, i: nat): (r: Option<RgbppOutput>)
    requires i < |tx.outputs|
    ensures r.Some? ==> r.value.index == i
  {
    var output := tx.outputs[i];
    match protocol.Classify(output.lock)
    case None => None
    case Some(kind) =>
      match ParseBinding(kind, output.lock.args)
      case Err(_) => None
      case Ok(binding) => Some(RgbppOutput(i, binding, output, DataAt(tx, i)))
  }

  /** The readable RGB++ outputs among the first `n`. */
  function ReadableOutputs(protocol: ProtocolScripts, tx: Tx, n: nat): seq<RgbppOutput>
    requires n <= |tx.outputs|
  {
    if n == 0 then []
    else
      var found := ReadableOutputs(protocol, tx, n - 1);
      match ReadOutput(protocol, tx, n - 1)
      case Some(o) => found + [o]
      case None => found
  }

  method ClassifyOutputs(protocol: ProtocolScripts, tx: Tx) returns (found: seq<RgbppOutput>)
    ensures found == ReadableOutputs(protocol, tx, |tx.outputs|)
  {
    hide ParseBinding;
    found := [];
    for index := 0 to |tx.outputs|
      invariant found == ReadableOutputs(protocol, tx, index)
    {
      var output := tx.outputs[index];
      var kind := protocol.Classify(output.lock);
      if kind.None? {
        continue;
      }
      var binding := ParseBinding(kind.value, output.lock.args);
      if binding.Err? {
        continue;
      }
      found := found + [RgbppOutput(index, binding.value, output, DataAt(tx, index))];
    }
  }

  /** The outputs found are the readable ones, in transaction order, each once. */
  lemma {:induction false} ReadableOutputsExact(protocol: ProtocolScripts, tx: Tx, n: nat)
    requires n <= |tx.outputs|
    ensures var r := ReadableOutputs(protocol, tx, n);
            && |r| <= n
            && (forall k :: 0 <= k < |r| ==> r[k].index < n && ReadOutput(protocol, tx, r[k].index) == Some(r[k]))
            && (forall k, l :: 0 <= k < l < |r| ==> r[k].index < r[l].index)
            && (forall i: nat :: i < n && ReadOutput(protocol, tx, i).Some?
                  ==> ReadOutput(protocol, tx, i).value in r)
  {
    hide ReadOutput;
    if n > 0 {
      ReadableOutputsExact(protocol, tx, n - 1);
    }
  }

  // ----- transition kind, Bitcoin txid, commitment

  function InputKinds(inputs: seq<ResolvedInput>): seq<LockKind> {
    seq(|inputs|, i requires 0 <= i < |inputs| => inputs[i].binding.Kind())
  }

  function OutputKinds(outputs: seq<RgbppOutput>): seq<LockKind> {
    seq(|outputs|, i requires 0 <= i < |outputs| => outputs[i].binding.Kind())
  }

  function Count(kinds: seq<LockKind>, kind: LockKind): nat {
    if kinds == [] then 0 else Count(kinds[1..], kind) + (if kinds[0] == kind then 1 else 0)
  }

  function ClassifyTransition(inputs: seq<ResolvedInput>, outputs: seq<RgbppOutput>): TransitionKind {
    var btcTimeIn := Count(InputKinds(inputs), BtcTime);
    var rgbppIn := |inputs| - btcTimeIn;
    var rgbppOut := Count(OutputKinds(outputs), Rgbpp);
    var btcTimeOut := |outputs| - rgbppOut;
    if btcTimeIn > 0 then BtcTimeUnlock
    else if rgbppIn == 0 then Issuance
    else if rgbppOut == 0 && btcTimeOut > 0 then LeapToCkb
    else if rgbppOut > 0 then Transfer
    else Exit
  }

  lemma {:induction false} CountMeaning(kinds: seq<LockKind>, kind: LockKind)
    ensures Count(kinds, kind) <= |kinds|
    ensures Count(kinds, kind) > 0 <==> kind in kinds
  {
    if kinds != [] {
      CountMeaning(kinds[1..], kind);
      assert kinds == [kinds[0]] + kinds[1..];
    }
  }

  /** When each of the five labels is given, by which kinds of cell go in and come out. */
  lemma TransitionKindMeaning(inputs: seq<ResolvedInput>, outputs: seq<RgbppOutput>)
    ensures var kind, goesIn, comesOut := ClassifyTransition(inputs, outputs), InputKinds(inputs), OutputKinds(outputs);
            && (kind == BtcTimeUnlock <==> BtcTime in goesIn)
            && (kind == Issuance <==> inputs == [])
            && (kind == Transfer <==> inputs != [] && BtcTime !in goesIn && Rgbpp in comesOut)
            && (kind == LeapToCkb <==>
                  inputs != [] && BtcTime !in goesIn && Rgbpp !in comesOut && BtcTime in comesOut)
            && (kind == Exit <==> inputs != [] && BtcTime !in goesIn && outputs == [])
  {
    CountMeaning(InputKinds(inputs), BtcTime);
    CountMeaning(OutputKinds(outputs), Rgbpp);
    CountMeaning(OutputKinds(outputs), BtcTime);
    if outputs != [] {
      assert OutputKinds(outputs)[0] in OutputKinds(outputs);
    }
  }

  /** The txid all outputs are bound to; None if there is none or if they disagree. */
  function CommonTxid(outputs: seq<RgbppOutput>): Option<BtcTxid> {
    if outputs != [] && forall i :: 0 <= i < |outputs| ==> outputs[i].binding.Txid() == outputs[0].binding.Txid()
    then Some(outputs[0].binding.Txid())
    else None
  }

  method DeriveBtcTxid(outputs: seq<RgbppOutput>) returns (txid: Option<BtcTxid>)
    ensures txid == CommonTxid(outputs)
  {
    txid := None;
    for i := 0 to |outputs|
      invariant txid == CommonTxid(outputs[..i])
      invariant txid.None? <==> i == 0
    {
      var candidate := outputs[i].binding.Txid();
      if txid.None? {
        txid := Some(candidate);
      } else if txid.value != candidate {
        assert outputs[..i][0] == outputs[0];
        return None;
      }
      assert forall k :: 0 <= k < i ==> outputs[..i][k] == outputs[..i + 1][k];
    }
    assert outputs[..|outputs|] == outputs;
  }

  function InputPoints(inputs: seq<ResolvedInput>): seq<OutPoint> {
    seq(|inputs|, i requires 0 <= i < |inputs| => inputs[i].outPoint)
  }

  /** What the pre-image carries for an output: the cell with a zeroed txid in its lock args. */
  function Committed(output: RgbppOutput): Option<Entry> {
    match ArgsWithPlaceholder(output.binding.Kind(), output.cell.lock.args)
    case Err(_) => None
    case Ok(args) => Some(Entry(output.cell.(lock := output.cell.lock.(args := args)), output.data))
  }

  predicate AllCommitted(outputs: seq<RgbppOutput>) {
    forall i :: 0 <= i < |outputs| ==> Committed(outputs[i]).Some?
  }

  function CommittedEntries(outputs: seq<RgbppOutput>): seq<Entry>
    requires AllCommitted(outputs)
  {
    seq(|outputs|, i requires 0 <= i < |outputs| => Committed(outputs[i]).value)
  }

  /** The pre-image of the commitment a transaction with these cells should be committed to by. */
  function ExpectedPreimage(inputs: seq<ResolvedInput>, outputs: seq<RgbppOutput>): Option<CommitmentPreimage> {
    if inputs == [] && outputs == [] then None
    else if !AllCommitted(outputs) then None
    else Some(CommitmentPreimage(0, InputPoints(inputs), CommittedEntries(outputs)))
  }

  function ExpectedCommitment(doubleSha: Hash, inputs: seq<ResolvedInput>, outputs: seq<RgbppOutput>): Option<H256> {
    match ExpectedPreimage(inputs, outputs)
    case None => None
    case Some(p) => Some(doubleSha(Preimage(p)))
  }

  /** What a commitment covers for an output, written out: the cell with its args' last 32 bytes zero. */
  function Blanked(output: RgbppOutput): Entry {
    Entry(output.cell.(lock := output.cell.lock.(args := BlankTail(output.cell.lock.args))), output.data)
  }

  /**
   The bytes behind a commitment, from the inputs' out points and the blanked outputs; there are none when
   nothing is committed to or when some output's args do not parse.
   */
  ghost predicate CommitsTo(doubleSha: Hash, inputs: seq<ResolvedInput>, outputs: seq<RgbppOutput>, commitment: Option<H256>) {
    && (commitment.None? <==>
          (|inputs| == 0 && |outputs| == 0)
          || exists i :: 0 <= i < |outputs| && ParseBinding(outputs[i].binding.Kind(), outputs[i].cell.lock.args).Err?)
    && (commitment.Some? ==>
          commitment.value == doubleSha(LaidOut(0, seq(|inputs|, i requires 0 <= i < |inputs| => inputs[i].outPoint),
                                                seq(|outputs|, i requires 0 <= i < |outputs| => Blanked(outputs[i])))))
  }

  lemma CommittedIsBlanked(output: RgbppOutput)
    ensures Committed(output)
         == if ParseBinding(output.binding.Kind(), output.cell.lock.args).Ok? then Some(Blanked(output)) else None
  {
    hide ParseBinding, ArgsWithPlaceholder;
    PlaceholderZeroesTheTail(output.binding.Kind(), output.cell.lock.args);
    assert Zeros(32) == seq(32, _ => 0);
  }

  lemma ExpectedCommitmentIs(doubleSha: Hash, inputs: seq<ResolvedInput>, outputs: seq<RgbppOutput>)
    ensures CommitsTo(doubleSha, inputs, outputs, ExpectedCommitment(doubleSha, inputs, outputs))
  {
    hide ParseBinding, Committed, Preimage, LaidOut, Blanked;
    forall i | 0 <= i < |outputs|
      ensures Committed(outputs[i])
           == if ParseBinding(outputs[i].binding.Kind(), outputs[i].cell.lock.args).Ok? then Some(Blanked(outputs[i])) else None
    {
      CommittedIsBlanked(outputs[i]);
    }
    if ExpectedPreimage(inputs, outputs).Some? {
      var p := ExpectedPreimage(inputs, outputs).value;
      PreimageIsLaidOut(p);
      assert p.inputs == seq(|inputs|, i requires 0 <= i < |inputs| => inputs[i].outPoint);
      assert p.outputs == seq(|outputs|, i requires 0 <= i < |outputs| => Blanked(outputs[i]));
    }
  }

  method ComputeExpectedCommitment(doubleSha: Hash, inputs: seq<ResolvedInput>, outputs: seq<RgbppOutput>)
    returns (commitment: Option<H256>)
    ensures commitment == ExpectedCommitment(doubleSha, inputs, outputs)
    ensures CommitsTo(doubleSha, inputs, outputs, commitment)
  {
    hide ArgsWithPlaceholder, CommitsTo;
    ExpectedCommitmentIs(doubleSha, inputs, outputs);
    if |inputs| == 0 && |outputs| == 0 {
      return None;
    }
    var points := InputPoints(inputs);
    var pairs: seq<Entry> := [];
    for i := 0 to |outputs|
      invariant |pairs| == i
      invariant forall k :: 0 <= k < i ==> Committed(outputs[k]) == Some(pairs[k])
    {
      var args := ArgsWithPlaceholder(outputs[i].binding.Kind(), outputs[i].cell.lock.args);
      if args.Err? {
        assert Committed(outputs[i]).None?;
        return None;
      }
      var committed := outputs[i].cell.(lock := outputs[i].cell.lock.(args := args.value));
      pairs := pairs + [Entry(committed, outputs[i].data)];
    }
    assert pairs == CommittedEntries(outputs);
    var bytes := Encode(CommitmentPreimage(0, points, pairs));
    return Some(doubleSha(bytes));
  }

  // ----- rows

  function HashTypeName(t: ScriptHashType): string {
    match t
    case Data => "data"
    case Type => "type"
    case Data1 => "data1"
    case Data2 => "data2"
  }

  function ScriptToJson(s: Script): ScriptJson {
    ScriptJson(Some(Hex.ToHex(s.codeHash)), Some(HashTypeName(s.hashType)), Some(Hex.ToHex(s.args)))
  }

  function ScriptHash(blake: Hash, s: Script): H256 {
    blake(EncodeScript(s))
  }

  /** Fungible cells carry a little-endian u128 in their first 16 bytes; shorter data has no amount. */
  function FungibleAmount(kind: AssetKind, data: Bytes): Option<nat> {
    if kind.IsFungible() && |data| >= 16 then Some(FromLe(data[0..16])) else None
  }

  function BuildNewCell(rules: Rules, txHash: H256, output: RgbppOutput, created: Anchor): NewCell {
    var type_ := output.cell.type_;
    var kind := rules.assets.Classify(type_);
    NewCell(
      KeyOf(OutPoint(txHash, output.index)),
      output.binding.Kind(),
      output.binding.Txid(),
      match output.binding case RgbppBinding(a) => Some(AsI32(a.outIndex)) case BtcTimeBinding(_) => None,
      match output.binding case RgbppBinding(_) => None case BtcTimeBinding(a) => Some(AsI32(a.after)),
      match output.binding case RgbppBinding(_) => None case BtcTimeBinding(a) => Some(ScriptHash(rules.blake, a.targetLock)),
      match output.binding case RgbppBinding(_) => None case BtcTimeBinding(a) => Some(ScriptToJson(a.targetLock)),
      ScriptHash(rules.blake, output.cell.lock),
      output.cell.lock.args,
      match type_ case Some(s) => Some(ScriptHash(rules.blake, s)) case None => None,
      match type_ case Some(s) => Some(ScriptToJson(s)) case None => None,
      kind,
      FungibleAmount(kind, output.data),
      AsI64(output.cell.capacity),
      output.data,
      created)
  }

  function NewCells(rules: Rules, txHash: H256, outputs: seq<RgbppOutput>, created: Anchor): (r: seq<NewCell>)
    ensures |r| == |outputs|
  {
    seq(|outputs|, i requires 0 <= i < |outputs| => BuildNewCell(rules, txHash, outputs[i], created))
  }

  function SpendOf(input: ResolvedInput, txHash: H256, at: Anchor): CellSpend {
    CellSpend(KeyOf(input.outPoint), Consumption(at, txHash, input.inputIndex))
  }

  function Spends(inputs: seq<ResolvedInput>, txHash: H256, at: Anchor): (r: seq<CellSpend>)
    ensures |r| == |inputs|
  {
    seq(|inputs|, i requires 0 <= i < |inputs| => SpendOf(inputs[i], txHash, at))
  }

  function AnchorOf(t: TxAt): Anchor {
    Anchor(t.number, t.blockHash, t.txIndex)
  }

  function TransitionOf(rules: Rules, t: TxAt, inputs: seq<ResolvedInput>, outputs: seq<RgbppOutput>): NewTransition {
    NewTransition(
      t.tx.hash,
      AnchorOf(t),
      t.timestamp,
      ClassifyTransition(inputs, outputs),
      CommonTxid(outputs),
      |inputs|,
      |outputs|,
      ExpectedCommitment(rules.doubleSha, inputs, outputs))
  }

  datatype ExtractedTx = ExtractedTx(cells: seq<NewCell>, spends: seq<CellSpend>, transition: NewTransition)

  /** Everything one transaction contributes; an error if nothing in it is readable. */
  function Extraction(rules: Rules, t: TxAt, inputs: seq<ResolvedInput>): Result<ExtractedTx>
  {
    var outputs := ReadableOutputs(rules.protocol, t.tx, |t.tx.outputs|);
    if outputs == [] && inputs == [] then Err(Inconsistent("no readable RGB++ cells"))
    else Ok(ExtractedTx(
              NewCells(rules, t.tx.hash, outputs, AnchorOf(t)),
              Spends(inputs, t.tx.hash, AnchorOf(t)),
              TransitionOf(rules, t, inputs, outputs)))
  }

  method ExtractTx(rules: Rules, t: TxAt, inputs: seq<ResolvedInput>) returns (r: Result<ExtractedTx>)
    ensures r == Extraction(rules, t, inputs)
  {
    hide ReadableOutputs, ClassifyTransition, ExpectedCommitment, CommonTxid, BuildNewCell;
    var outputs := ClassifyOutputs(rules.protocol, t.tx);
    if |outputs| == 0 && |inputs| == 0 {
      return Err(Inconsistent("no readable RGB++ cells"));
    }
    var cells := NewCells(rules, t.tx.hash, outputs, AnchorOf(t));
    var spends := Spends(inputs, t.tx.hash, AnchorOf(t));
    var kind := ClassifyTransition(inputs, outputs);
    var btcTxid := DeriveBtcTxid(outputs);
    var commitment := ComputeExpectedCommitment(rules.doubleSha, inputs, outputs);
    return Ok(ExtractedTx(cells, spends,
                          NewTransition(t.tx.hash, AnchorOf(t), t.timestamp, kind, btcTxid,
                                        |inputs|, |outputs|, commitment)));
  }

  // ----- what a commitment pins down

  /** The output was classified from its own lock and parsed from its own args. */
  predicate Genuine(protocol: ProtocolScripts, o: RgbppOutput) {
    protocol.Classify(o.cell.lock) == Some(o.binding.Kind())
    && ParseBinding(o.binding.Kind(), o.cell.lock.args) == Ok(o.binding)
  }

  /** Equal as cells and data, up to the Bitcoin txid in the lock args. */
  predicate SameUpToTxid(a: RgbppOutput, b: RgbppOutput) {
    && a.data == b.data
    && a.cell.capacity == b.cell.capacity
    && a.cell.type_ == b.cell.type_
    && a.cell.lock.codeHash == b.cell.lock.codeHash
    && a.cell.lock.hashType == b.cell.lock.hashType
    && EqualUpToTxid(a.cell.lock.args, b.cell.lock.args)
  }

  lemma CommittedExact(protocol: ProtocolScripts, a: RgbppOutput, b: RgbppOutput)
    requires Genuine(protocol, a) && Genuine(protocol, b)
    ensures Committed(a).Some? && Committed(b).Some?
    ensures Committed(a) == Committed(b) <==> SameUpToTxid(a, b)
  {
    hide ParseBinding, ArgsWithPlaceholder;
    PlaceholderZeroesTheTail(a.binding.Kind(), a.cell.lock.args);
    PlaceholderZeroesTheTail(b.binding.Kind(), b.cell.lock.args);
    if a.binding.Kind() == b.binding.Kind() {
      PlaceholderForgetsOnlyTheTxid(a.binding.Kind(), a.cell.lock.args, b.cell.lock.args);
    }
  }

  predicate PreimageSized(outputs: seq<RgbppOutput>) {
    AllCommitted(outputs) && forall i :: 0 <= i < |outputs| ==> EntrySized(Committed(outputs[i]).value)
  }

  predicate AllGenuine(protocol: ProtocolScripts, outputs: seq<RgbppOutput>) {
    forall i :: 0 <= i < |outputs| ==> Genuine(protocol, outputs[i])
  }

  predicate AllSameUpToTxid(a: seq<RgbppOutput>, b: seq<RgbppOutput>) {
    |a| == |b| && forall i :: 0 <= i < |a| ==> SameUpToTxid(a[i], b[i])
  }

  lemma EntriesExact(protocol: ProtocolScripts, a: seq<RgbppOutput>, b: seq<RgbppOutput>)
    requires AllGenuine(protocol, a) && AllGenuine(protocol, b)
    ensures AllCommitted(a) && AllCommitted(b)
    ensures CommittedEntries(a) == CommittedEntries(b) <==> AllSameUpToTxid(a, b)
  {
    hide Committed, SameUpToTxid, Genuine;
    forall i | 0 <= i < |a|
      ensures Committed(a[i]).Some?
    {
      CommittedExact(protocol, a[i], a[i]);
    }
    forall i | 0 <= i < |b|
      ensures Committed(b[i]).Some?
    {
      CommittedExact(protocol, b[i], b[i]);
    }
    if |a| == |b| {
      forall i | 0 <= i < |a|
        ensures Committed(a[i]) == Committed(b[i]) <==> SameUpToTxid(a[i], b[i])
      {
        CommittedExact(protocol, a[i], b[i]);
      }
      if CommittedEntries(a) == CommittedEntries(b) {
        forall i | 0 <= i < |a|
          ensures SameUpToTxid(a[i], b[i])
        {
          assert CommittedEntries(a)[i] == CommittedEntries(b)[i];
        }
      }
    } else {
      assert |CommittedEntries(a)| != |CommittedEntries(b)|;
    }
  }

  /**
   Two transactions with at most 255 RGB++ inputs each have equal commitment pre-images iff they
   consume the same out points in the same order and their RGB++ outputs agree up to the Bitcoin txid.
   */
  lemma EqualPreimagesExactly(protocol: ProtocolScripts,
                              inputsA: seq<ResolvedInput>, outputsA: seq<RgbppOutput>,
                              inputsB: seq<ResolvedInput>, outputsB: seq<RgbppOutput>)
    requires AllGenuine(protocol, outputsA) && AllGenuine(protocol, outputsB)
    requires PreimageSized(outputsA) && PreimageSized(outputsB)
    requires |inputsA| <= 255 && |inputsB| <= 255
    requires (inputsA != [] || outputsA != []) && (inputsB != [] || outputsB != [])
    ensures ExpectedPreimage(inputsA, outputsA).Some? && ExpectedPreimage(inputsB, outputsB).Some?
    ensures Preimage(ExpectedPreimage(inputsA, outputsA).value) == Preimage(ExpectedPreimage(inputsB, outputsB).value)
       <==> InputPoints(inputsA) == InputPoints(inputsB) && AllSameUpToTxid(outputsA, outputsB)
  {
    hide Preimage, Committed, EntrySized, SameUpToTxid, Genuine;
    EntriesExact(protocol, outputsA, outputsB);
    var a, b := ExpectedPreimage(inputsA, outputsA).value, ExpectedPreimage(inputsB, outputsB).value;
    if Preimage(a) == Preimage(b) {
      PreimageDecodesUniquely(a, b);
    }
  }

  // ----- where that ends: the input count byte

  /** What a transaction with up to `maxInputs` RGB++ inputs may commit to. No cell is consumed twice. */
  predicate Committable(protocol: ProtocolScripts, inputs: seq<ResolvedInput>, outputs: seq<RgbppOutput>,
                        maxInputs: nat) {
    && AllGenuine(protocol, outputs) && PreimageSized(outputs)
    && (inputs != [] || outputs != []) && |inputs| <= maxInputs && DistinctPoints(InputPoints(inputs))
  }

  function PreimageBytes(inputs: seq<ResolvedInput>, outputs: seq<RgbppOutput>): Bytes {
    match ExpectedPreimage(inputs, outputs)
    case None => []
    case Some(p) => Preimage(p)
  }

  /** Pre-images of such transactions are equal only if the transactions are, up to the Bitcoin txid. */
  ghost predicate IdentifiesUpTo(protocol: ProtocolScripts, maxInputs: nat) {
    forall inputsA, outputsA, inputsB, outputsB ::
      Committable(protocol, inputsA, outputsA, maxInputs) && Committable(protocol, inputsB, outputsB, maxInputs) ==>
        (PreimageBytes(inputsA, outputsA) == PreimageBytes(inputsB, outputsB)
         <==> InputPoints(inputsA) == InputPoints(inputsB) && AllSameUpToTxid(outputsA, outputsB))
  }

  const SEAL: RgbppLockArgs := RgbppLockArgs(0, Zeros(32))

  function SealOutput(protocol: ProtocolScripts, data: Bytes): RgbppOutput {
    RgbppOutput(0, RgbppBinding(SEAL), SealCell(protocol.rgbppLock.codeHash, protocol.rgbppLock.hashType), data)
  }

  function SealInputs(protocol: ProtocolScripts, points: seq<OutPoint>): seq<ResolvedInput> {
    seq(|points|, i requires 0 <= i < |points| =>
        ResolvedInput(i, points[i], RgbppBinding(SEAL), SealOutput(protocol, []).cell, []))
  }

  lemma SealArgs()
    ensures EncodeRgbpp(SEAL) == Zeros(36) && ParseRgbpp(Zeros(36)) == Ok(SEAL)
  {
    SmallLe(0);
    RgbppArgsExact(Zeros(36), SEAL);
  }

  lemma SealIsGenuine(protocol: ProtocolScripts, data: Bytes)
    ensures Genuine(protocol, SealOutput(protocol, data))
    ensures Committed(SealOutput(protocol, data)) == Some(Entry(SealOutput(protocol, data).cell, data))
  {
    hide EncodeRgbpp, ParseRgbpp;
    SealArgs();
  }

  lemma SealPreimage(protocol: ProtocolScripts, points: seq<OutPoint>, data: Bytes)
    requires EntrySized(Entry(SealOutput(protocol, data).cell, data)) && DistinctPoints(points)
    ensures var inputs, outputs := SealInputs(protocol, points), [SealOutput(protocol, data)];
            && Committable(protocol, inputs, outputs, |points|) && InputPoints(inputs) == points
            && PreimageBytes(inputs, outputs) == Preimage(CommitmentPreimage(0, points, [Entry(outputs[0].cell, data)]))
  {
    hide Preimage, Committed, Genuine, EntrySized;
    SealIsGenuine(protocol, data);
    var inputs, outputs := SealInputs(protocol, points), [SealOutput(protocol, data)];
    assert InputPoints(inputs) == points;
    assert CommittedEntries(outputs) == [Entry(outputs[0].cell, data)];
  }

  /** An issuance and a transfer with 256 different inputs, both under the RGB++ lock, share their pre-image. */
  lemma TransactionsCollide(protocol: ProtocolScripts)
    returns (outputsA: seq<RgbppOutput>, inputsB: seq<ResolvedInput>, outputsB: seq<RgbppOutput>)
    ensures Committable(protocol, [], outputsA, 0) && Committable(protocol, inputsB, outputsB, 256) && |inputsB| == 256
    ensures PreimageBytes([], outputsA) == PreimageBytes(inputsB, outputsB)
  {
    hide Preimage, EntrySized, Committable, DistinctPoints;
    var id := protocol.rgbppLock;
    var a, b, data := CountByteCollision(id.codeHash, id.hashType);
    outputsA, outputsB := [SealOutput(protocol, data)], [SealOutput(protocol, [])];
    inputsB := SealInputs(protocol, b.inputs);
    assert EntrySized(a.outputs[0]) && EntrySized(b.outputs[0]);
    NoDistinctPoints();
    SealPreimage(protocol, [], data);
    SealPreimage(protocol, b.inputs, []);
    assert SealInputs(protocol, []) == [];
  }

  lemma NoDistinctPoints()
    ensures DistinctPoints([])
  {
  }

  lemma FewerInputs(protocol: ProtocolScripts, inputs: seq<ResolvedInput>, outputs: seq<RgbppOutput>, n: nat, m: nat)
    requires Committable(protocol, inputs, outputs, n) && n <= m
    ensures Committable(protocol, inputs, outputs, m)
  {
    hide PreimageSized, AllGenuine, DistinctPoints;
  }

  /** The pre-image identifies every transaction with up to `maxInputs` inputs iff the count fits its byte. */
  lemma IdentifiesExactlyUpTo255(protocol: ProtocolScripts, maxInputs: nat)
    ensures IdentifiesUpTo(protocol, maxInputs) <==> maxInputs <= 255
  {
    hide Preimage, ExpectedPreimage, PreimageSized, AllGenuine, DistinctPoints, AllSameUpToTxid;
    if maxInputs <= 255 {
      forall inputsA, outputsA, inputsB, outputsB |
        Committable(protocol, inputsA, outputsA, maxInputs) && Committable(protocol, inputsB, outputsB, maxInputs)
        ensures PreimageBytes(inputsA, outputsA) == PreimageBytes(inputsB, outputsB)
           <==> InputPoints(inputsA) == InputPoints(inputsB) && AllSameUpToTxid(outputsA, outputsB)
      {
        EqualPreimagesExactly(protocol, inputsA, outputsA, inputsB, outputsB);
      }
    } else {
      var outputsA, inputsB, outputsB := TransactionsCollide(protocol);
      FewerInputs(protocol, [], outputsA, 0, maxInputs);
      FewerInputs(protocol, inputsB, outputsB, 256, maxInputs);
      assert |InputPoints([])| != |InputPoints(inputsB)|;
    }
  }

  /** No input has the index that the code hash of either lock spells. */
  predicate NoSpelledIndex(protocol: ProtocolScripts, inputs: seq<ResolvedInput>) {
    forall i :: 0 <= i < |inputs| ==>
      inputs[i].outPoint.index != SpelledIndex(protocol.rgbppLock.codeHash)
      && inputs[i].outPoint.index != SpelledIndex(protocol.btcTimeLock.codeHash)
  }

  lemma DifferentCountsCollide(protocol: ProtocolScripts,
                               inputsA: seq<ResolvedInput>, outputsA: seq<RgbppOutput>,
                               inputsB: seq<ResolvedInput>, outputsB: seq<RgbppOutput>)
    requires AllGenuine(protocol, outputsA) && AllGenuine(protocol, outputsB)
    requires (inputsA != [] || outputsA != []) && (inputsB != [] || outputsB != [])
    requires |inputsA| < |inputsB| && PreimageBytes(inputsA, outputsA) == PreimageBytes(inputsB, outputsB)
    ensures !NoSpelledIndex(protocol, inputsB)
  {
    hide Preimage, SpelledIndex, ParseBinding, ArgsWithPlaceholder;
    EntriesExact(protocol, outputsA, outputsB);
    var a, b := ExpectedPreimage(inputsA, outputsA).value, ExpectedPreimage(inputsB, outputsB).value;
    LongerSpellsIndex(a, b);
    assert Genuine(protocol, outputsA[0]);
    assert a.outputs[0] == Committed(outputsA[0]).value;
    assert b.inputs[|inputsA| + 1] == inputsB[|inputsA| + 1].outPoint;
  }

  /**
   With no such input index, pre-images identify transactions with any number of inputs. Almost every code
   hash spells an index far above the number of outputs any transaction has.
   */
  lemma AnyCountExactly(protocol: ProtocolScripts,
                        inputsA: seq<ResolvedInput>, outputsA: seq<RgbppOutput>,
                        inputsB: seq<ResolvedInput>, outputsB: seq<RgbppOutput>)
    requires AllGenuine(protocol, outputsA) && AllGenuine(protocol, outputsB)
    requires PreimageSized(outputsA) && PreimageSized(outputsB)
    requires (inputsA != [] || outputsA != []) && (inputsB != [] || outputsB != [])
    requires NoSpelledIndex(protocol, inputsA) && NoSpelledIndex(protocol, inputsB)
    ensures PreimageBytes(inputsA, outputsA) == PreimageBytes(inputsB, outputsB)
       <==> InputPoints(inputsA) == InputPoints(inputsB) && AllSameUpToTxid(outputsA, outputsB)
  {
    hide Preimage, Committed, EntrySized, SameUpToTxid, Genuine, NoSpelledIndex;
    EntriesExact(protocol, outputsA, outputsB);
    var a, b := ExpectedPreimage(inputsA, outputsA).value, ExpectedPreimage(inputsB, outputsB).value;
    if Preimage(a) == Preimage(b) {
      if |inputsA| < |inputsB| {
        DifferentCountsCollide(protocol, inputsA, outputsA, inputsB, outputsB);
      } else if |inputsB| < |inputsA| {
        DifferentCountsCollide(protocol, inputsB, outputsB, inputsA, outputsA);
      } else {
        PreimageParts(a, b);
        PointsInjective(a.inputs, b.inputs);
        EntriesInjective(a.outputs, b.outputs);
      }
    }
  }

  // ----- together with the txid, nothing is left open

  /**
   Transactions with at most 255 inputs that share their pre-image and their Bitcoin txid consume the same
   out points and create the same cells with the same data.
   */
  lemma PreimageAndTxidPinAll(protocol: ProtocolScripts,
                              inputsA: seq<ResolvedInput>, outputsA: seq<RgbppOutput>,
                              inputsB: seq<ResolvedInput>, outputsB: seq<RgbppOutput>)
    requires Committable(protocol, inputsA, outputsA, 255) && Committable(protocol, inputsB, outputsB, 255)
    requires PreimageBytes(inputsA, outputsA) == PreimageBytes(inputsB, outputsB)
    requires CommonTxid(outputsA) == CommonTxid(outputsB) && (CommonTxid(outputsA).Some? || outputsA == [])
    ensures InputPoints(inputsA) == InputPoints(inputsB) && |outputsA| == |outputsB|
    ensures forall i :: 0 <= i < |outputsA| ==> outputsA[i].cell == outputsB[i].cell && outputsA[i].data == outputsB[i].data
  {
    hide Preimage, ParseBinding, EqualUpToTxid, PreimageSized, DistinctPoints;
    EqualPreimagesExactly(protocol, inputsA, outputsA, inputsB, outputsB);
    forall i | 0 <= i < |outputsA|
      ensures outputsA[i].cell == outputsB[i].cell
    {
      var a, b := outputsA[i], outputsB[i];
      assert Genuine(protocol, a) && Genuine(protocol, b) && SameUpToTxid(a, b);
      ArgsOfOneBinding(a.binding.Kind(), a.cell.lock.args, b.cell.lock.args);
    }
  }
}
