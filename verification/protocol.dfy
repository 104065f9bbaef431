/**
 The two locks that define the protocol surface and what their args mean
 (crates/types/src/protocol.rs, crates/types/src/bitcoin.rs).
 */
module Protocol {
  import opened Wrappers
  import opened ByteStrings
  import opened Ckb
  import opened Molecule

  datatype LockKind = Rgbpp | BtcTime

  datatype ScriptId = ScriptId(codeHash: H256, hashType: ScriptHashType) {
    predicate Matches(script: Script) {
      script.codeHash == codeHash && script.hashType == hashType
    }
  }

  datatype ProtocolScripts = ProtocolScripts(rgbppLock: ScriptId, btcTimeLock: ScriptId) {
    function Id(kind: LockKind): ScriptId {
      match kind
      case Rgbpp => rgbppLock
      case BtcTime => btcTimeLock
    }

    function Classify(lock: Script): Option<LockKind> {
      if rgbppLock.Matches(lock) then Some(Rgbpp)
      else if btcTimeLock.Matches(lock) then Some(BtcTime)
      else None
    }
  }

  // ----- Bitcoin txids are kept in display order and embedded in internal order

  type BtcTxid = H256

  datatype BtcOutPoint = BtcOutPoint(txid: BtcTxid, vout: u32)

  function FromInternalBytes(bytes: Bytes): Result<BtcTxid> {
    if |bytes| != 32 then Err(Length(32, |bytes|)) else Ok(Reversed(bytes))
  }

  function ToInternalBytes(txid: BtcTxid): H256 {
    Reversed(txid)
  }

  // ----- lock args

  datatype RgbppLockArgs = RgbppLockArgs(outIndex: u32, txid: BtcTxid)

  datatype BtcTimeLockArgs = BtcTimeLockArgs(targetLock: Script, after: u32, txid: BtcTxid)

  datatype LockBinding =
    | RgbppBinding(rgbpp: RgbppLockArgs)
    | BtcTimeBinding(btcTime: BtcTimeLockArgs)
  {
    function Kind(): LockKind {
      if RgbppBinding? then Rgbpp else BtcTime
    }

    function Txid(): BtcTxid {
      match this
      case RgbppBinding(a) => a.txid
      case BtcTimeBinding(a) => a.txid
    }

    function WithTxid(txid: BtcTxid): LockBinding {
      match this
      case RgbppBinding(a) => RgbppBinding(a.(txid := txid))
      case BtcTimeBinding(a) => BtcTimeBinding(a.(txid := txid))
    }
  }

  function ParseRgbpp(args: Bytes): Result<RgbppLockArgs> {
    if |args| != 36 then Err(Length(36, |args|))
    else
      Le32Encodes(args[0..4]);
      var txid :- FromInternalBytes(args[4..36]);
      Ok(RgbppLockArgs(FromLe(args[0..4]), txid))
  }

  function EncodeRgbpp(a: RgbppLockArgs): (s: Bytes)
    ensures |s| == 36
  {
    LeBytes(a.outIndex, 4) + ToInternalBytes(a.txid)
  }

  function ParseBtcTime(args: Bytes): Result<BtcTimeLockArgs> {
    var fields :- TableFields(args);
    if |fields| != 3 then Err(Malformed("expected 3 fields"))
    else
      var targetLock :- DecodeScript(fields[0]);
      if |fields[1]| != 4 then Err(Malformed("`after` is not a Uint32"))
      else
        Le32Encodes(fields[1]);
        var txid :- FromInternalBytes(fields[2]);
        Ok(BtcTimeLockArgs(targetLock, FromLe(fields[1]), txid))
  }

  function BtcTimeHead(a: BtcTimeLockArgs): seq<Bytes> {
    [EncodeScript(a.targetLock), LeBytes(a.after, 4)]
  }

  function EncodeBtcTime(a: BtcTimeLockArgs): Bytes {
    Table(BtcTimeHead(a) + [ToInternalBytes(a.txid)])
  }

  function ParseBinding(kind: LockKind, args: Bytes): Result<LockBinding> {
    match kind
    case Rgbpp => var a :- ParseRgbpp(args); Ok(RgbppBinding(a))
    case BtcTime => var a :- ParseBtcTime(args); Ok(BtcTimeBinding(a))
  }

  function EncodeBinding(binding: LockBinding): Bytes {
    match binding
    case RgbppBinding(a) => EncodeRgbpp(a)
    case BtcTimeBinding(a) => EncodeBtcTime(a)
  }

  lemma RgbppArgsExact(args: Bytes, a: RgbppLockArgs)
    ensures ParseRgbpp(args) == Ok(a) <==> args == EncodeRgbpp(a)
  {
    Le32(a.outIndex);
    ReversedTwice(a.txid);
    if ParseRgbpp(args) == Ok(a) {
      Le32Encodes(args[0..4]);
      assert args == args[0..4] + args[4..36];
    }
    if args == EncodeRgbpp(a) {
      assert args[0..4] == LeBytes(a.outIndex, 4);
      assert args[4..36] == ToInternalBytes(a.txid);
    }
  }

  lemma BtcTimeArgsExact(args: Bytes, a: BtcTimeLockArgs)
    ensures ParseBtcTime(args) == Ok(a) <==> args == EncodeBtcTime(a) && |args| < U32
  {
    hide LeBytes, FromLe, TableFields, DecodeScript;
    var expected := BtcTimeHead(a) + [ToInternalBytes(a.txid)];
    TableFieldsExact(args, expected);
    Le32(a.after);
    ReversedTwice(a.txid);
    if args == EncodeBtcTime(a) && |args| < U32 {
      TableLength(expected);
      TotalLengthPrefix(expected, 0);
      ScriptExact(expected[0], a.targetLock);
    }
    if ParseBtcTime(args) == Ok(a) {
      var fields := TableFields(args).value;
      ScriptExact(fields[0], a.targetLock);
      Le32Encodes(fields[1]);
      ReversedTwice(fields[2]);
      assert fields == expected;
    }
  }

  /** Both lock args parse exactly from their own encodings; every accepted string re-encodes to itself. */
  lemma LockArgsExact(kind: LockKind, args: Bytes, binding: LockBinding)
    ensures ParseBinding(kind, args) == Ok(binding)
       <==> binding.Kind() == kind && args == EncodeBinding(binding) && (kind == BtcTime ==> |args| < U32)
  {
    match binding
    case RgbppBinding(a) => RgbppArgsExact(args, a);
    case BtcTimeBinding(a) => BtcTimeArgsExact(args, a);
  }

  // ----- the placeholder form that a commitment covers

  function ArgsWithPlaceholder(kind: LockKind, args: Bytes): Result<Bytes> {
    match kind
    case Rgbpp => var a :- ParseRgbpp(args); Ok(EncodeRgbpp(a.(txid := Zeros(32))))
    case BtcTime => var a :- ParseBtcTime(args); Ok(EncodeBtcTime(a.(txid := Zeros(32))))
  }

  /** The rewrite zeroes exactly the last 32 bytes of args that parse, and refuses the others. */
  lemma PlaceholderZeroesTheTail(kind: LockKind, args: Bytes)
    ensures ArgsWithPlaceholder(kind, args).Ok? <==> ParseBinding(kind, args).Ok?
    ensures ArgsWithPlaceholder(kind, args).Ok? ==>
              |args| >= 32 && ArgsWithPlaceholder(kind, args).value == args[..|args| - 32] + Zeros(32)
  {
    hide LeBytes, ParseRgbpp, ParseBtcTime, Table;
    if ParseBinding(kind, args).Ok? {
      assert Reversed(Zeros(32)) == Zeros(32);
      match ParseBinding(kind, args).value
      case RgbppBinding(a) =>
        RgbppArgsExact(args, a);
        assert args[..4] == LeBytes(a.outIndex, 4);
      case BtcTimeBinding(a) =>
        BtcTimeArgsExact(args, a);
        LastField(BtcTimeHead(a), ToInternalBytes(a.txid), Zeros(32));
    }
  }

  /** The rewritten args parse again, to the same binding with a zero txid, and rewriting is idempotent. */
  lemma PlaceholderParses(kind: LockKind, args: Bytes)
    requires ParseBinding(kind, args).Ok?
    ensures var p := ArgsWithPlaceholder(kind, args);
            p.Ok? && |p.value| == |args|
            && ParseBinding(kind, p.value) == Ok(ParseBinding(kind, args).value.WithTxid(Zeros(32)))
            && ArgsWithPlaceholder(kind, p.value) == p
  {
    hide LeBytes, ParseRgbpp, ParseBtcTime, Table;
    PlaceholderZeroesTheTail(kind, args);
    var p := ArgsWithPlaceholder(kind, args).value;
    match ParseBinding(kind, args).value
    case RgbppBinding(a) =>
      RgbppArgsExact(args, a);
      RgbppArgsExact(p, a.(txid := Zeros(32)));
    case BtcTimeBinding(a) =>
      BtcTimeArgsExact(args, a);
      BtcTimeArgsExact(p, a.(txid := Zeros(32)));
  }

  predicate EqualUpToTxid(a: Bytes, b: Bytes) {
    |a| == |b| >= 32 && a[..|a| - 32] == b[..|b| - 32]
  }

  /** Two placeholder forms agree exactly when the args agree up to the trailing Bitcoin txid. */
  lemma PlaceholderForgetsOnlyTheTxid(kind: LockKind, a: Bytes, b: Bytes)
    requires ParseBinding(kind, a).Ok? && ParseBinding(kind, b).Ok?
    ensures ArgsWithPlaceholder(kind, a) == ArgsWithPlaceholder(kind, b) <==> EqualUpToTxid(a, b)
  {
    hide ParseBinding, ArgsWithPlaceholder;
    PlaceholderZeroesTheTail(kind, a);
    PlaceholderZeroesTheTail(kind, b);
    if ArgsWithPlaceholder(kind, a) == ArgsWithPlaceholder(kind, b) {
      assert a[..|a| - 32] == ArgsWithPlaceholder(kind, a).value[..|a| - 32];
      assert b[..|b| - 32] == ArgsWithPlaceholder(kind, b).value[..|b| - 32];
    }
  }

  /** Two bindings that parse from args equal up to the txid differ at most in the txid. */
  lemma ArgsOfOneBinding(kind: LockKind, a: Bytes, b: Bytes)
    requires ParseBinding(kind, a).Ok? && ParseBinding(kind, b).Ok?
    requires EqualUpToTxid(a, b) && ParseBinding(kind, a).value.Txid() == ParseBinding(kind, b).value.Txid()
    ensures a == b
  {
    hide LeBytes, ParseRgbpp, ParseBtcTime, Table;
    LockArgsExact(kind, a, ParseBinding(kind, a).value);
    LockArgsExact(kind, b, ParseBinding(kind, b).value);
    match ParseBinding(kind, a).value
    case RgbppBinding(x) =>
      assert a == a[..4] + ToInternalBytes(x.txid);
      assert b == b[..4] + ToInternalBytes(x.txid);
    case BtcTimeBinding(x) =>
      var y := ParseBinding(kind, b).value.btcTime;
      LastField(BtcTimeHead(x), ToInternalBytes(x.txid), Zeros(32));
      LastField(BtcTimeHead(y), ToInternalBytes(x.txid), Zeros(32));
      assert a == a[..|a| - 32] + a[|a| - 32..];
      assert b == b[..|b| - 32] + b[|b| - 32..];
  }
}
