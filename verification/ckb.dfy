/** The CKB value types that appear in transactions (crates/types/src/ckb.rs). */
module Ckb {
  import opened Wrappers
  import opened ByteStrings

  type H256 = b: Bytes | |b| == 32 witness Zeros(32)

  /** blake2b and sha256 stay abstract: every result holds for any function in their place. */
  type Hash = Bytes -> H256

  datatype ScriptHashType = Data | Type | Data1 | Data2 {
    function ToByte(): byte {
      match this
      case Data => 0
      case Type => 1
      case Data1 => 2
      case Data2 => 4
    }
  }

  datatype Script = Script(codeHash: H256, hashType: ScriptHashType, args: Bytes)

  datatype OutPoint = OutPoint(txHash: H256, index: u32)

  datatype CellOutput = CellOutput(capacity: u64, lock: Script, type_: Option<Script>)
}
