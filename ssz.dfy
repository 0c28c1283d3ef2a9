/** The SSZ serialisation of the fixed-size `DepositData` container declared
    at site/src/App.tsx:7-14 and applied at site/src/App.tsx:34. */
module Ssz {
  import opened Bytes

  /** The field types the schema uses: `bytesN` is a vector of N bytes,
      `uintN` an unsigned integer of N/8 bytes. */
  datatype SszType = ByteVector(length: nat) | Uint(byteLength: nat)

  datatype SszValue = ByteVec(bytes: seq<byte>) | Int(n: int)

  /** The value has the shape and range its field type demands. */
  predicate Conforms(t: SszType, v: SszValue) {
    match t
    case ByteVector(n) => v.ByteVec? && |v.bytes| == n
    case Uint(k) => v.Int? && 0 <= v.n < Pow256(k)
  }

  /** Number of bytes a value of a fixed-size type serialises to. */
  function FixedSize(t: SszType): nat {
    match t
    case ByteVector(n) => n
    case Uint(k) => k
  }

  /** A `bytesN` value is copied verbatim; a `uintN` is written little-endian. */
  function SerializeField(t: SszType, v: SszValue): (r: seq<byte>)
    requires Conforms(t, v)
    ensures |r| == FixedSize(t)
    ensures t.ByteVector? ==> r == v.bytes
    ensures t.Uint? ==> FromLittleEndian(r) == v.n
  {
    match t
    case ByteVector(_) => v.bytes
    case Uint(k) =>
      FromLittleEndianOfLittleEndian(v.n, k);
      LittleEndian(v.n, k)
  }

  type Schema = seq<(string, SszType)>

  function SchemaSize(fields: Schema): nat {
    if fields == [] then 0 else FixedSize(fields[0].1) + SchemaSize(fields[1..])
  }

  predicate ConformsAll(fields: Schema, values: seq<SszValue>) {
    |fields| == |values| && forall i :: 0 <= i < |fields| ==> Conforms(fields[i].1, values[i])
  }

  /** A container whose fields are all fixed-size serialises to the
      concatenation of its fields in declaration order, with no length
      prefixes. */
  function SerializeContainer(fields: Schema, values: seq<SszValue>): (r: seq<byte>)
    requires ConformsAll(fields, values)
    ensures |r| == SchemaSize(fields)
  {
    if fields == [] then []
    else SerializeField(fields[0].1, values[0]) + SerializeContainer(fields[1..], values[1..])
  }

  /** A non-empty container serialises to its first field followed by the rest. */
  lemma ContainerCons(fields: Schema, values: seq<SszValue>)
    requires ConformsAll(fields, values) && fields != []
    ensures ConformsAll(fields[1..], values[1..])
    ensures SerializeContainer(fields, values)
            == SerializeField(fields[0].1, values[0]) + SerializeContainer(fields[1..], values[1..])
  {
    forall j | 0 <= j < |fields| - 1
      ensures Conforms(fields[1..][j].1, values[1..][j])
    {
      assert fields[1..][j] == fields[j + 1] && values[1..][j] == values[j + 1];
    }
  }

  /** The container schema of site/src/App.tsx:7-14, in declaration order. */
  const DepositDataType: Schema := [
    ("pubkey", ByteVector(48)),
    ("withdrawal_credentials", ByteVector(32)),
    ("amount", Uint(8)),
    ("signature", ByteVector(96))
  ]

  /** One deposit record as `computeDepositDataRoot` receives it. */
  datatype DepositData = DepositData(
    pubkey: seq<byte>,
    withdrawalCredentials: seq<byte>,
    amount: int,
    signature: seq<byte>)

  /** The record's fields, in the schema's order. */
  function Fields(d: DepositData): seq<SszValue> {
    [ByteVec(d.pubkey), ByteVec(d.withdrawalCredentials), Int(d.amount), ByteVec(d.signature)]
  }

  /** The field lengths and range the schema declares: exactly the records
      whose fields conform to `DepositDataType`. */
  predicate WellFormed(d: DepositData): (b: bool)
    ensures b <==> ConformsAll(DepositDataType, Fields(d))
  {
    FieldsConform(d);
    |d.pubkey| == 48 && |d.withdrawalCredentials| == 32
    && 0 <= d.amount < Uint64Bound && |d.signature| == 96
  }

  lemma FieldsConform(d: DepositData)
    ensures ConformsAll(DepositDataType, Fields(d))
            <==> |d.pubkey| == 48 && |d.withdrawalCredentials| == 32
                 && 0 <= d.amount < Uint64Bound && |d.signature| == 96
  {
    Pow256Eight();
    var f := Fields(d);
    if |d.pubkey| == 48 && |d.withdrawalCredentials| == 32 && 0 <= d.amount < Uint64Bound && |d.signature| == 96 {
      forall i | 0 <= i < 4
        ensures Conforms(DepositDataType[i].1, f[i])
      {
        assert i == 0 || i == 1 || i == 2 || i == 3;
      }
    }
    if ConformsAll(DepositDataType, f) {
      assert Conforms(DepositDataType[0].1, f[0]) && Conforms(DepositDataType[1].1, f[1]);
      assert Conforms(DepositDataType[2].1, f[2]) && Conforms(DepositDataType[3].1, f[3]);
    }
  }

  /** Size of one serialised `DepositData`: 48 + 32 + 8 + 96. */
  const DepositDataSize: nat := 184

  /** The schema's fields are named as in the source, and their fixed sizes
      add up to 184 bytes. */
  lemma DepositDataTypeSize()
    ensures |DepositDataType| == 4
    ensures DepositDataType[0].0 == "pubkey" && DepositDataType[1].0 == "withdrawal_credentials"
    ensures DepositDataType[2].0 == "amount" && DepositDataType[3].0 == "signature"
    ensures SchemaSize(DepositDataType) == DepositDataSize
  {
    assert DepositDataType[1..][1..][1..][1..] == [];
  }

  /** `DepositDataType.serialize(depositData)` (site/src/App.tsx:34): 184
      bytes, pubkey at [0,48), withdrawal credentials at [48,80), the amount
      little-endian at [80,88) and the signature at [88,184). */
  function Serialize(d: DepositData): (r: seq<byte>)
    requires WellFormed(d)
    ensures |r| == DepositDataSize
    ensures r[..48] == d.pubkey
    ensures r[48..80] == d.withdrawalCredentials
    ensures r[80..88] == LittleEndian(d.amount, 8)
    ensures FromLittleEndian(r[80..88]) == d.amount
    ensures r[88..] == d.signature
  {
    Pow256Eight();
    var values := Fields(d);
    assert ConformsAll(DepositDataType, values);
    var r := SerializeContainer(DepositDataType, values);
    ContainerCons(DepositDataType, values);
    ContainerCons(DepositDataType[1..], values[1..]);
    ContainerCons(DepositDataType[2..], values[2..]);
    ContainerCons(DepositDataType[3..], values[3..]);
    assert DepositDataType[1..][1..] == DepositDataType[2..] && values[1..][1..] == values[2..];
    assert DepositDataType[2..][1..] == DepositDataType[3..] && values[2..][1..] == values[3..];
    assert DepositDataType[3..][1..] == [];
    var amount := LittleEndian(d.amount, 8);
    assert r == d.pubkey + d.withdrawalCredentials + amount + d.signature;
    r
  }

  /** The amount the loader's comment names, 32 ether in gwei, is written
      00 40 59 73 07 00 00 00. */
  lemma AmountOf32Ether()
    ensures LittleEndian(32_000_000_000, 8) == [0x00, 0x40, 0x59, 0x73, 0x07, 0x00, 0x00, 0x00]
  {
    var high := LittleEndian(7, 4);
    assert high == [0x07, 0x00, 0x00, 0x00];
    assert LittleEndian(1907, 5) == [0x73] + high;
    assert LittleEndian(488281, 6) == [0x59, 0x73] + high;
    assert LittleEndian(125_000_000, 7) == [0x40, 0x59, 0x73] + high;
  }

  /** Reads the four fields back from their positions in a serialisation. */
  function Deserialize(bs: seq<byte>): (d: DepositData)
    requires |bs| == DepositDataSize
    ensures WellFormed(d)
  {
    Pow256Eight();
    DepositData(bs[..48], bs[48..80], FromLittleEndian(bs[80..88]), bs[88..])
  }

  /** Deserialising a serialisation gives the record back. */
  lemma DeserializeSerialize(d: DepositData)
    requires WellFormed(d)
    ensures Deserialize(Serialize(d)) == d
  {
  }

  /** Every 184-byte string is the serialisation of the record it decodes to. */
  lemma SerializeDeserialize(bs: seq<byte>)
    requires |bs| == DepositDataSize
    ensures Serialize(Deserialize(bs)) == bs
  {
    var r := Serialize(Deserialize(bs));
    LittleEndianOfFromLittleEndian(bs[80..88]);
    assert r == r[..48] + r[48..80] + r[80..88] + r[88..];
    assert bs == bs[..48] + bs[48..80] + bs[80..88] + bs[88..];
  }

  /** Distinct well-formed records have distinct serialisations. */
  lemma SerializeInjective(d: DepositData, e: DepositData)
    requires WellFormed(d) && WellFormed(e)
    requires Serialize(d) == Serialize(e)
    ensures d == e
  {
    DeserializeSerialize(d);
    DeserializeSerialize(e);
  }
}
