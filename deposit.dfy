/** `computeDepositDataRoot` and the per-record mapping of the file loader
    (site/src/App.tsx:28-36 and 45-53). */
module DepositRoot {
  import opened Bytes
  import opened Results
  import opened Hex
  import opened Ssz

  /** A SHA-256 digest: always 32 bytes. */
  type Digest = d: seq<byte> | |d| == 32 witness seq(32, _ => 0 as byte)

  /** The host's `crypto.subtle.digest("SHA-256", _)`, given as a parameter;
      nothing is assumed about it except the length of its result. */
  type Sha256 = seq<byte> -> Digest

  /** `computeDepositDataRoot` (site/src/App.tsx:28-36): the SHA-256 digest of
      the flat 184-byte serialisation, written as 64 lowercase hex digits.
      Decoding the string gives back exactly that digest. */
  function ComputeDepositDataRoot(sha256: Sha256, d: DepositData): (root: string)
    requires WellFormed(d)
    ensures |root| == 64 && IsLowerHexString(root)
    ensures ToUint8Array(root) == Ok(sha256(Serialize(d)))
  {
    var digest := sha256(Serialize(d));
    HexRoundTrip(digest);
    ToHexString(digest)
  }

  /** Two records get the same root exactly when their serialisations have
      the same digest. */
  lemma RootsEqualIffDigestsEqual(sha256: Sha256, d: DepositData, e: DepositData)
    requires WellFormed(d) && WellFormed(e)
    ensures ComputeDepositDataRoot(sha256, d) == ComputeDepositDataRoot(sha256, e)
            <==> sha256(Serialize(d)) == sha256(Serialize(e))
  {
    var rd, re := ComputeDepositDataRoot(sha256, d), ComputeDepositDataRoot(sha256, e);
    if rd == re {
      assert ToUint8Array(rd) == ToUint8Array(re);
    }
  }

  /** Distinct records can share a root only through a SHA-256 collision on
      their (distinct) serialisations. */
  lemma SameRootMeansCollisionOrSameRecord(sha256: Sha256, d: DepositData, e: DepositData)
    requires WellFormed(d) && WellFormed(e)
    requires ComputeDepositDataRoot(sha256, d) == ComputeDepositDataRoot(sha256, e)
    ensures d == e || (Serialize(d) != Serialize(e) && sha256(Serialize(d)) == sha256(Serialize(e)))
  {
    RootsEqualIffDigestsEqual(sha256, d, e);
    if Serialize(d) == Serialize(e) {
      SerializeInjective(d, e);
    }
  }

  /** One element of the parsed JSON array, with the fields the loader reads:
      three hex strings and an integer amount. */
  datatype RawRecord = RawRecord(
    pubkey: string,
    withdrawalCredentials: string,
    amount: int,
    signature: string)

  /** Some hex field is too short for `match(/../g)` to find a pair. */
  predicate HasShortField(raw: RawRecord) {
    |raw.pubkey| < 2 || |raw.withdrawalCredentials| < 2 || |raw.signature| < 2
  }

  predicate RawIsHex(raw: RawRecord) {
    IsHexString(raw.pubkey) && IsHexString(raw.withdrawalCredentials) && IsHexString(raw.signature)
  }

  /** The record literal of site/src/App.tsx:46-51: each hex field through
      `toUint8Array`, in the order written, and `BigInt(amount)`. It fails
      when any hex field has fewer than two characters; otherwise every byte
      field holds the values of the pairs of digits of its hex string. */
  function DecodeRecord(raw: RawRecord): (r: Result<DepositData>)
    requires RawIsHex(raw)
    ensures r.Err? <==> HasShortField(raw)
    ensures r.Ok? ==>
              && PairsDecodeTo(raw.pubkey, r.value.pubkey)
              && PairsDecodeTo(raw.withdrawalCredentials, r.value.withdrawalCredentials)
              && r.value.amount == raw.amount
              && PairsDecodeTo(raw.signature, r.value.signature)
  {
    var pubkey :- ToUint8Array(raw.pubkey);
    var withdrawalCredentials :- ToUint8Array(raw.withdrawalCredentials);
    var signature :- ToUint8Array(raw.signature);
    ToUint8ArrayBytes(raw.pubkey);
    ToUint8ArrayBytes(raw.withdrawalCredentials);
    ToUint8ArrayBytes(raw.signature);
    Ok(DepositData(pubkey, withdrawalCredentials, raw.amount, signature))
  }

  /** Each byte field of a decoded record is what `toUint8Array` makes of
      the corresponding hex string. */
  lemma DecodeRecordFields(raw: RawRecord)
    requires RawIsHex(raw) && !HasShortField(raw)
    ensures DecodeRecord(raw) == Ok(DepositData(
              ToUint8Array(raw.pubkey).value,
              ToUint8Array(raw.withdrawalCredentials).value,
              raw.amount,
              ToUint8Array(raw.signature).value))
  {
  }

  /** `parsed.map(decode)` (site/src/App.tsx:45-52): the first record that
      throws aborts the whole map; otherwise one record per input, in order. */
  function DecodeRecords(raws: seq<RawRecord>): (r: Result<seq<DepositData>>)
    requires forall i :: 0 <= i < |raws| ==> RawIsHex(raws[i])
    ensures r.Err? <==> exists i :: 0 <= i < |raws| && HasShortField(raws[i])
    ensures r.Ok? ==> |r.value| == |raws|
    ensures r.Ok? ==> forall i :: 0 <= i < |raws| ==> DecodeRecord(raws[i]) == Ok(r.value[i])
  {
    if raws == [] then Ok([])
    else
      match DecodeRecord(raws[0])
      case Err(e) => Err(e)
      case Ok(d) =>
        match DecodeRecords(raws[1..])
        case Err(e) =>
          ShortFieldInTail(raws);
          Err(e)
        case Ok(ds) =>
          ConsDecoded(raws, d, ds);
          Ok([d] + ds)
  }

  lemma ShortFieldInTail(raws: seq<RawRecord>)
    requires raws != []
    requires exists i :: 0 <= i < |raws| - 1 && HasShortField(raws[1..][i])
    ensures exists i :: 0 <= i < |raws| && HasShortField(raws[i])
  {
    var i :| 0 <= i < |raws| - 1 && HasShortField(raws[1..][i]);
    assert raws[i + 1] == raws[1..][i];
  }

  lemma ConsDecoded(raws: seq<RawRecord>, d: DepositData, ds: seq<DepositData>)
    requires raws != [] && forall i :: 0 <= i < |raws| ==> RawIsHex(raws[i])
    requires DecodeRecord(raws[0]) == Ok(d)
    requires |ds| == |raws| - 1
    requires forall i :: 0 <= i < |ds| ==> DecodeRecord(raws[1..][i]) == Ok(ds[i])
    ensures forall i :: 0 <= i < |raws| ==> DecodeRecord(raws[i]) == Ok(([d] + ds)[i])
  {
    forall i | 1 <= i < |raws|
      ensures DecodeRecord(raws[i]) == Ok(([d] + ds)[i])
    {
      assert raws[i] == raws[1..][i - 1];
    }
  }

  /** Field lengths and amount the schema demands, for a record whose hex
      fields all decode. Whether the SSZ library rejects other records is not
      visible, so callers supply only records of this kind. */
  predicate Serializable(raw: RawRecord) {
    !HasShortField(raw) ==>
      && |raw.pubkey| / 2 == 48
      && |raw.withdrawalCredentials| / 2 == 32
      && |raw.signature| / 2 == 96
      && 0 <= raw.amount < Uint64Bound
  }

  /** A serialisable record that decodes gives a well-formed `DepositData`. */
  lemma DecodeSerializable(raw: RawRecord)
    requires RawIsHex(raw) && Serializable(raw) && DecodeRecord(raw).Ok?
    ensures WellFormed(DecodeRecord(raw).value)
  {
  }

  /** `data.map(computeDepositDataRoot)` (site/src/App.tsx:53): one root per
      record, in order. */
  function DepositDataRoots(sha256: Sha256, data: seq<DepositData>): (roots: seq<string>)
    requires forall i :: 0 <= i < |data| ==> WellFormed(data[i])
    ensures |roots| == |data|
    ensures forall i :: 0 <= i < |data| ==>
              |roots[i]| == 64 && IsLowerHexString(roots[i])
              && ToUint8Array(roots[i]) == Ok(sha256(Serialize(data[i])))
  {
    seq(|data|, i requires 0 <= i < |data| => ComputeDepositDataRoot(sha256, data[i]))
  }

  /** Every record has hex fields and, if it decodes, the schema's sizes. */
  predicate AllAccepted(raws: seq<RawRecord>) {
    forall i :: 0 <= i < |raws| ==> RawIsHex(raws[i]) && Serializable(raws[i])
  }

  /** The load handler's computation (site/src/App.tsx:45-53): decode every
      record, then compute every root. It fails exactly when some record has
      a hex field shorter than two characters; otherwise record `i` gets the
      hex of the digest of its serialisation. */
  function ProcessDepositFile(sha256: Sha256, raws: seq<RawRecord>): (r: Result<seq<string>>)
    requires AllAccepted(raws)
    ensures r.Err? <==> exists i :: 0 <= i < |raws| && HasShortField(raws[i])
    ensures r.Ok? ==> |r.value| == |raws|
    ensures r.Ok? ==> forall i :: 0 <= i < |raws| ==>
              && DecodeRecord(raws[i]).Ok?
              && WellFormed(DecodeRecord(raws[i]).value)
              && r.value[i] == ComputeDepositDataRoot(sha256, DecodeRecord(raws[i]).value)
  {
    var data :- DecodeRecords(raws);
    assert forall i :: 0 <= i < |data| ==> WellFormed(data[i]) by {
      forall i | 0 <= i < |data| ensures WellFormed(data[i]) {
        DecodeSerializable(raws[i]);
      }
    }
    Ok(DepositDataRoots(sha256, data))
  }

  /** The record as a deposit-data file writes it: each byte field as
      lowercase hex, the amount as a number. */
  function HexRecord(d: DepositData): (raw: RawRecord)
    ensures RawIsHex(raw)
  {
    var raw := RawRecord(ToHexString(d.pubkey), ToHexString(d.withdrawalCredentials), d.amount, ToHexString(d.signature));
    assert IsHexString(raw.pubkey) && IsHexString(raw.withdrawalCredentials) && IsHexString(raw.signature);
    raw
  }

  /** Decoding the hex form of a well-formed record gives the record back. */
  lemma DecodeHexRecord(d: DepositData)
    requires WellFormed(d)
    ensures DecodeRecord(HexRecord(d)) == Ok(d)
  {
    HexRoundTrip(d.pubkey);
    HexRoundTrip(d.withdrawalCredentials);
    HexRoundTrip(d.signature);
    DecodeRecordFields(HexRecord(d));
  }

  /** A one-record file whose record decodes to `d` yields the root of `d`. */
  lemma ProcessOne(sha256: Sha256, raw: RawRecord, d: DepositData)
    requires AllAccepted([raw]) && RawIsHex(raw) && DecodeRecord(raw) == Ok(d) && WellFormed(d)
    ensures ProcessDepositFile(sha256, [raw]) == Ok([ComputeDepositDataRoot(sha256, d)])
  {
    var raws := [raw];
    assert raws[0] == raw;
    var r := ProcessDepositFile(sha256, raws);
    assert r.Ok?;
    RootAt(sha256, raws, 0);
    assert r.value == [r.value[0]];
  }

  /** End to end: a one-record file whose fields are the hex of a
      well-formed record is accepted and yields exactly that record's root. */
  lemma ProcessHexRecord(sha256: Sha256, d: DepositData)
    requires WellFormed(d)
    ensures AllAccepted([HexRecord(d)])
    ensures ProcessDepositFile(sha256, [HexRecord(d)]) == Ok([ComputeDepositDataRoot(sha256, d)])
  {
    HexRecordAccepted(d);
    DecodeHexRecord(d);
    ProcessOne(sha256, HexRecord(d), d);
  }

  lemma HexRecordAccepted(d: DepositData)
    requires WellFormed(d)
    ensures AllAccepted([HexRecord(d)])
  {
    var raw := HexRecord(d);
    assert Serializable(raw);
    assert [raw][0] == raw;
  }

  /** Records are processed independently: a concatenated file fails
      exactly when one of its parts fails. */
  lemma ProcessAppendFails(sha256: Sha256, xs: seq<RawRecord>, ys: seq<RawRecord>)
    requires AllAccepted(xs) && AllAccepted(ys)
    ensures AllAccepted(xs + ys)
    ensures ProcessDepositFile(sha256, xs + ys).Err?
            <==> ProcessDepositFile(sha256, xs).Err? || ProcessDepositFile(sha256, ys).Err?
  {
    AllAcceptedAppend(xs, ys);
    ShortFieldAppend(xs, ys);
  }

  lemma AllAcceptedAppend(xs: seq<RawRecord>, ys: seq<RawRecord>)
    requires AllAccepted(xs) && AllAccepted(ys)
    ensures AllAccepted(xs + ys)
  {
    var zs := xs + ys;
    forall i | 0 <= i < |zs|
      ensures RawIsHex(zs[i]) && Serializable(zs[i])
    {
      if i >= |xs| { assert zs[i] == ys[i - |xs|]; }
    }
  }

  /** A concatenation has a record with a short field iff one of its parts has. */
  lemma ShortFieldAppend(xs: seq<RawRecord>, ys: seq<RawRecord>)
    ensures (exists i :: 0 <= i < |xs + ys| && HasShortField((xs + ys)[i]))
            <==> (exists i :: 0 <= i < |xs| && HasShortField(xs[i]))
                 || (exists i :: 0 <= i < |ys| && HasShortField(ys[i]))
  {
    var zs := xs + ys;
    if exists i :: 0 <= i < |zs| && HasShortField(zs[i]) {
      var i :| 0 <= i < |zs| && HasShortField(zs[i]);
      if i >= |xs| { assert zs[i] == ys[i - |xs|]; }
    }
    if exists i :: 0 <= i < |xs| && HasShortField(xs[i]) {
      var i :| 0 <= i < |xs| && HasShortField(xs[i]);
      assert zs[i] == xs[i];
    }
    if exists i :: 0 <= i < |ys| && HasShortField(ys[i]) {
      var i :| 0 <= i < |ys| && HasShortField(ys[i]);
      assert zs[|xs| + i] == ys[i];
    }
  }

  /** Records are processed independently: the roots of a concatenated file
      are the roots of its parts, concatenated. */
  lemma ProcessAppendRoots(sha256: Sha256, xs: seq<RawRecord>, ys: seq<RawRecord>)
    requires AllAccepted(xs) && AllAccepted(ys)
    requires ProcessDepositFile(sha256, xs).Ok? && ProcessDepositFile(sha256, ys).Ok?
    ensures AllAccepted(xs + ys)
    ensures ProcessDepositFile(sha256, xs + ys)
            == Ok(ProcessDepositFile(sha256, xs).value + ProcessDepositFile(sha256, ys).value)
  {
    ProcessAppendFails(sha256, xs, ys);
    var zs := xs + ys;
    var rz, rx, ry := ProcessDepositFile(sha256, zs).value, ProcessDepositFile(sha256, xs).value, ProcessDepositFile(sha256, ys).value;
    assert |rz| == |rx + ry|;
    forall i | 0 <= i < |zs|
      ensures rz[i] == (rx + ry)[i]
    {
      AppendRootAt(sha256, xs, ys, i);
    }
    assert rz == rx + ry;
  }

  lemma AppendRootAt(sha256: Sha256, xs: seq<RawRecord>, ys: seq<RawRecord>, i: nat)
    requires AllAccepted(xs) && AllAccepted(ys) && AllAccepted(xs + ys)
    requires ProcessDepositFile(sha256, xs).Ok? && ProcessDepositFile(sha256, ys).Ok?
    requires ProcessDepositFile(sha256, xs + ys).Ok? && i < |xs + ys|
    ensures ProcessDepositFile(sha256, xs + ys).value[i]
            == (ProcessDepositFile(sha256, xs).value + ProcessDepositFile(sha256, ys).value)[i]
  {
    var zs := xs + ys;
    RootAt(sha256, zs, i);
    if i < |xs| {
      assert zs[i] == xs[i];
      RootAt(sha256, xs, i);
    } else {
      assert zs[i] == ys[i - |xs|];
      RootAt(sha256, ys, i - |xs|);
    }
  }

  lemma RootAt(sha256: Sha256, raws: seq<RawRecord>, i: nat)
    requires AllAccepted(raws) && ProcessDepositFile(sha256, raws).Ok? && i < |raws|
    ensures DecodeRecord(raws[i]).Ok? && WellFormed(DecodeRecord(raws[i]).value)
    ensures ProcessDepositFile(sha256, raws).value[i] == ComputeDepositDataRoot(sha256, DecodeRecord(raws[i]).value)
  {
  }
}
