/**
  One block of the patient ledger (HEALTHCARE.py:12-44): its six fields,
  the five-field payload whose canonical JSON text is digested, and the
  way a block is sealed with that digest when it is created.

  SHA-256 itself is not modelled: the digest function is a parameter of
  type `Sha256`, and the properties that need it to tell inputs apart are
  stated under `CollisionFree`.
 */
module Blocks {
  import opened Utf8
  import opened JsonValue
  import opened JsonEncode
  import opened JsonDecode

  /** A patient record: a dict with str keys and JSON-encodable values. */
  type Record = map<string, Value>

  /** A hex-digest function on byte strings, standing for `hashlib.sha256(...).hexdigest()`. */
  type Sha256 = seq<byte> -> string

  datatype Block = Block(
    index: int,
    timestamp: string,
    patientId: string,
    record: Record,
    previousHash: string,
    hash: string)

  /** No two distinct byte strings share a digest. */
  ghost predicate CollisionFree(h: Sha256)
  {
    forall a, b :: h(a) == h(b) ==> a == b
  }

  /** The dict that `compute_hash` serialises. */
  function Payload(index: int, timestamp: string, patientId: string, record: Record, previousHash: string): Value
  {
    Dict(map[
      "index" := Int(index),
      "timestamp" := Str(timestamp),
      "patient_id" := Str(patientId),
      "record" := Dict(record),
      "previous_hash" := Str(previousHash)])
  }

  /** The text `json.dumps(payload, sort_keys=True, separators=(",", ":"))`. */
  function PayloadText(index: int, timestamp: string, patientId: string, record: Record, previousHash: string): string
  {
    Dumps(Payload(index, timestamp, patientId, record, previousHash))
  }

  /** The digest of the UTF-8 bytes of the payload text. */
  function ComputeHash(h: Sha256, index: int, timestamp: string, patientId: string, record: Record, previousHash: string): string
  {
    h(Encode(PayloadText(index, timestamp, patientId, record, previousHash)))
  }

  /** The stored hash is the digest of the block's own five content fields. */
  predicate Sealed(h: Sha256, b: Block)
  {
    b.hash == ComputeHash(h, b.index, b.timestamp, b.patientId, b.record, b.previousHash)
  }

  /** `Block.create`, with the clock reading passed in as `timestamp`. */
  function Create(h: Sha256, index: int, timestamp: string, patientId: string, record: Record, previousHash: string): (b: Block)
    ensures b.index == index && b.timestamp == timestamp && b.patientId == patientId
    ensures b.record == record && b.previousHash == previousHash
    ensures Sealed(h, b)
  {
    Block(index, timestamp, patientId, record, previousHash,
      ComputeHash(h, index, timestamp, patientId, record, previousHash))
  }

  /** A block is sealed exactly when it is what `Create` makes of its own content fields. */
  lemma SealedIffCreated(h: Sha256, b: Block)
    ensures Sealed(h, b) <==> b == Create(h, b.index, b.timestamp, b.patientId, b.record, b.previousHash)
  {
  }

  /**
    `sort_keys=True` writes the payload members in the order index,
    patient_id, previous_hash, record, timestamp.
   */
  lemma PayloadKeyOrder(index: int, timestamp: string, patientId: string, record: Record, previousHash: string)
    ensures PayloadText(index, timestamp, patientId, record, previousHash)
      == "{" + JoinFields(Payload(index, timestamp, patientId, record, previousHash),
                          ["index", "patient_id", "previous_hash", "record", "timestamp"]) + "}"
  {
    var v := Payload(index, timestamp, patientId, record, previousHash);
    var ks := ["index", "patient_id", "previous_hash", "record", "timestamp"];
    assert LexLess(ks[0], ks[1]) && LexLess(ks[1], ks[2]) && LexLess(ks[2], ks[3]) && LexLess(ks[3], ks[4]);
    assert LexLess(ks[0], ks[2]) && LexLess(ks[0], ks[3]) && LexLess(ks[0], ks[4]);
    assert LexLess(ks[1], ks[3]) && LexLess(ks[1], ks[4]) && LexLess(ks[2], ks[4]);
    SortedKeysUnique(v.fields.Keys, ks);
  }

  /** Equal payloads have equal fields. */
  lemma PayloadInjective(
    i1: int, t1: string, p1: string, r1: Record, h1: string,
    i2: int, t2: string, p2: string, r2: Record, h2: string)
    requires Payload(i1, t1, p1, r1, h1) == Payload(i2, t2, p2, r2, h2)
    ensures i1 == i2 && t1 == t2 && p1 == p2 && r1 == r2 && h1 == h2
  {
    assert Payload(i1, t1, p1, r1, h1).fields["index"] == Int(i1);
    assert Payload(i1, t1, p1, r1, h1).fields["timestamp"] == Str(t1);
    assert Payload(i1, t1, p1, r1, h1).fields["patient_id"] == Str(p1);
    assert Payload(i1, t1, p1, r1, h1).fields["record"] == Dict(r1);
    assert Payload(i1, t1, p1, r1, h1).fields["previous_hash"] == Str(h1);
  }

  /** Payloads with the same text have the same five fields. */
  lemma PayloadTextInjective(
    i1: int, t1: string, p1: string, r1: Record, h1: string,
    i2: int, t2: string, p2: string, r2: Record, h2: string)
    requires PayloadText(i1, t1, p1, r1, h1) == PayloadText(i2, t2, p2, r2, h2)
    ensures i1 == i2 && t1 == t2 && p1 == p2 && r1 == r2 && h1 == h2
  {
    DumpsInjective(Payload(i1, t1, p1, r1, h1), Payload(i2, t2, p2, r2, h2));
    PayloadInjective(i1, t1, p1, r1, h1, i2, t2, p2, r2, h2);
  }

  /** The bytes handed to the digest determine the five fields. */
  lemma HashInputInjective(
    i1: int, t1: string, p1: string, r1: Record, h1: string,
    i2: int, t2: string, p2: string, r2: Record, h2: string)
    requires Encode(PayloadText(i1, t1, p1, r1, h1)) == Encode(PayloadText(i2, t2, p2, r2, h2))
    ensures i1 == i2 && t1 == t2 && p1 == p2 && r1 == r2 && h1 == h2
  {
    DumpsAscii(Payload(i1, t1, p1, r1, h1));
    DumpsAscii(Payload(i2, t2, p2, r2, h2));
    EncodeInjectiveOnAscii(PayloadText(i1, t1, p1, r1, h1), PayloadText(i2, t2, p2, r2, h2));
    PayloadTextInjective(i1, t1, p1, r1, h1, i2, t2, p2, r2, h2);
  }

  /** With a collision-free digest, equal hashes mean equal content fields. */
  lemma ComputeHashInjective(h: Sha256,
    i1: int, t1: string, p1: string, r1: Record, h1: string,
    i2: int, t2: string, p2: string, r2: Record, h2: string)
    requires CollisionFree(h)
    requires ComputeHash(h, i1, t1, p1, r1, h1) == ComputeHash(h, i2, t2, p2, r2, h2)
    ensures i1 == i2 && t1 == t2 && p1 == p2 && r1 == r2 && h1 == h2
  {
    HashInputInjective(i1, t1, p1, r1, h1, i2, t2, p2, r2, h2);
  }

  /**
    With a collision-free digest, a sealed block whose record is replaced
    while its stored hash is kept is no longer sealed.
   */
  lemma RecordChangeUnseals(h: Sha256, b: Block, record: Record)
    requires CollisionFree(h) && Sealed(h, b) && record != b.record
    ensures !Sealed(h, b.(record := record))
  {
    if Sealed(h, b.(record := record)) {
      ComputeHashInjective(h,
        b.index, b.timestamp, b.patientId, b.record, b.previousHash,
        b.index, b.timestamp, b.patientId, record, b.previousHash);
    }
  }
}
