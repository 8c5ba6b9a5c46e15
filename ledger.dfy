/**
  The ledger (HEALTHCARE.py:47-91): a chain of blocks that starts with a
  fixed genesis block, a patient index from patient id to the positions
  of that patient's blocks, the append-only write path, the two lookups,
  and the integrity walk.

  The first half states what a chain and its index ought to be as
  functions of the block sequence; the class `Blockchain` then keeps its
  two fields in step with those functions.
 */
module Ledger {
  import opened Options
  import opened JsonValue
  import opened JsonEncode
  import opened JsonDecode
  import opened Blocks

  /** The record of the genesis block. */
  function GenesisRecord(): Record
  {
    map["note" := Str("Genesis Block")]
  }

  /** The first block of every chain, stamped at `timestamp`. */
  function Genesis(h: Sha256, timestamp: string): (b: Block)
    ensures b.index == 0 && b.patientId == "0" && b.previousHash == "0"
    ensures b.record == GenesisRecord() && b.timestamp == timestamp
    ensures Sealed(h, b)
  {
    Create(h, 0, timestamp, "0", GenesisRecord(), "0")
  }

  // ---------------------------------------------------------------------
  // Integrity of a chain, as `validate` checks it
  // ---------------------------------------------------------------------

  /** The block at position i points at the hash of the block before it. */
  predicate LinkOk(chain: seq<Block>, i: int)
    requires 1 <= i < |chain|
  {
    chain[i].previousHash == chain[i - 1].hash
  }

  /** Both checks `validate` makes at position i pass. */
  predicate PositionOk(h: Sha256, chain: seq<Block>, i: int)
    requires 1 <= i < |chain|
  {
    LinkOk(chain, i) && Sealed(h, chain[i])
  }

  /** Every position after the genesis block passes both checks. */
  predicate Intact(h: Sha256, chain: seq<Block>)
  {
    forall i :: 1 <= i < |chain| ==> PositionOk(h, chain, i)
  }

  /** Every position of the chain from 1 up to, not including, n passes both checks. */
  predicate PassedBefore(h: Sha256, chain: seq<Block>, n: int)
  {
    forall j :: 1 <= j < n && j < |chain| ==> PositionOk(h, chain, j)
  }

  /** i is the first position after the genesis block that fails a check. */
  predicate FirstFailure(h: Sha256, chain: seq<Block>, i: int)
  {
    1 <= i < |chain| && !PositionOk(h, chain, i) && PassedBefore(h, chain, i)
  }

  /** One more passing position extends the passing prefix. */
  lemma PassedStep(h: Sha256, chain: seq<Block>, n: int)
    requires 1 <= n < |chain|
    requires PassedBefore(h, chain, n) && PositionOk(h, chain, n)
    ensures PassedBefore(h, chain, n + 1)
  {
  }

  function BrokenLinkMessage(i: nat): string
  {
    "Broken link at index " + NatText(i) + ": previous_hash mismatch"
  }

  function HashMismatchMessage(i: nat): string
  {
    "Hash mismatch at index " + NatText(i) + ": data was modified"
  }

  /** The reason `validate` gives for a failure at position i: the link is checked first. */
  function FailureReason(h: Sha256, chain: seq<Block>, i: int): (r: string)
    requires 1 <= i < |chain|
    ensures !LinkOk(chain, i) ==> r == BrokenLinkMessage(i)
    ensures LinkOk(chain, i) ==> r == HashMismatchMessage(i)
  {
    if !LinkOk(chain, i) then BrokenLinkMessage(i) else HashMismatchMessage(i)
  }

  /** The two kinds of reason never coincide, so the reason tells which check failed. */
  lemma MessagesDistinct(i: nat, j: nat)
    ensures BrokenLinkMessage(i) != HashMismatchMessage(j)
  {
    assert BrokenLinkMessage(i)[0] == 'B';
    assert HashMismatchMessage(j)[0] == 'H';
  }

  /** A text between a fixed prefix and a fixed suffix is determined by the whole. */
  lemma Framed(prefix: string, a: string, b: string, suffix: string)
    requires prefix + a + suffix == prefix + b + suffix
    ensures a == b
  {
    var t := prefix + a + suffix;
    assert |a| == |b|;
    assert t[|prefix|..|prefix| + |a|] == a;
    assert (prefix + b + suffix)[|prefix|..|prefix| + |b|] == b;
  }

  /** Each kind of reason also names its position: different positions give different messages. */
  lemma MessagePositions(i: nat, j: nat)
    ensures BrokenLinkMessage(i) == BrokenLinkMessage(j) ==> i == j
    ensures HashMismatchMessage(i) == HashMismatchMessage(j) ==> i == j
  {
    NatTextValue(i);
    NatTextValue(j);
    if BrokenLinkMessage(i) == BrokenLinkMessage(j) {
      Framed("Broken link at index ", NatText(i), NatText(j), ": previous_hash mismatch");
    }
    if HashMismatchMessage(i) == HashMismatchMessage(j) {
      Framed("Hash mismatch at index ", NatText(i), NatText(j), ": data was modified");
    }
  }

  /** There is at most one first failure. */
  lemma FirstFailureUnique(h: Sha256, chain: seq<Block>, i: int, j: int)
    requires FirstFailure(h, chain, i) && FirstFailure(h, chain, j)
    ensures i == j
  {
  }

  /** A failing position k has a first failure at or before it. */
  lemma {:induction false} FailureHasFirst(h: Sha256, chain: seq<Block>, k: int)
    requires 1 <= k < |chain| && !PositionOk(h, chain, k)
    ensures exists i :: i <= k && FirstFailure(h, chain, i)
    decreases k
  {
    if forall j :: 1 <= j < k ==> PositionOk(h, chain, j) {
      assert FirstFailure(h, chain, k);
    } else {
      var j :| 1 <= j < k && !PositionOk(h, chain, j);
      FailureHasFirst(h, chain, j);
    }
  }

  /** A chain is intact exactly when it has no first failure. */
  lemma IntactIffNoFailure(h: Sha256, chain: seq<Block>)
    ensures Intact(h, chain) <==> forall i :: !FirstFailure(h, chain, i)
  {
    if !Intact(h, chain) {
      var k :| 1 <= k < |chain| && !PositionOk(h, chain, k);
      FailureHasFirst(h, chain, k);
    }
  }

  // ---------------------------------------------------------------------
  // Chains built through the write path
  // ---------------------------------------------------------------------

  /** The arguments of one `add_record` call, with the clock reading it takes. */
  datatype Entry = Entry(patientId: string, record: Record, timestamp: string)

  /** The chain after `add_record`: one new block, linked to the last one and sealed. */
  function Appended(h: Sha256, chain: seq<Block>, e: Entry): (r: seq<Block>)
    requires chain != []
    ensures |r| == |chain| + 1 && r[..|chain|] == chain
    ensures r[|chain|].index == |chain| && r[|chain|].previousHash == chain[|chain| - 1].hash
    ensures r[|chain|].patientId == e.patientId && r[|chain|].record == e.record
    ensures r[|chain|].timestamp == e.timestamp && Sealed(h, r[|chain|])
  {
    chain + [Create(h, |chain|, e.timestamp, e.patientId, e.record, chain[|chain| - 1].hash)]
  }

  /** The chain a fresh ledger holds after the given `add_record` calls. */
  function Built(h: Sha256, genesisTime: string, entries: seq<Entry>): (r: seq<Block>)
    ensures |r| == |entries| + 1
    decreases |entries|
  {
    if entries == [] then [Genesis(h, genesisTime)]
    else Appended(h, Built(h, genesisTime, entries[..|entries| - 1]), entries[|entries| - 1])
  }

  /** Appending through the write path keeps a chain intact, and cannot mend a broken one. */
  lemma AppendedIntact(h: Sha256, chain: seq<Block>, e: Entry)
    requires chain != []
    ensures Intact(h, Appended(h, chain, e)) <==> Intact(h, chain)
  {
    var r := Appended(h, chain, e);
    assert forall i :: 1 <= i < |chain| ==> (PositionOk(h, r, i) <==> PositionOk(h, chain, i)) by {
      forall i | 1 <= i < |chain| ensures PositionOk(h, r, i) <==> PositionOk(h, chain, i) {
        assert r[i] == chain[i] && r[i - 1] == chain[i - 1];
      }
    }
    assert PositionOk(h, r, |chain|);
  }

  /** Every chain built by the constructor and `add_record` alone passes `validate`. */
  lemma {:induction false} BuiltIntact(h: Sha256, genesisTime: string, entries: seq<Entry>)
    ensures Intact(h, Built(h, genesisTime, entries))
    decreases |entries|
  {
    if entries != [] {
      BuiltIntact(h, genesisTime, entries[..|entries| - 1]);
      AppendedIntact(h, Built(h, genesisTime, entries[..|entries| - 1]), entries[|entries| - 1]);
    }
  }

  /** A built chain starts with the genesis block, and position i holds block i. */
  lemma {:induction false} BuiltPositions(h: Sha256, genesisTime: string, entries: seq<Entry>)
    ensures Built(h, genesisTime, entries)[0] == Genesis(h, genesisTime)
    ensures forall i :: 0 <= i < |entries| + 1 ==> Built(h, genesisTime, entries)[i].index == i
    decreases |entries|
  {
    if entries != [] {
      var front := entries[..|entries| - 1];
      var prev := Built(h, genesisTime, front);
      BuiltPositions(h, genesisTime, front);
      var r := Built(h, genesisTime, entries);
      assert r == Appended(h, prev, entries[|entries| - 1]);
      forall i | 0 <= i < |prev| ensures r[i] == prev[i] {
        assert r[..|prev|][i] == r[i];
      }
    }
  }

  /** Block i of a built chain holds the patient and the record of the i-th call. */
  lemma {:induction false} BuiltContents(h: Sha256, genesisTime: string, entries: seq<Entry>)
    ensures forall i :: 1 <= i < |entries| + 1 ==>
      Built(h, genesisTime, entries)[i].patientId == entries[i - 1].patientId
      && Built(h, genesisTime, entries)[i].record == entries[i - 1].record
    decreases |entries|
  {
    if entries != [] {
      var front, e := entries[..|entries| - 1], entries[|entries| - 1];
      var prev := Built(h, genesisTime, front);
      BuiltContents(h, genesisTime, front);
      var r := Built(h, genesisTime, entries);
      assert r == Appended(h, prev, e);
      forall i | 1 <= i < |entries| + 1
        ensures r[i].patientId == entries[i - 1].patientId && r[i].record == entries[i - 1].record
      {
        if i < |prev| {
          assert r[..|prev|][i] == r[i];
          assert r[i] == prev[i] && front[i - 1] == entries[i - 1];
        }
      }
    }
  }

  // ---------------------------------------------------------------------
  // Tampering and what `validate` makes of it
  // ---------------------------------------------------------------------

  /** The chain with the record of block idx replaced and its stored hash kept. */
  function WithRecord(chain: seq<Block>, idx: int, record: Record): (r: seq<Block>)
    requires 0 <= idx < |chain|
    ensures |r| == |chain| && r[idx].record == record
    ensures r[idx].index == chain[idx].index && r[idx].timestamp == chain[idx].timestamp
    ensures r[idx].patientId == chain[idx].patientId && r[idx].previousHash == chain[idx].previousHash
    ensures r[idx].hash == chain[idx].hash
    ensures forall i :: 0 <= i < |chain| && i != idx ==> r[i] == chain[i]
  {
    chain[idx := chain[idx].(record := record)]
  }

  /**
    With a collision-free digest, changing the record of a block of an
    intact chain is caught at that block, as a hash mismatch.
   */
  lemma TamperDetected(h: Sha256, chain: seq<Block>, idx: int, record: Record)
    requires CollisionFree(h) && Intact(h, chain)
    requires 1 <= idx < |chain| && record != chain[idx].record
    ensures FirstFailure(h, WithRecord(chain, idx, record), idx)
    ensures FailureReason(h, WithRecord(chain, idx, record), idx) == HashMismatchMessage(idx)
  {
    var t := WithRecord(chain, idx, record);
    assert PositionOk(h, chain, idx);
    RecordChangeUnseals(h, chain[idx], record);
    assert LinkOk(t, idx) by {
      assert t[idx - 1] == chain[idx - 1];
    }
    forall j | 1 <= j < idx ensures PositionOk(h, t, j) {
      assert PositionOk(h, chain, j);
      assert t[j] == chain[j] && t[j - 1] == chain[j - 1];
    }
  }

  /** Changing where a block points is caught at that block, as a broken link, whatever the digest. */
  lemma RelinkDetected(h: Sha256, chain: seq<Block>, idx: int, previousHash: string)
    requires Intact(h, chain)
    requires 1 <= idx < |chain| && previousHash != chain[idx - 1].hash
    ensures FirstFailure(h, chain[idx := chain[idx].(previousHash := previousHash)], idx)
    ensures FailureReason(h, chain[idx := chain[idx].(previousHash := previousHash)], idx) == BrokenLinkMessage(idx)
  {
    var t := chain[idx := chain[idx].(previousHash := previousHash)];
    forall j | 1 <= j < idx ensures PositionOk(h, t, j) {
      assert PositionOk(h, chain, j);
      assert t[j] == chain[j] && t[j - 1] == chain[j - 1];
    }
  }

  /**
    With a collision-free digest, replacing a block that has a successor
    by a freshly sealed block with other content is caught at the
    successor, as a broken link.
   */
  lemma ResealDetected(h: Sha256, chain: seq<Block>, idx: int, b: Block)
    requires CollisionFree(h) && Intact(h, chain)
    requires 1 <= idx < |chain| - 1
    requires Sealed(h, b) && b.previousHash == chain[idx - 1].hash
    requires b != chain[idx]
    ensures FirstFailure(h, chain[idx := b], idx + 1)
    ensures FailureReason(h, chain[idx := b], idx + 1) == BrokenLinkMessage(idx + 1)
  {
    var t := chain[idx := b];
    assert PositionOk(h, chain, idx) && PositionOk(h, chain, idx + 1);
    if b.hash == chain[idx].hash {
      ComputeHashInjective(h,
        b.index, b.timestamp, b.patientId, b.record, b.previousHash,
        chain[idx].index, chain[idx].timestamp, chain[idx].patientId, chain[idx].record, chain[idx].previousHash);
      assert false;
    }
    assert !LinkOk(t, idx + 1);
    forall j | 1 <= j < idx + 1 ensures PositionOk(h, t, j) {
      if j < idx {
        assert PositionOk(h, chain, j);
        assert t[j] == chain[j] && t[j - 1] == chain[j - 1];
      }
    }
  }

  /**
    Replacing the last block by a freshly sealed block that keeps the link
    goes unnoticed: no later block holds its hash.
   */
  lemma ResealLastUndetected(h: Sha256, chain: seq<Block>, b: Block)
    requires Intact(h, chain) && |chain| >= 2
    requires Sealed(h, b) && b.previousHash == chain[|chain| - 2].hash
    ensures Intact(h, chain[|chain| - 1 := b])
  {
    var t := chain[|chain| - 1 := b];
    forall j | 1 <= j < |chain| ensures PositionOk(h, t, j) {
      if j < |chain| - 1 {
        assert PositionOk(h, chain, j);
        assert t[j] == chain[j] && t[j - 1] == chain[j - 1];
      }
    }
  }

  /**
    The genesis block is never re-hashed: any block with the same stored
    hash can stand in its place without changing the verdict.
   */
  lemma GenesisNotRechecked(h: Sha256, chain: seq<Block>, g: Block)
    requires chain != [] && g.hash == chain[0].hash
    ensures Intact(h, chain[0 := g]) <==> Intact(h, chain)
  {
    var t := chain[0 := g];
    forall j | 1 <= j < |chain| ensures PositionOk(h, t, j) <==> PositionOk(h, chain, j) {
      assert t[j] == chain[j] && t[j - 1].hash == chain[j - 1].hash;
    }
  }

  // ---------------------------------------------------------------------
  // The patient index
  // ---------------------------------------------------------------------

  /** The positions after the genesis block that hold blocks of patient p, in chain order. */
  function Positions(chain: seq<Block>, p: string): (r: seq<nat>)
    decreases |chain|
  {
    if |chain| <= 1 then []
    else
      var front := chain[..|chain| - 1];
      Positions(front, p) + (if chain[|chain| - 1].patientId == p then [|chain| - 1] else [])
  }

  /**
    Each listed position holds a block of p after the genesis block, every
    such position is listed, and the list strictly increases.
   */
  lemma {:induction false} PositionsSpec(chain: seq<Block>, p: string)
    ensures forall k :: 0 <= k < |Positions(chain, p)| ==>
      1 <= Positions(chain, p)[k] < |chain| && chain[Positions(chain, p)[k]].patientId == p
    ensures forall i :: 1 <= i < |chain| && chain[i].patientId == p ==> i in Positions(chain, p)
    ensures forall k1, k2 :: 0 <= k1 < k2 < |Positions(chain, p)| ==>
      Positions(chain, p)[k1] < Positions(chain, p)[k2]
    decreases |chain|
  {
    if |chain| > 1 {
      var front := chain[..|chain| - 1];
      PositionsSpec(front, p);
      var r := Positions(chain, p);
      assert r == Positions(front, p) + (if chain[|chain| - 1].patientId == p then [|chain| - 1] else []);
      forall k | 0 <= k < |Positions(front, p)|
        ensures r[k] == Positions(front, p)[k] && chain[r[k]] == front[r[k]]
      {
      }
      forall i | 1 <= i < |chain| && chain[i].patientId == p ensures i in r {
        if i < |chain| - 1 {
          assert front[i] == chain[i];
        }
      }
    }
  }

  /** The patients with at least one block after the genesis block. */
  function Patients(chain: seq<Block>): set<string>
  {
    set i | 1 <= i < |chain| :: chain[i].patientId
  }

  /** The index `add_record` maintains, as a function of the chain. */
  function IndexOf(chain: seq<Block>): map<string, seq<nat>>
  {
    map p | p in Patients(chain) :: Positions(chain, p)
  }

  /** A patient with a listed position has a block after the genesis block. */
  lemma PositionsListed(chain: seq<Block>, p: string)
    ensures Positions(chain, p) != [] ==> p in Patients(chain)
  {
    PositionsSpec(chain, p);
    if Positions(chain, p) != [] {
      var i := Positions(chain, p)[0];
      assert chain[i].patientId in Patients(chain);
    }
  }

  /** Every listed patient has a non-empty list; every other patient has no blocks. */
  lemma IndexOfCovers(chain: seq<Block>, p: string)
    ensures p in IndexOf(chain) ==> IndexOf(chain)[p] != []
    ensures p !in IndexOf(chain) ==> Positions(chain, p) == []
  {
    PositionsListed(chain, p);
    PositionsSpec(chain, p);
    if p in IndexOf(chain) {
      var i :| 1 <= i < |chain| && chain[i].patientId == p;
      assert i in Positions(chain, p);
    }
  }

  /** Appending a block adds its position at the end of its patient's list. */
  lemma PositionsAppend(chain: seq<Block>, b: Block, p: string)
    requires chain != []
    ensures Positions(chain + [b], p)
      == Positions(chain, p) + (if b.patientId == p then [|chain|] else [])
  {
    assert (chain + [b])[..|chain|] == chain;
  }

  /** Appending a block adds its patient to the patients of the chain. */
  lemma PatientsAppend(chain: seq<Block>, b: Block)
    requires chain != []
    ensures Patients(chain + [b]) == Patients(chain) + {b.patientId}
  {
    var c := chain + [b];
    forall p ensures p in Patients(c) <==> p in Patients(chain) + {b.patientId} {
      if p in Patients(c) {
        var i :| 1 <= i < |c| && c[i].patientId == p;
        if i < |chain| {
          assert chain[i].patientId == p;
        }
      }
      if p in Patients(chain) {
        var i :| 1 <= i < |chain| && chain[i].patientId == p;
        assert c[i].patientId == p;
      }
      if p == b.patientId {
        assert c[|chain|].patientId == p;
      }
    }
  }

  /** The list `setdefault(patient_id, []).append(index)` leaves under the appended patient. */
  function AppendedList(index: map<string, seq<nat>>, p: string, position: nat): seq<nat>
  {
    (if p in index then index[p] else []) + [position]
  }

  /** `setdefault(patient_id, []).append(index)` on the index of a chain gives the index of the longer chain. */
  lemma IndexOfAppend(chain: seq<Block>, b: Block)
    requires chain != []
    ensures IndexOf(chain + [b])
      == IndexOf(chain)[b.patientId := AppendedList(IndexOf(chain), b.patientId, |chain|)]
  {
    var c := chain + [b];
    var m := IndexOf(chain)[b.patientId := AppendedList(IndexOf(chain), b.patientId, |chain|)];
    PatientsAppend(chain, b);
    assert IndexOf(c).Keys == m.Keys;
    forall p | p in m ensures IndexOf(c)[p] == m[p] {
      PositionsAppend(chain, b, p);
      IndexOfCovers(chain, p);
    }
  }

  /** The index depends on the patient ids of the blocks only. */
  lemma {:induction false} PositionsSamePatients(c1: seq<Block>, c2: seq<Block>, p: string)
    requires |c1| == |c2|
    requires forall i :: 0 <= i < |c1| ==> c1[i].patientId == c2[i].patientId
    ensures Positions(c1, p) == Positions(c2, p)
    decreases |c1|
  {
    if |c1| > 1 {
      PositionsSamePatients(c1[..|c1| - 1], c2[..|c2| - 1], p);
    }
  }

  lemma IndexOfSamePatients(c1: seq<Block>, c2: seq<Block>)
    requires |c1| == |c2|
    requires forall i :: 0 <= i < |c1| ==> c1[i].patientId == c2[i].patientId
    ensures IndexOf(c1) == IndexOf(c2)
  {
    assert Patients(c1) == Patients(c2);
    forall p | p in Patients(c1) ensures Positions(c1, p) == Positions(c2, p) {
      PositionsSamePatients(c1, c2, p);
    }
  }

  /** The blocks at the given positions, in the order given. */
  function Gather(chain: seq<Block>, positions: seq<nat>): (r: seq<Block>)
    requires forall k :: 0 <= k < |positions| ==> positions[k] < |chain|
    ensures |r| == |positions|
    ensures forall k :: 0 <= k < |r| ==> r[k] == chain[positions[k]]
  {
    if positions == [] then []
    else [chain[positions[0]]] + Gather(chain, positions[1..])
  }

  /**
    The blocks at a patient's positions are exactly that patient's blocks
    after the genesis block, in chain order.
   */
  lemma GatherPositions(chain: seq<Block>, p: string)
    requires forall i :: 0 <= i < |chain| ==> chain[i].index == i
    ensures forall k :: 0 <= k < |Positions(chain, p)| ==> Positions(chain, p)[k] < |chain|
    ensures var r := Gather(chain, Positions(chain, p));
      && (forall k :: 0 <= k < |r| ==> r[k].patientId == p && 1 <= r[k].index < |chain| && chain[r[k].index] == r[k])
      && (forall i :: 1 <= i < |chain| && chain[i].patientId == p ==> chain[i] in r)
      && (forall k1, k2 :: 0 <= k1 < k2 < |r| ==> r[k1].index < r[k2].index)
  {
    PositionsSpec(chain, p);
    var ps := Positions(chain, p);
    var r := Gather(chain, ps);
    forall i | 1 <= i < |chain| && chain[i].patientId == p ensures chain[i] in r {
      var k :| 0 <= k < |ps| && ps[k] == i;
      assert r[k] == chain[i];
    }
  }

  /**
    In a list of a patient's blocks that is sound, complete and in chain
    order, no block of the patient comes after the last one listed.
   */
  lemma NewestListed(chain: seq<Block>, blocks: seq<Block>, p: string)
    requires forall i :: 0 <= i < |chain| ==> chain[i].index == i
    requires blocks != []
    requires forall k :: 0 <= k < |blocks| ==>
      blocks[k].patientId == p && 1 <= blocks[k].index < |chain| && chain[blocks[k].index] == blocks[k]
    requires forall i :: 1 <= i < |chain| && chain[i].patientId == p ==> chain[i] in blocks
    requires forall k1, k2 :: 0 <= k1 < k2 < |blocks| ==> blocks[k1].index < blocks[k2].index
    ensures forall i :: blocks[|blocks| - 1].index < i < |chain| ==> chain[i].patientId != p
  {
    var last := |blocks| - 1;
    forall i | blocks[last].index < i < |chain| ensures chain[i] !in blocks {
      forall k | 0 <= k < |blocks| ensures blocks[k].index <= blocks[last].index {
        if k < last {
          assert blocks[k].index < blocks[last].index;
        }
      }
      assert chain[i].index == i;
    }
  }

  // ---------------------------------------------------------------------
  // The ledger object
  // ---------------------------------------------------------------------

  class Blockchain {
    /** The digest function every block of this ledger is sealed with. */
    const sha256: Sha256
    var chain: seq<Block>
    var patientIndex: map<string, seq<nat>>

    /**
      What the write path keeps true: the chain starts with the genesis
      block, block i sits at position i, and the index is the one the
      chain determines. Integrity is not part of it: `validate` exists
      because stored blocks can be changed behind the ledger's back.
     */
    ghost predicate Valid()
      reads this
    {
      |chain| >= 1
      && chain[0] == Genesis(sha256, chain[0].timestamp)
      && (forall i :: 0 <= i < |chain| ==> chain[i].index == i)
      && patientIndex == IndexOf(chain)
    }

    /** `Blockchain()`: a chain of the genesis block alone and an empty index. */
    constructor(sha256: Sha256, now: string)
      ensures Valid()
      ensures this.sha256 == sha256
      ensures chain == Built(sha256, now, []) && patientIndex == map[]
      ensures Intact(sha256, chain)
    {
      this.sha256 := sha256;
      chain := [Genesis(sha256, now)];
      patientIndex := map[];
      new;
      assert Patients(chain) == {};
    }

    /** `add_record`: append a block for the patient, linked to the last block and sealed. */
    method AddRecord(patientId: string, record: Record, now: string) returns (b: Block)
      requires Valid()
      modifies this
      ensures Valid()
      ensures chain == Appended(sha256, old(chain), Entry(patientId, record, now))
      ensures b == chain[|chain| - 1] && b.index == |old(chain)|
      ensures patientIndex == old(patientIndex)[patientId := AppendedList(old(patientIndex), patientId, b.index)]
      ensures Intact(sha256, chain) <==> Intact(sha256, old(chain))
    {
      var latestHash := chain[|chain| - 1].hash;
      b := Create(sha256, |chain|, now, patientId, record, latestHash);
      IndexOfAppend(chain, b);
      AppendedIntact(sha256, chain, Entry(patientId, record, now));
      chain := chain + [b];
      var indices := if patientId in patientIndex then patientIndex[patientId] else [];
      patientIndex := patientIndex[patientId := indices + [b.index]];
    }

    /**
      `get_all_records`: the blocks of the patient after the genesis
      block, all of them, oldest first.
     */
    function AllRecords(patientId: string): (r: seq<Block>)
      reads this
      requires Valid()
      ensures forall k :: 0 <= k < |r| ==>
        r[k].patientId == patientId && 1 <= r[k].index < |chain| && chain[r[k].index] == r[k]
      ensures forall i :: 1 <= i < |chain| && chain[i].patientId == patientId ==> chain[i] in r
      ensures forall k1, k2 :: 0 <= k1 < k2 < |r| ==> r[k1].index < r[k2].index
    {
      IndexOfCovers(chain, patientId);
      PositionsSpec(chain, patientId);
      GatherPositions(chain, patientId);
      if patientId !in patientIndex || patientIndex[patientId] == [] then []
      else Gather(chain, patientIndex[patientId])
    }

    /** `get_latest_record`: the newest block of the patient, if there is one. */
    function LatestRecord(patientId: string): (r: Option<Block>)
      reads this
      requires Valid()
      ensures r.None? <==> forall i :: 1 <= i < |chain| ==> chain[i].patientId != patientId
      ensures r.Some? ==>
        r.value.patientId == patientId && 1 <= r.value.index < |chain| && chain[r.value.index] == r.value
        && forall i :: r.value.index < i < |chain| ==> chain[i].patientId != patientId
    {
      var blocks := AllRecords(patientId);
      if blocks == [] then None
      else
        NewestListed(chain, blocks, patientId);
        Some(blocks[|blocks| - 1])
    }

    /**
      `validate`: walk the chain from position 1, checking the link and
      then the stored hash, and stop at the first failure with its reason.
     */
    method Validate() returns (ok: bool, reason: Option<string>)
      ensures ok <==> Intact(sha256, chain)
      ensures ok ==> reason == None
      ensures !ok ==> exists i :: FirstFailure(sha256, chain, i) && reason == Some(FailureReason(sha256, chain, i))
    {
      var i := 1;
      while i < |chain|
        invariant 1 <= i <= |chain| + 1
        invariant PassedBefore(sha256, chain, i)
      {
        var prev := chain[i - 1];
        var cur := chain[i];
        if cur.previousHash != prev.hash {
          assert FirstFailure(sha256, chain, i);
          return false, Some(BrokenLinkMessage(i));
        }
        var recalculated := ComputeHash(sha256, cur.index, cur.timestamp, cur.patientId, cur.record, cur.previousHash);
        if cur.hash != recalculated {
          assert FirstFailure(sha256, chain, i);
          return false, Some(HashMismatchMessage(i));
        }
        PassedStep(sha256, chain, i);
        i := i + 1;
      }
      return true, None;
    }

    /**
      The tamper demo of the menu: overwrite one field of the stored record
      of block idx in place, leaving its hash as it was.
     */
    method TamperRecord(idx: int, field: string, value: string)
      requires Valid() && 1 <= idx < |chain|
      modifies this
      ensures Valid()
      ensures chain == WithRecord(old(chain), idx, old(chain)[idx].record[field := Str(value)])
      ensures patientIndex == old(patientIndex)
    {
      var tampered := WithRecord(chain, idx, chain[idx].record[field := Str(value)]);
      IndexOfSamePatients(chain, tampered);
      chain := tampered;
    }
  }
}
