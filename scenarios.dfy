/**
  Two uses of the ledger API, following the menu's flows (HEALTHCARE.py:
  125-186) without their console I/O: lookups after a few appends, and the
  tamper demo followed by a validation.
 */
module Scenarios {
  import opened Options
  import opened JsonValue
  import opened Blocks
  import opened Ledger

  /** The record the menu builds from a diagnosis and a treatment. */
  function MenuRecord(diagnosis: string, treatment: string): Record
  {
    map["diagnosis" := Str(diagnosis), "treatment" := Str(treatment)]
  }

  /** A fresh ledger with one visit of P1. */
  method FirstVisit(h: Sha256, t0: string, t1: string, r1: Record) returns (ledger: Blockchain)
    ensures fresh(ledger) && ledger.Valid() && |ledger.chain| == 2
    ensures "P1" in ledger.patientIndex && ledger.patientIndex["P1"] == [1]
    ensures "P2" !in ledger.patientIndex && "P3" !in ledger.patientIndex && "0" !in ledger.patientIndex
  {
    ledger := new Blockchain(h, t0);
    assert |ledger.chain| == 1;
    var b1 := ledger.AddRecord("P1", r1, t1);
    assert b1.index == 1;
  }

  /** Then a second visit of P1, a visit of P2 and a third visit of P1. */
  method FourVisits(h: Sha256, t0: string, t1: string, t2: string, t3: string, t4: string,
                    r1: Record, r2: Record, r3: Record, r4: Record)
    returns (ledger: Blockchain)
    ensures fresh(ledger) && ledger.Valid() && |ledger.chain| == 5
    ensures "P1" in ledger.patientIndex && ledger.patientIndex["P1"] == [1, 2, 4]
    ensures "P3" !in ledger.patientIndex && "0" !in ledger.patientIndex
    ensures ledger.chain[4].record == r4
  {
    ledger := FirstVisit(h, t0, t1, r1);
    assert AppendedList(ledger.patientIndex, "P1", 2) == [1, 2];
    var b2 := ledger.AddRecord("P1", r2, t2);
    assert b2.index == 2;
    var b3 := ledger.AddRecord("P2", r3, t3);
    assert b3.index == 3;
    assert ledger.patientIndex["P1"] == [1, 2];
    assert AppendedList(ledger.patientIndex, "P1", 4) == [1, 2, 4];
    var b4 := ledger.AddRecord("P1", r4, t4);
    assert b4.index == 4;
  }

  /**
    Lookups on that ledger: P1's three blocks come in chain order, the
    latest is the third visit, an unknown patient has nothing, and neither
    has the genesis block's patient "0".
   */
  method LookupScenario(h: Sha256, t0: string, t1: string, t2: string, t3: string, t4: string,
                        r1: Record, r2: Record, r3: Record, r4: Record)
    returns (p1: seq<Block>, latest: Option<Block>, unknown: seq<Block>, genesisPatient: seq<Block>)
    ensures |p1| == 3 && p1[0].index == 1 && p1[1].index == 2 && p1[2].index == 4
    ensures p1[2].record == r4
    ensures latest == Some(p1[2])
    ensures unknown == [] && genesisPatient == []
  {
    var ledger := FourVisits(h, t0, t1, t2, t3, t4, r1, r2, r3, r4);
    p1 := ledger.AllRecords("P1");
    assert p1 == Gather(ledger.chain, [1, 2, 4]);
    latest := ledger.LatestRecord("P1");
    unknown := ledger.AllRecords("P3");
    genesisPatient := ledger.AllRecords("0");
  }

  /**
    The tamper demo: a fresh chain with two records validates; after the
    stored diagnosis of block 1 is overwritten, validation fails at block 1
    with a hash mismatch.
   */
  method TamperScenario(h: Sha256) returns (before: bool, after: bool, reason: Option<string>)
    requires CollisionFree(h)
    ensures before
    ensures !after && reason == Some(HashMismatchMessage(1))
  {
    var ledger := new Blockchain(h, "2024-05-01T09:00:00");
    var b1 := ledger.AddRecord("P1", MenuRecord("cough", "syrup"), "2024-05-01T09:05:00");
    var b2 := ledger.AddRecord("P2", MenuRecord("sprain", "ice"), "2024-05-01T09:10:00");
    var r0;
    before, r0 := ledger.Validate();
    var intact := ledger.chain;
    ledger.TamperRecord(1, "diagnosis", "none");
    assert intact[1].record["diagnosis" := Str("none")] != intact[1].record by {
      assert intact[1].record["diagnosis"] == Str("cough");
    }
    TamperDetected(h, intact, 1, intact[1].record["diagnosis" := Str("none")]);
    after, reason := ledger.Validate();
    var i :| FirstFailure(h, ledger.chain, i) && reason == Some(FailureReason(h, ledger.chain, i));
    FirstFailureUnique(h, ledger.chain, i, 1);
  }
}
