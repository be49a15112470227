/** Audited transactions: entity writes and audit rows become visible together or not at all. */
module AuditLog {
  import opened Walks

  type Key = int
  type Value = int

  datatype AuditAction = Create | Update | Delete | Deactivate | Reactivate | AddMember | RemoveMember
                       | AddInheritance | RemoveInheritance | Assign | Unassign

  datatype AuditEntry = AuditEntry(resourceType: string, resource: int, action: AuditAction, actor: int, changes: Value)

  type Entities = map<Key, Value>

  /** What the database shows to a new reader. */
  datatype Snapshot = Snapshot(entities: Entities, log: seq<AuditEntry>)

  class Database {
    var entities: Entities
    var log: seq<AuditEntry>

    ghost function State(): Snapshot
      reads this
    {
      Snapshot(entities, log)
    }

    constructor ()
      ensures State() == Snapshot(map[], [])
    {
      entities, log := map[], [];
    }
  }

  /** What can go wrong in a commit: the insert of some audit row, or the final commit. */
  datatype Fault = NoFault | InsertFails(at: nat) | CommitFails

  class AuditedTxn {
    const db: Database
    var work: Entities
    var entries: seq<AuditEntry>

    constructor Begin(db: Database)
      ensures this.db == db
      ensures work == db.entities && entries == []
    {
      this.db := db;
      work, entries := db.entities, [];
    }

    /** An entity operation through the transaction. */
    method Write(k: Key, v: Option<Value>)
      modifies this`work
      ensures work == if v.Some? then old(work)[k := v.value] else old(work) - {k}
    {
      work := if v.Some? then work[k := v.value] else work - {k};
    }

    method Audit(e: AuditEntry)
      modifies this`entries
      ensures entries == old(entries) + [e]
    {
      entries := entries + [e];
    }

    /** Write the queued entries into the transaction, then commit it. */
    method Commit(fault: Fault) returns (ok: bool)
      modifies db
      ensures fault == NoFault ==> (ok <==> entries != [])
      ensures fault == CommitFails ==> !ok
      ensures fault.InsertFails? ==> (ok <==> entries != [] && fault.at >= |entries|)
      ensures ok <==> Commits(entries, fault)
      ensures db.State() == if ok then Snapshot(work, old(db.log) + entries) else old(db.State())
    {
      if entries == [] {
        return false;
      }
      var staged := [];
      for k := 0 to |entries|
        invariant staged == entries[..k]
        invariant fault.InsertFails? ==> k <= fault.at
        invariant db.State() == old(db.State())
      {
        if fault == InsertFails(k) {
          return false;
        }
        staged := staged + [entries[k]];
      }
      if fault == CommitFails {
        return false;
      }
      db.entities, db.log := work, db.log + staged;
      return true;
    }
  }

  /** A transaction commits when something was queued and nothing failed on the way. */
  predicate Commits(entries: seq<AuditEntry>, fault: Fault) {
    entries != [] && match fault
      case NoFault => true
      case InsertFails(at) => at >= |entries|
      case CommitFails => false
  }

  function Written(work: Entities, w: (Key, Option<Value>)): Entities {
    if w.1.Some? then work[w.0 := w.1.value] else work - {w.0}
  }

  // ----- serial runs -----

  /** A whole transaction: its writes, its queued entries, and how it ends. */
  datatype Txn = Txn(writes: seq<(Key, Option<Value>)>, entries: seq<AuditEntry>, end: End)
  datatype End = Committed(fault: Fault) | Dropped

  function AllWritten(work: Entities, writes: seq<(Key, Option<Value>)>): Entities {
    if writes == [] then work else Written(AllWritten(work, writes[..|writes| - 1]), writes[|writes| - 1])
  }

  predicate Takes(t: Txn) {
    t.end.Committed? && Commits(t.entries, t.end.fault)
  }

  /** The database after a transaction ran alone. */
  method RunTxn(db: Database, t: Txn)
    modifies db
    ensures db.State() == After(old(db.State()), t)
  {
    var txn := new AuditedTxn.Begin(db);
    for k := 0 to |t.writes|
      invariant txn.work == AllWritten(old(db.entities), t.writes[..k])
      invariant txn.entries == [] && db.State() == old(db.State())
    {
      txn.Write(t.writes[k].0, t.writes[k].1);
      assert t.writes[..k + 1][..k] == t.writes[..k];
    }
    assert t.writes[..|t.writes|] == t.writes;
    for k := 0 to |t.entries|
      invariant txn.entries == t.entries[..k]
      invariant txn.work == AllWritten(old(db.entities), t.writes)
      invariant db.State() == old(db.State())
    {
      txn.Audit(t.entries[k]);
    }
    assert t.entries[..|t.entries|] == t.entries;
    if t.end.Committed? {
      var ok := txn.Commit(t.end.fault);
    }
  }

  function After(s: Snapshot, t: Txn): Snapshot {
    if Takes(t) then Snapshot(AllWritten(s.entities, t.writes), s.log + t.entries) else s
  }

  function Run(s: Snapshot, txns: seq<Txn>): Snapshot {
    if txns == [] then s else After(Run(s, txns[..|txns| - 1]), txns[|txns| - 1])
  }

  /** The audit rows of the transactions that took effect, in order. */
  function Logged(txns: seq<Txn>): seq<AuditEntry> {
    if txns == [] then []
    else Logged(txns[..|txns| - 1]) + if Takes(txns[|txns| - 1]) then txns[|txns| - 1].entries else []
  }

  /** The writes of the transactions that took effect, in order. */
  function Applied(txns: seq<Txn>): seq<(Key, Option<Value>)> {
    if txns == [] then []
    else Applied(txns[..|txns| - 1]) + if Takes(txns[|txns| - 1]) then txns[|txns| - 1].writes else []
  }

  /** What the last write to a key left there, if any write named it. */
  function LastWrite(writes: seq<(Key, Option<Value>)>, k: Key): Option<Option<Value>> {
    if writes == [] then None
    else if writes[|writes| - 1].0 == k then Some(writes[|writes| - 1].1)
    else LastWrite(writes[..|writes| - 1], k)
  }

  /** Each key holds what the last write to it left, or what it held before. */
  lemma {:induction false} LastWriteWins(work: Entities, writes: seq<(Key, Option<Value>)>, k: Key)
    ensures var after, last := AllWritten(work, writes), LastWrite(writes, k);
            && (last.None? ==> (k in after <==> k in work) && (k in work ==> after[k] == work[k]))
            && (last == Some(None) ==> k !in after)
            && (last.Some? && last.value.Some? ==> k in after && after[k] == last.value.value)
    decreases writes
  {
    if writes != [] {
      LastWriteWins(work, writes[..|writes| - 1], k);
    }
  }

  lemma {:induction false} WrittenInTurn(work: Entities, a: seq<(Key, Option<Value>)>, b: seq<(Key, Option<Value>)>)
    ensures AllWritten(AllWritten(work, a), b) == AllWritten(work, a + b)
    decreases b
  {
    if b == [] {
      assert a + b == a;
    } else {
      WrittenInTurn(work, a, b[..|b| - 1]);
      assert (a + b)[..|a + b| - 1] == a + b[..|b| - 1];
    }
  }

  /** After any serial run the entities reflect exactly the writes, and the log holds exactly
      the entries, of the transactions that took effect, each in order. */
  lemma {:induction false} RunKeepsExactlyCommitted(s: Snapshot, txns: seq<Txn>)
    ensures Run(s, txns).log == s.log + Logged(txns)
    ensures Run(s, txns).entities == AllWritten(s.entities, Applied(txns))
    decreases txns
  {
    if txns != [] {
      var init, t := txns[..|txns| - 1], txns[|txns| - 1];
      RunKeepsExactlyCommitted(s, init);
      WrittenInTurn(s.entities, Applied(init), t.writes);
      assert s.log + Logged(init) + t.entries == s.log + (Logged(init) + t.entries);
      assert Applied(init) + [] == Applied(init) && Logged(init) + [] == Logged(init);
    }
  }

  /** Along any run the log only grows, and where it did not grow nothing else changed. */
  lemma {:induction false} LogOnlyGrows(s: Snapshot, txns: seq<Txn>, more: seq<Txn>)
    ensures Run(s, txns).log <= Run(s, txns + more).log
    ensures Run(s, txns + more).log == Run(s, txns).log ==> Run(s, txns + more) == Run(s, txns)
    decreases more
  {
    if more == [] {
      assert txns + more == txns;
    } else {
      assert (txns + more)[..|txns + more| - 1] == txns + more[..|more| - 1];
      LogOnlyGrows(s, txns, more[..|more| - 1]);
    }
  }
}
