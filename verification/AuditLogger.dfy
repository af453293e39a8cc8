/** The audit logger: appending under a retry loop, and walking the table to verify it. */
module AuditLogger {
  import opened Wrappers
  import opened AuditModel
  import opened AuditTheorems
  import opened CheckpointStore

  /** The table of one SQLite database, ordered by id. */
  class AuditDatabase {
    var rows: seq<Row>

    constructor ()
      ensures rows == []
    {
      rows := [];
    }
  }

  /** How SQLite answers one attempt: it succeeds, raises OperationalError (a busy lock
      among others) or raises something else. Failing leaves nothing committed. */
  datatype Fault = NoError | Operational | Other

  /** One pass of `_append_once`: the clock reading it starts with and SQLite's answer. */
  datatype Attempt = Attempt(timestamp: Timestamp, fault: Fault)

  /** Only the first attempt that does not end in OperationalError counts. */
  function Deciding(attempts: seq<Attempt>, from: nat): (k: nat)
    requires from <= |attempts|
    ensures from <= k <= |attempts|
    ensures forall j :: from <= j < k ==> attempts[j].fault == Operational
    ensures k < |attempts| ==> attempts[k].fault != Operational
    decreases |attempts| - from
  {
    if from < |attempts| && attempts[from].fault == Operational then Deciding(attempts, from + 1) else from
  }

  /** `Escaped` is an exception that `append` does not handle. */
  datatype AppendResult = Appended(record: Row) | AuditWriteError | Escaped

  datatype OnceResult = Inserted(record: Row) | OperationalError | OtherError

  class AuditLogger {
    const db: AuditDatabase
    const store: LocalFileCheckpointStore?
    const crypto: Crypto

    constructor (db: AuditDatabase, crypto: Crypto, store: LocalFileCheckpointStore?)
      ensures this.db == db && this.crypto == crypto && this.store == store
    {
      this.db, this.crypto, this.store := db, crypto, store;
    }

    /** Reads the newest row and inserts its successor, in one transaction. */
    method AppendOnce(payload: string, attempt: Attempt) returns (r: OnceResult)
      modifies db
      ensures r.OperationalError? <==> attempt.fault == Operational
      ensures r.Inserted? <==> attempt.fault == NoError && NextId(old(db.rows)) <= MAX_ROWID
      ensures r.Inserted? ==> r.record == NextRow(crypto, old(db.rows), attempt.timestamp, payload)
      ensures db.rows == if r.Inserted? then old(db.rows) + [r.record] else old(db.rows)
    {
      if attempt.fault == Operational {
        return OperationalError;
      }
      var nextId := 1;
      var prevHash: string := GENESIS_HASH;
      if db.rows != [] {
        var last := db.rows[|db.rows| - 1];
        nextId, prevHash := last.id + 1, last.recordHash;
      }
      var row := MakeRow(crypto, nextId, prevHash, attempt.timestamp, payload);
      if attempt.fault == Other || nextId > MAX_ROWID {
        return OtherError;
      }
      db.rows := db.rows + [row];
      return Inserted(row);
    }

    /** Appends at most one row within APPEND_RETRIES attempts. A normal return means one
        row and, with a store, a saved checkpoint naming it; AuditWriteError means none when
        the retries are exhausted, one when only the checkpoint could not be saved. */
    method Append(payload: string, attempts: seq<Attempt>, savedAt: string, saving: SaveFault)
      returns (r: AppendResult)
      requires |attempts| == APPEND_RETRIES
      requires store != null ==> store.Valid()
      modifies db, store
      ensures store != null ==> store.Valid()
      ensures var k := Deciding(attempts, 0);
              if k < |attempts| && attempts[k].fault == NoError && NextId(old(db.rows)) <= MAX_ROWID
              then db.rows == old(db.rows) + [NextRow(crypto, old(db.rows), attempts[k].timestamp, payload)]
              else db.rows == old(db.rows)
      ensures r.Escaped? <==>
        var k := Deciding(attempts, 0);
        k < |attempts| && (attempts[k].fault == Other || NextId(old(db.rows)) > MAX_ROWID)
      ensures r.AuditWriteError? && db.rows == old(db.rows) <==> Deciding(attempts, 0) == |attempts|
      ensures r.AuditWriteError? && db.rows != old(db.rows) ==> store != null && saving != NoFault
      ensures r.Appended? <==> db.rows != old(db.rows) && (store == null || saving == NoFault)
      ensures r.Appended? ==> db.rows == old(db.rows) + [r.record]
      ensures store != null ==>
        store.Load() == if r.Appended? then Some(Checkpoint(r.record.id, r.record.mac, savedAt)) else old(store.Load())
    {
      var i := 0;
      var record: Option<Row> := None;
      while i < APPEND_RETRIES && record == None
        invariant 0 <= i <= APPEND_RETRIES
        invariant record == None ==> Deciding(attempts, 0) == Deciding(attempts, i) && db.rows == old(db.rows)
        invariant record.Some? ==>
          var k := Deciding(attempts, 0);
          && k < |attempts| && attempts[k].fault == NoError && NextId(old(db.rows)) <= MAX_ROWID
          && record.value == NextRow(crypto, old(db.rows), attempts[k].timestamp, payload)
          && db.rows == old(db.rows) + [record.value]
        invariant store != null ==> store.Valid() && store.Load() == old(store.Load())
        decreases APPEND_RETRIES - i, record == None
      {
        var once := AppendOnce(payload, attempts[i]);
        match once
        case Inserted(row) => record := Some(row);
        case OtherError => return Escaped;
        case OperationalError => i := i + 1;
      }
      if record == None {
        return AuditWriteError;
      }
      if store != null {
        var ok := store.Save(CheckpointOf(record.value, savedAt), saving);
        if !ok {
          return AuditWriteError;
        }
      }
      return Appended(record.value);
    }

    /** `create_checkpoint`: names the newest row, if there is one. */
    method CreateCheckpoint(createdAt: string) returns (cp: Option<Checkpoint>)
      ensures cp == None <==> db.rows == []
      ensures cp.Some? ==> cp.value == Checkpoint(db.rows[|db.rows| - 1].id, db.rows[|db.rows| - 1].mac, createdAt)
    {
      if db.rows == [] {
        return None;
      }
      var last := db.rows[|db.rows| - 1];
      return Some(Checkpoint(last.id, last.mac, createdAt));
    }

    /** Walks the rows once, remembering the MACs seen, and compares with the checkpoint. */
    method VerifyChain(cp: Option<Checkpoint>) returns (v: Verdict)
      ensures v == Verify(crypto, db.rows, cp)
    {
      var rows := db.rows;
      if rows == [] {
        if cp.Some? {
          return Report(Invalid, 0, None, LogEmpty, false);
        }
        return Report(Empty, 0, None, NoReason, false);
      }
      var checked := 0;
      var expectedPrev: string := GENESIS_HASH;
      var expectedId := 1;
      var macsById: map<int, string> := map[];
      while checked < |rows|
        invariant 0 <= checked <= |rows|
        invariant expectedId == checked + 1
        invariant expectedPrev == if checked == 0 then GENESIS_HASH else rows[checked - 1].recordHash
        invariant forall i :: 0 <= i < checked ==> Good(crypto, rows, i)
        invariant forall id :: id in macsById <==> 1 <= id <= checked
        invariant forall id :: id in macsById ==> macsById[id] == rows[id - 1].mac
      {
        var r := rows[checked];
        if !Good(crypto, rows, checked) {
          VerifyStopsAtLeast(crypto, rows, cp, checked);
        }
        checked := checked + 1;
        if r.id != expectedId {
          return Report(Invalid, checked, Some(r.id), IdSequence, false);
        }
        if r.prevHash != expectedPrev {
          return Report(Invalid, checked, Some(r.id), Linkage, false);
        }
        var recomputed := crypto.sha256(Material(r.id, r.schemaVersion, r.timestamp, r.payload, r.prevHash));
        if recomputed != r.recordHash {
          return Report(Invalid, checked, Some(r.id), HashMismatch, false);
        }
        if !IsAscii(r.mac) {
          DigestIsAscii(crypto.hmac(r.recordHash));
          return RaisedTypeError;
        }
        if crypto.hmac(r.recordHash) != r.mac {
          return Report(Invalid, checked, Some(r.id), MacMismatch, false);
        }
        macsById := macsById[r.id := r.mac];
        expectedPrev := r.recordHash;
        expectedId := expectedId + 1;
      }
      VerifyAllGood(crypto, rows, cp);
      assert Good(crypto, rows, |rows| - 1);
      if cp.Some? {
        if cp.value.lastRecordId !in macsById {
          return Report(Invalid, checked, None, CheckpointMissing, false);
        }
        var expectedMac := macsById[cp.value.lastRecordId];
        if !IsAscii(cp.value.lastRecordMac) {
          return RaisedTypeError;
        }
        if expectedMac != cp.value.lastRecordMac {
          return Report(Invalid, checked, Some(cp.value.lastRecordId), CheckpointMismatch, false);
        }
        var latestId := rows[|rows| - 1].id;
        if cp.value.lastRecordId != latestId {
          return Report(Valid, checked, None, CheckpointStale, false);
        }
        return Report(Valid, checked, None, NoReason, true);
      }
      return Report(Valid, checked, None, NoReason, false);
    }

    /** The checkpoint is loaded before the rows are read. */
    method VerifyAgainstStore(other: LocalFileCheckpointStore?) returns (v: Verdict)
      ensures v == VerifyWithStore(crypto, db.rows, if other == null then NoStore else Loaded(other.Load()))
    {
      if other == null {
        v := VerifyChain(None);
        return;
      }
      var cp := other.Load();
      v := VerifyChain(cp);
      if cp == None && IsValid(v) {
        v := Report(Unverifiable, v.entriesChecked, None, NoCheckpoint, false);
      }
    }
  }
}
