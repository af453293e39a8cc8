/**
 The hash-chained audit log: its rows, the row an append writes, the log a history of
 appends produces, and what the verifier reports on arbitrary table contents.
 */
module AuditModel {
  import opened Wrappers
  import opened Text

  function Zeros(n: nat): (s: string)
    ensures |s| == n && forall i :: 0 <= i < n ==> s[i] == '0'
  {
    if n == 0 then "" else "0" + Zeros(n - 1)
  }

  const GENESIS_HASH: Digest := Zeros(64)
  const AUDIT_SCHEMA_VERSION := 2
  const APPEND_RETRIES := 5
  /** The largest value SQLite stores in an INTEGER column. */
  const MAX_ROWID := 0x7FFF_FFFF_FFFF_FFFF

  predicate IsLowerHex(ch: char) {
    '0' <= ch <= '9' || 'a' <= ch <= 'f'
  }

  /** What `hexdigest` returns for a 256-bit digest. */
  type Digest = s: string | |s| == 64 && forall i :: 0 <= i < |s| ==> IsLowerHex(s[i])
    witness Zeros(64)

  /** What `_utc_now` returns: an ISO 8601 text, in which no bar occurs. */
  type Timestamp = s: string | '|' !in s witness ""

  /** SHA-256 (FIPS 180-4) and HMAC-SHA-256 under the audit key (RFC 2104), about which
      nothing is assumed except the shape of their results. */
  datatype Crypto = Crypto(sha256: string -> Digest, hmac: string -> Digest)

  datatype Row = Row(id: int, schemaVersion: int, timestamp: string, payload: string,
                     prevHash: string, recordHash: string, mac: string)

  datatype Checkpoint = Checkpoint(lastRecordId: int, lastRecordMac: string, createdAt: string)

  // ---------- Writing ----------

  /** Fields printed one after the other with bars between them. */
  datatype Fields = Last(field: string) | Bar(field: string, rest: Fields)

  function Print(f: Fields): string {
    match f
    case Last(s) => s
    case Bar(s, rest) => s + "|" + Print(rest)
  }

  /** The text a record's hash covers. */
  function Material(id: int, schemaVersion: int, timestamp: string, payload: string, prevHash: string): string {
    Print(Bar(Dec(id), Bar(Dec(schemaVersion), Bar(timestamp, Bar(payload, Last(prevHash))))))
  }

  function MaterialOf(r: Row): string {
    Material(r.id, r.schemaVersion, r.timestamp, r.payload, r.prevHash)
  }

  function RowHash(c: Crypto, r: Row): Digest {
    c.sha256(MaterialOf(r))
  }

  function NextId(rows: seq<Row>): int {
    if rows == [] then 1 else rows[|rows| - 1].id + 1
  }

  function TailHash(rows: seq<Row>): string {
    if rows == [] then GENESIS_HASH else rows[|rows| - 1].recordHash
  }

  /** The row written for a payload, given the id and the hash read from the table. */
  function MakeRow(c: Crypto, id: int, prevHash: string, timestamp: string, payload: string): Row {
    var h := c.sha256(Material(id, AUDIT_SCHEMA_VERSION, timestamp, payload, prevHash));
    Row(id, AUDIT_SCHEMA_VERSION, timestamp, payload, prevHash, h, c.hmac(h))
  }

  function NextRow(c: Crypto, rows: seq<Row>, timestamp: string, payload: string): Row {
    MakeRow(c, NextId(rows), TailHash(rows), timestamp, payload)
  }

  datatype Entry = Entry(timestamp: Timestamp, payload: string)

  /** The log that a history of appends to an empty table leaves. */
  function Log(c: Crypto, history: seq<Entry>): seq<Row> {
    if history == [] then []
    else
      var before := Log(c, history[..|history| - 1]);
      var e := history[|history| - 1];
      before + [NextRow(c, before, e.timestamp, e.payload)]
  }

  function CheckpointOf(r: Row, createdAt: string): Checkpoint {
    Checkpoint(r.id, r.mac, createdAt)
  }

  // ---------- Verifying ----------

  datatype Status = Valid | Invalid | Empty | Unverifiable

  datatype Reason =
    | NoReason
    | LogEmpty             // a checkpoint exists but the log has no record
    | IdSequence           // record id breaks the sequence
    | Linkage              // prev_hash is not the predecessor's hash
    | HashMismatch         // stored hash is not the recomputed one
    | MacMismatch          // record MAC invalid
    | CheckpointMissing    // the record the checkpoint names does not exist
    | CheckpointMismatch   // it exists with another MAC
    | CheckpointStale      // it matches, but is not the newest record
    | NoCheckpoint         // the store has no checkpoint yet

  /** `compare_digest` raises TypeError when given text that is not ASCII. */
  datatype Verdict =
    | Report(status: Status, entriesChecked: nat, firstInvalidId: Option<int>, reason: Reason, tailVerified: bool)
    | RaisedTypeError

  predicate IsAscii(s: string) {
    forall i :: 0 <= i < |s| ==> s[i] < 128 as char
  }

  lemma DigestIsAscii(d: Digest)
    ensures IsAscii(d)
  {
    forall i | 0 <= i < |d| ensures d[i] < 128 as char {
      assert IsLowerHex(d[i]);
    }
  }

  function ExpectedPrev(rows: seq<Row>, i: nat): string
    requires i < |rows|
  {
    if i == 0 then GENESIS_HASH else rows[i - 1].recordHash
  }

  /** Row `i` continues the rows before it and carries its own hash and MAC. */
  predicate Good(c: Crypto, rows: seq<Row>, i: nat)
    requires i < |rows|
  {
    && rows[i].id == i + 1
    && rows[i].prevHash == ExpectedPrev(rows, i)
    && rows[i].recordHash == RowHash(c, rows[i])
    && rows[i].mac == c.hmac(rows[i].recordHash)
  }

  /** What the verifier reports on stopping at row `i`, which is not good. */
  function Stop(c: Crypto, rows: seq<Row>, i: nat): Verdict
    requires i < |rows|
  {
    var r := rows[i];
    if r.id != i + 1 then Report(Invalid, i + 1, Some(r.id), IdSequence, false)
    else if r.prevHash != ExpectedPrev(rows, i) then Report(Invalid, i + 1, Some(r.id), Linkage, false)
    else if r.recordHash != RowHash(c, r) then Report(Invalid, i + 1, Some(r.id), HashMismatch, false)
    else if !IsAscii(r.mac) then RaisedTypeError
    else Report(Invalid, i + 1, Some(r.id), MacMismatch, false)
  }

  /** The least row from `i` on that is not good; the number of rows if there is none. */
  function FirstBad(c: Crypto, rows: seq<Row>, i: nat): (k: nat)
    requires i <= |rows|
    ensures i <= k <= |rows|
    ensures forall j :: i <= j < k ==> Good(c, rows, j)
    ensures k < |rows| ==> !Good(c, rows, k)
    decreases |rows| - i
  {
    if i < |rows| && Good(c, rows, i) then FirstBad(c, rows, i + 1) else i
  }

  /** The comparison with a checkpoint, once every row is good. */
  function AgainstCheckpoint(rows: seq<Row>, cp: Checkpoint): Verdict {
    var n := |rows|;
    if !(1 <= cp.lastRecordId <= n) then Report(Invalid, n, None, CheckpointMissing, false)
    else if !IsAscii(cp.lastRecordMac) then RaisedTypeError
    else if rows[cp.lastRecordId - 1].mac != cp.lastRecordMac then
      Report(Invalid, n, Some(cp.lastRecordId), CheckpointMismatch, false)
    else if cp.lastRecordId != n then Report(Valid, n, None, CheckpointStale, false)
    else Report(Valid, n, None, NoReason, true)
  }

  function Verify(c: Crypto, rows: seq<Row>, cp: Option<Checkpoint>): Verdict {
    if rows == [] then
      if cp.Some? then Report(Invalid, 0, None, LogEmpty, false) else Report(Empty, 0, None, NoReason, false)
    else
      var k := FirstBad(c, rows, 0);
      if k < |rows| then Stop(c, rows, k)
      else if cp.None? then Report(Valid, |rows|, None, NoReason, false)
      else AgainstCheckpoint(rows, cp.value)
  }

  predicate IsValid(v: Verdict) {
    v.Report? && v.status == Valid
  }

  predicate IsInvalid(v: Verdict) {
    v.Report? && v.status == Invalid
  }

  /** What a verifier gets to see of the checkpoint store. */
  datatype StoreView = NoStore | Loaded(checkpoint: Option<Checkpoint>)

  function VerifyWithStore(c: Crypto, rows: seq<Row>, view: StoreView): Verdict {
    match view
    case NoStore => Verify(c, rows, None)
    case Loaded(None) =>
      var v := Verify(c, rows, None);
      if IsValid(v) then Report(Unverifiable, v.entriesChecked, None, NoCheckpoint, false) else v
    case Loaded(Some(cp)) => Verify(c, rows, Some(cp))
  }
}
