/**
 What the verifier's answers mean: exactness on arbitrary rows, the effect of an append,
 tamper evidence, and what a checkpoint commits to. Nothing is assumed about the hash or
 the MAC; where a conclusion rests on them, the lemma names the two rows that collide.
 */
module AuditTheorems {
  import opened Wrappers
  import opened Text
  import opened AuditModel

  predicate AllGood(c: Crypto, rows: seq<Row>) {
    forall i :: 0 <= i < |rows| ==> Good(c, rows, i)
  }

  // ---------- The verifier on arbitrary rows ----------

  /** VALID means exactly that there are rows and every one of them is good. */
  lemma VerifyExact(c: Crypto, rows: seq<Row>)
    ensures IsValid(Verify(c, rows, None)) <==> rows != [] && AllGood(c, rows)
    ensures Verify(c, rows, None) == Report(Empty, 0, None, NoReason, false) <==> rows == []
    ensures IsValid(Verify(c, rows, None)) ==> Verify(c, rows, None).entriesChecked == |rows|
  {
    if rows != [] {
      var k := FirstBad(c, rows, 0);
      assert k < |rows| ==> !Good(c, rows, k);
    }
  }

  /** Row `i` is right in everything but its MAC, and that is not ASCII. */
  predicate HasForeignMac(c: Crypto, rows: seq<Row>, i: nat)
    requires i < |rows|
  {
    && rows[i].id == i + 1
    && rows[i].prevHash == ExpectedPrev(rows, i)
    && rows[i].recordHash == RowHash(c, rows[i])
    && !IsAscii(rows[i].mac)
  }

  /** The checkpoint names a row of the table. */
  predicate NamesRow(rows: seq<Row>, cp: Checkpoint) {
    1 <= cp.lastRecordId <= |rows|
  }

  /** The tables and checkpoints on which the verifier raises: it comes to a row that is
      right but for a MAC that is not ASCII, or all rows are good and the MAC of the
      checkpoint, which names one of them, is not ASCII. */
  ghost predicate Raises(c: Crypto, rows: seq<Row>, cp: Option<Checkpoint>) {
    || (exists k :: 0 <= k < |rows| && HasForeignMac(c, rows, k) && forall j :: 0 <= j < k ==> Good(c, rows, j))
    || (AllGood(c, rows) && cp.Some? && NamesRow(rows, cp.value) && !IsAscii(cp.value.lastRecordMac))
  }

  lemma ForeignIsBad(c: Crypto, rows: seq<Row>, i: nat)
    requires i < |rows| && HasForeignMac(c, rows, i)
    ensures !Good(c, rows, i) && Stop(c, rows, i) == RaisedTypeError
  {
    DigestIsAscii(c.hmac(rows[i].recordHash));
  }

  /** A table that is not good is decided at its least failing row, checkpoint or not: the
      verifier names it, unless that row has the one fault on which it raises. */
  lemma VerifyStopsAtLeast(c: Crypto, rows: seq<Row>, cp: Option<Checkpoint>, k: nat)
    requires k < |rows| && !Good(c, rows, k)
    requires forall j :: 0 <= j < k ==> Good(c, rows, j)
    ensures Verify(c, rows, cp) == Stop(c, rows, k)
    ensures if HasForeignMac(c, rows, k) then Verify(c, rows, cp) == RaisedTypeError
            else IsInvalid(Verify(c, rows, cp))
                 && Verify(c, rows, cp).entriesChecked == k + 1
                 && Verify(c, rows, cp).firstInvalidId == Some(rows[k].id)
  {
    var f := FirstBad(c, rows, 0);
    assert f == k;
  }

  lemma VerifyAllGood(c: Crypto, rows: seq<Row>, cp: Option<Checkpoint>)
    requires rows != [] && AllGood(c, rows)
    ensures Verify(c, rows, cp) ==
      if cp.None? then Report(Valid, |rows|, None, NoReason, false) else AgainstCheckpoint(rows, cp.value)
  {
    assert FirstBad(c, rows, 0) == |rows|;
  }

  /** The verifier raises on these tables and checkpoints and on no others. */
  lemma RaisesExactly(c: Crypto, rows: seq<Row>, cp: Option<Checkpoint>)
    ensures Verify(c, rows, cp) == RaisedTypeError <==> Raises(c, rows, cp)
  {
    var k := FirstBad(c, rows, 0);
    if k < |rows| {
      VerifyStopsAtLeast(c, rows, cp, k);
      OnlyTheLeast(c, rows, cp, k);
    } else if rows != [] {
      VerifyAllGood(c, rows, cp);
      AllGoodRaises(c, rows, cp);
    }
  }

  lemma OnlyTheLeast(c: Crypto, rows: seq<Row>, cp: Option<Checkpoint>, k: nat)
    requires k < |rows| && !Good(c, rows, k)
    requires forall j :: 0 <= j < k ==> Good(c, rows, j)
    ensures Raises(c, rows, cp) <==> HasForeignMac(c, rows, k)
  {
    hide Good, HasForeignMac;
    if j :| 0 <= j < |rows| && HasForeignMac(c, rows, j) && forall i :: 0 <= i < j ==> Good(c, rows, i) {
      ForeignIsBad(c, rows, j);
    }
  }

  lemma AllGoodRaises(c: Crypto, rows: seq<Row>, cp: Option<Checkpoint>)
    requires AllGood(c, rows)
    ensures Raises(c, rows, cp) <==> cp.Some? && NamesRow(rows, cp.value) && !IsAscii(cp.value.lastRecordMac)
  {
    hide Good, HasForeignMac, IsAscii;
    forall j | 0 <= j < |rows| ensures !HasForeignMac(c, rows, j) {
      if HasForeignMac(c, rows, j) {
        ForeignIsBad(c, rows, j);
        assert false;
      }
    }
  }

  /** With a checkpoint, VALID means that every row is good and the checkpoint names one of
      them with its MAC, and the tail is verified when that row is the newest; INVALID is
      everything else on which the verifier does not raise. */
  lemma CheckpointExact(c: Crypto, rows: seq<Row>, cp: Checkpoint)
    ensures var v := Verify(c, rows, Some(cp));
            var named := AllGood(c, rows) && NamesRow(rows, cp) && rows[cp.lastRecordId - 1].mac == cp.lastRecordMac;
            && (IsValid(v) <==> named)
            && (IsInvalid(v) <==> !named && !Raises(c, rows, Some(cp)))
            && (named ==> v.entriesChecked == |rows| && (v.tailVerified <==> cp.lastRecordId == |rows|))
  {
    RaisesExactly(c, rows, Some(cp));
    if rows != [] {
      var k := FirstBad(c, rows, 0);
      if k < |rows| {
        VerifyStopsAtLeast(c, rows, Some(cp), k);
      } else {
        VerifyAllGood(c, rows, Some(cp));
        if NamesRow(rows, cp) {
          assert Good(c, rows, cp.lastRecordId - 1);
          DigestIsAscii(c.hmac(rows[cp.lastRecordId - 1].recordHash));
        }
      }
    }
  }

  /** The checkpoint a verifier gets to see, if any. */
  function CheckpointIn(view: StoreView): Option<Checkpoint> {
    if view.NoStore? then None else view.checkpoint
  }

  /** The same with a checkpoint store. */
  lemma StoreRaisesExactly(c: Crypto, rows: seq<Row>, view: StoreView)
    ensures VerifyWithStore(c, rows, view) == RaisedTypeError <==> Raises(c, rows, CheckpointIn(view))
  {
    hide Verify, Raises;
    RaisesExactly(c, rows, CheckpointIn(view));
  }

  /** The store changes nothing about what the verifier says, except that a chain found
      VALID is unverifiable as long as the store has no checkpoint: an empty table is still
      EMPTY, and a tampered one INVALID at its least failing row. */
  lemma EmptyStoreExact(c: Crypto, rows: seq<Row>)
    ensures var v := VerifyWithStore(c, rows, Loaded(None));
            && (v == Report(Empty, 0, None, NoReason, false) <==> rows == [])
            && (v == Report(Unverifiable, |rows|, None, NoCheckpoint, false) <==> rows != [] && AllGood(c, rows))
            && (IsInvalid(v) <==> !Raises(c, rows, None) && exists k :: 0 <= k < |rows| && !Good(c, rows, k))
            && (forall k :: 0 <= k < |rows| && !Good(c, rows, k) && (forall j :: 0 <= j < k ==> Good(c, rows, j)) ==>
                  v == RaisedTypeError
                  || (IsInvalid(v) && v.entriesChecked == k + 1 && v.firstInvalidId == Some(rows[k].id)))
  {
    hide Raises;
    RaisesExactly(c, rows, None);
    if rows != [] {
      var k := FirstBad(c, rows, 0);
      if k < |rows| {
        VerifyStopsAtLeast(c, rows, None, k);
      } else {
        VerifyAllGood(c, rows, None);
      }
    }
    forall k | 0 <= k < |rows| && !Good(c, rows, k) && (forall j :: 0 <= j < k ==> Good(c, rows, j))
      ensures Verify(c, rows, None) == RaisedTypeError
              || (IsInvalid(Verify(c, rows, None)) && Verify(c, rows, None).entriesChecked == k + 1
                  && Verify(c, rows, None).firstInvalidId == Some(rows[k].id))
    {
      VerifyStopsAtLeast(c, rows, None, k);
    }
  }

  /** Without a store, and with a checkpoint in it, the answer is that of the chain walk. */
  lemma StoreIsConsulted(c: Crypto, rows: seq<Row>, cp: Checkpoint)
    ensures VerifyWithStore(c, rows, NoStore) == Verify(c, rows, None)
    ensures VerifyWithStore(c, rows, Loaded(Some(cp))) == Verify(c, rows, Some(cp))
  {
  }

  // ---------- The checks, spelled out ----------

  /** The row that an append writes, column by column. */
  lemma AppendedRow(c: Crypto, rows: seq<Row>, timestamp: string, payload: string)
    ensures var row := NextRow(c, rows, timestamp, payload);
            && row.id == (if rows == [] then 1 else rows[|rows| - 1].id + 1)
            && row.schemaVersion == 2 && row.timestamp == timestamp && row.payload == payload
            && (rows != [] ==> row.prevHash == rows[|rows| - 1].recordHash)
            && (rows == [] ==> |row.prevHash| == 64 && forall i :: 0 <= i < 64 ==> row.prevHash[i] == '0')
            && row.recordHash == c.sha256(Dec(row.id) + "|2|" + timestamp + "|" + payload + "|" + row.prevHash)
            && row.mac == c.hmac(row.recordHash)
  {
    var row := NextRow(c, rows, timestamp, payload);
    assert Dec(2) == "2";
    MaterialIs(row);
    assert MaterialOf(row) == Dec(row.id) + "|2|" + timestamp + "|" + payload + "|" + row.prevHash by {
      assert "|" + "2" + "|" == "|2|";
    }
  }

  lemma MaterialIs(r: Row)
    ensures MaterialOf(r) == Dec(r.id) + "|" + Dec(r.schemaVersion) + "|" + r.timestamp + "|" + r.payload + "|" + r.prevHash
  {
    MaterialLayout(r);
    hide MaterialOf, Dec;
    assert Dec(r.id) + "|" + Dec(r.schemaVersion) + "|" + r.timestamp + "|" + r.payload + "|" + r.prevHash
        == Dec(r.id) + "|" + (Dec(r.schemaVersion) + "|" + ((r.timestamp + "|" + r.payload) + "|" + r.prevHash));
  }

  /** What a row has to be like to pass, column by column. */
  predicate Passes(c: Crypto, rows: seq<Row>, i: nat)
    requires i < |rows|
  {
    var r := rows[i];
    && r.id == i + 1
    && r.prevHash == (if i == 0 then Zeros(64) else rows[i - 1].recordHash)
    && r.recordHash == c.sha256(Dec(r.id) + "|" + Dec(r.schemaVersion) + "|" + r.timestamp + "|" + r.payload + "|" + r.prevHash)
    && r.mac == c.hmac(r.recordHash)
  }

  lemma GoodMeans(c: Crypto, rows: seq<Row>, i: nat)
    requires i < |rows|
    ensures Good(c, rows, i) <==> Passes(c, rows, i)
  {
    MaterialIs(rows[i]);
    hide MaterialOf, Dec, Zeros;
  }

  /** What VALID vouches for without a checkpoint. */
  lemma ValidMeans(c: Crypto, rows: seq<Row>)
    ensures IsValid(Verify(c, rows, None)) <==> rows != [] && forall i :: 0 <= i < |rows| ==> Passes(c, rows, i)
  {
    VerifyExact(c, rows);
    hide Good, Passes, Verify;
    forall i | 0 <= i < |rows| ensures Good(c, rows, i) <==> Passes(c, rows, i) {
      GoodMeans(c, rows, i);
    }
  }

  /** The reason given is the first of the four checks that the least failing row fails. */
  lemma ReasonIsFirstCheck(c: Crypto, rows: seq<Row>, cp: Option<Checkpoint>, k: nat)
    requires k < |rows| && forall j :: 0 <= j < k ==> Good(c, rows, j)
    ensures var v, r := Verify(c, rows, cp), rows[k];
            var linked := r.prevHash == (if k == 0 then Zeros(64) else rows[k - 1].recordHash);
            var hashed := r.recordHash == c.sha256(MaterialOf(r));
            && (r.id != k + 1 ==> v == Report(Invalid, k + 1, Some(r.id), IdSequence, false))
            && (r.id == k + 1 && !linked ==> v == Report(Invalid, k + 1, Some(r.id), Linkage, false))
            && (r.id == k + 1 && linked && !hashed ==> v == Report(Invalid, k + 1, Some(r.id), HashMismatch, false))
            && (r.id == k + 1 && linked && hashed && IsAscii(r.mac) && r.mac != c.hmac(r.recordHash) ==>
                  v == Report(Invalid, k + 1, Some(r.id), MacMismatch, false))
  {
    if !Good(c, rows, k) {
      VerifyStopsAtLeast(c, rows, cp, k);
    }
  }

  /** The reasons a checkpoint gives rise to when every row passes, or there is none. */
  lemma ReasonOfCheckpoint(c: Crypto, rows: seq<Row>, cp: Checkpoint)
    requires AllGood(c, rows)
    ensures var v, n := Verify(c, rows, Some(cp)), |rows|;
            && (n == 0 ==> v == Report(Invalid, 0, None, LogEmpty, false))
            && (n > 0 && !(1 <= cp.lastRecordId <= n) ==> v == Report(Invalid, n, None, CheckpointMissing, false))
            && (1 <= cp.lastRecordId <= n && IsAscii(cp.lastRecordMac) && rows[cp.lastRecordId - 1].mac != cp.lastRecordMac ==>
                  v == Report(Invalid, n, Some(cp.lastRecordId), CheckpointMismatch, false))
            && (1 <= cp.lastRecordId < n && rows[cp.lastRecordId - 1].mac == cp.lastRecordMac ==>
                  v == Report(Valid, n, None, CheckpointStale, false))
            && (1 <= cp.lastRecordId == n && rows[n - 1].mac == cp.lastRecordMac ==>
                  v == Report(Valid, n, None, NoReason, true))
  {
    if rows != [] {
      VerifyAllGood(c, rows, Some(cp));
      if NamesRow(rows, cp) {
        assert Good(c, rows, cp.lastRecordId - 1);
        DigestIsAscii(c.hmac(rows[cp.lastRecordId - 1].recordHash));
      }
    }
  }

  /** One appended row. */
  function OneRow(c: Crypto): Row {
    NextRow(c, [], "", "")
  }

  /** A single row whose MAC was overwritten with the first character that is not ASCII, and an
      untouched one with such a checkpoint: in neither case is there an answer. With the last
      ASCII character there is. */
  lemma ForeignMacRaises(c: Crypto)
    ensures Verify(c, [OneRow(c).(mac := "\U{0080}")], None) == RaisedTypeError
    ensures Verify(c, [OneRow(c)], Some(Checkpoint(1, "\U{0080}", ""))) == RaisedTypeError
    ensures Verify(c, [OneRow(c).(mac := "\U{007f}")], None) == Report(Invalid, 1, Some(1), MacMismatch, false)
  {
    var text := "\U{0080}";
    assert !IsAscii(text) by { assert text[0] >= 128 as char; }
    var spoilt := [OneRow(c).(mac := text)];
    assert MaterialOf(spoilt[0]) == MaterialOf(OneRow(c));
    assert HasForeignMac(c, spoilt, 0);
    RaisesExactly(c, spoilt, None);
    assert Good(c, [OneRow(c)], 0);
    assert NamesRow([OneRow(c)], Checkpoint(1, text, ""));
    RaisesExactly(c, [OneRow(c)], Some(Checkpoint(1, text, "")));
    var wrong := [OneRow(c).(mac := "\U{007f}")];
    assert MaterialOf(wrong[0]) == MaterialOf(OneRow(c));
    assert |c.hmac(wrong[0].recordHash)| == 64;
    ReasonIsFirstCheck(c, wrong, None, 0);
  }

  lemma GoodIsLocal(c: Crypto, rows: seq<Row>, more: seq<Row>, i: nat)
    requires i < |rows|
    ensures Good(c, rows + more, i) <==> Good(c, rows, i)
  {
    assert (rows + more)[i] == rows[i];
    assert i > 0 ==> (rows + more)[i - 1] == rows[i - 1];
  }

  lemma GoodTable(c: Crypto, rows: seq<Row>)
    requires AllGood(c, rows)
    ensures NextId(rows) == |rows| + 1
    ensures |TailHash(rows)| == 64
  {
    if rows != [] {
      assert Good(c, rows, |rows| - 1);
    }
  }

  lemma AppendKeepsGood(c: Crypto, rows: seq<Row>, timestamp: string, payload: string)
    requires AllGood(c, rows)
    ensures AllGood(c, rows + [NextRow(c, rows, timestamp, payload)])
  {
    var after := rows + [NextRow(c, rows, timestamp, payload)];
    GoodTable(c, rows);
    forall i | 0 <= i < |after| ensures Good(c, after, i) {
      if i < |rows| {
        GoodIsLocal(c, rows, after[|rows|..], i);
        assert rows + after[|rows|..] == after;
      }
    }
  }

  /** Appending to a VALID or EMPTY log gives VALID; appending to any other log changes
      nothing about what the verifier says. */
  lemma AppendAndVerify(c: Crypto, rows: seq<Row>, timestamp: string, payload: string)
    ensures var before := Verify(c, rows, None);
            var after := Verify(c, rows + [NextRow(c, rows, timestamp, payload)], None);
            if before.Report? && before.status in {Valid, Empty}
            then after == Report(Valid, |rows| + 1, None, NoReason, false)
            else after == before
  {
    var row := NextRow(c, rows, timestamp, payload);
    VerifyExact(c, rows);
    VerifyExact(c, rows + [row]);
    if AllGood(c, rows) {
      AppendKeepsGood(c, rows, timestamp, payload);
    } else {
      var k := FirstBad(c, rows, 0);
      forall j | 0 <= j <= k ensures Good(c, rows + [row], j) <==> Good(c, rows, j) {
        GoodIsLocal(c, rows, [row], j);
      }
      VerifyStopsAtLeast(c, rows, None, k);
      VerifyStopsAtLeast(c, rows + [row], None, k);
      assert k > 0 ==> (rows + [row])[k - 1] == rows[k - 1];
    }
  }

  // ---------- The logs that appends produce ----------

  lemma {:induction false} LogIsGood(c: Crypto, history: seq<Entry>)
    ensures |Log(c, history)| == |history| && AllGood(c, Log(c, history))
  {
    if history != [] {
      var n := |history| - 1;
      LogIsGood(c, history[..n]);
      AppendKeepsGood(c, Log(c, history[..n]), history[n].timestamp, history[n].payload);
    }
  }

  lemma LogStep(c: Crypto, history: seq<Entry>)
    requires history != []
    ensures |Log(c, history)| == |history|
    ensures Log(c, history)[..|history| - 1] == Log(c, history[..|history| - 1])
  {
    LogIsGood(c, history[..|history| - 1]);
  }

  lemma {:induction false} LogPrefix(c: Crypto, history: seq<Entry>, k: nat)
    requires k <= |history|
    ensures k <= |Log(c, history)| && Log(c, history)[..k] == Log(c, history[..k])
  {
    if k < |history| {
      var n := |history| - 1;
      LogPrefix(c, history[..n], k);
      LogStep(c, history);
      assert history[..n][..k] == history[..k];
      assert Log(c, history)[..n][..k] == Log(c, history)[..k];
    } else {
      LogIsGood(c, history);
      assert history[..k] == history;
    }
  }

  /** Row `i` of a log is the one written for entry `i`. */
  lemma LogRow(c: Crypto, history: seq<Entry>, i: nat)
    requires i < |history|
    ensures |Log(c, history)| == |history|
    ensures Log(c, history)[i] == NextRow(c, Log(c, history[..i]), history[i].timestamp, history[i].payload)
  {
    LogIsGood(c, history);
    LogIsGood(c, history[..i]);
    LogPrefix(c, history, i + 1);
    assert history[..i + 1][..i] == history[..i];
    assert Log(c, history)[i] == Log(c, history)[..i + 1][i];
  }

  /** Rows that could have been written by appends: good, of the current schema, and with
      timestamps that hold no bar. */
  predicate Written(c: Crypto, rows: seq<Row>) {
    && AllGood(c, rows)
    && forall i :: 0 <= i < |rows| ==> rows[i].schemaVersion == AUDIT_SCHEMA_VERSION && '|' !in rows[i].timestamp
  }

  function HistoryOf(rows: seq<Row>): (h: seq<Entry>)
    requires forall i :: 0 <= i < |rows| ==> '|' !in rows[i].timestamp
    ensures |h| == |rows|
  {
    seq(|rows|, i requires 0 <= i < |rows| => Entry(rows[i].timestamp, rows[i].payload))
  }

  lemma WrittenPrefix(c: Crypto, rows: seq<Row>, n: nat)
    requires Written(c, rows) && n <= |rows|
    ensures Written(c, rows[..n])
  {
    forall i | 0 <= i < n ensures Good(c, rows[..n], i) {
      GoodIsLocal(c, rows[..n], rows[n..], i);
      assert rows[..n] + rows[n..] == rows;
    }
  }

  lemma WrittenLast(c: Crypto, rows: seq<Row>)
    requires Written(c, rows) && rows != []
    ensures var n := |rows| - 1;
            rows == rows[..n] + [NextRow(c, rows[..n], rows[n].timestamp, rows[n].payload)]
  {
    var n := |rows| - 1;
    WrittenPrefix(c, rows, n);
    GoodTable(c, rows[..n]);
    assert Good(c, rows, n);
  }

  lemma {:induction false} WrittenIsLog(c: Crypto, rows: seq<Row>)
    requires Written(c, rows)
    ensures rows == Log(c, HistoryOf(rows))
  {
    if rows != [] {
      var n := |rows| - 1;
      WrittenPrefix(c, rows, n);
      WrittenIsLog(c, rows[..n]);
      WrittenLast(c, rows);
      assert HistoryOf(rows)[..n] == HistoryOf(rows[..n]);
    }
  }

  lemma LogIsWritten(c: Crypto, history: seq<Entry>)
    ensures Written(c, Log(c, history))
  {
    LogIsGood(c, history);
    forall i | 0 <= i < |history|
      ensures Log(c, history)[i].schemaVersion == AUDIT_SCHEMA_VERSION && '|' !in Log(c, history)[i].timestamp
    {
      LogRow(c, history, i);
    }
  }

  // ---------- What a hash commits to ----------

  /** The two rows are hashed from different texts to the same value. */
  predicate HashCollision(c: Crypto, a: Row, b: Row) {
    MaterialOf(a) != MaterialOf(b) && RowHash(c, a) == RowHash(c, b)
  }

  /** The two rows carry different hashes with the same MAC. */
  predicate MacCollision(c: Crypto, a: Row, b: Row) {
    a.recordHash != b.recordHash && c.hmac(a.recordHash) == c.hmac(b.recordHash)
  }

  /** Agreement in every column, timestamp and payload as the text they are hashed in. */
  predicate SameRecord(a: Row, b: Row) {
    && a.id == b.id
    && a.schemaVersion == b.schemaVersion
    && a.timestamp + "|" + a.payload == b.timestamp + "|" + b.payload
    && a.prevHash == b.prevHash
    && a.recordHash == b.recordHash
    && a.mac == b.mac
  }

  lemma MaterialLayout(r: Row)
    ensures MaterialOf(r)
      == Dec(r.id) + "|" + (Dec(r.schemaVersion) + "|" + ((r.timestamp + "|" + r.payload) + "|" + r.prevHash))
  {
    var tail := Bar(r.payload, Last(r.prevHash));
    assert Print(tail) == r.payload + "|" + r.prevHash;
    assert Print(Bar(r.timestamp, tail)) == (r.timestamp + "|" + r.payload) + "|" + r.prevHash;
    assert Print(Bar(Dec(r.schemaVersion), Bar(r.timestamp, tail)))
        == Dec(r.schemaVersion) + "|" + ((r.timestamp + "|" + r.payload) + "|" + r.prevHash);
  }

  /** The hashed text determines id, schema version, previous hash and the joined
      timestamp and payload. */
  lemma MaterialInjective(a: Row, b: Row)
    requires MaterialOf(a) == MaterialOf(b)
    requires |a.prevHash| == |b.prevHash|
    ensures a.id == b.id && a.schemaVersion == b.schemaVersion && a.prevHash == b.prevHash
    ensures a.timestamp + "|" + a.payload == b.timestamp + "|" + b.payload
  {
    var x, y := a.timestamp + "|" + a.payload, b.timestamp + "|" + b.payload;
    MaterialLayout(a);
    MaterialLayout(b);
    var u, v := Dec(a.schemaVersion) + "|" + (x + "|" + a.prevHash), Dec(b.schemaVersion) + "|" + (y + "|" + b.prevHash);
    hide MaterialOf;
    DecHasNoBar(a.id);
    DecHasNoBar(b.id);
    SplitAtFirst('|', Dec(a.id), u, Dec(b.id), v);
    DecInjective(a.id, b.id);
    DecHasNoBar(a.schemaVersion);
    DecHasNoBar(b.schemaVersion);
    SplitAtFirst('|', Dec(a.schemaVersion), x + "|" + a.prevHash, Dec(b.schemaVersion), y + "|" + b.prevHash);
    DecInjective(a.schemaVersion, b.schemaVersion);
    SplitAtLast('|', x, a.prevHash, y, b.prevHash);
  }

  /** Timestamp and payload are separated too when neither timestamp holds a bar. */
  lemma SameRecordExact(a: Row, b: Row)
    requires SameRecord(a, b) && '|' !in a.timestamp && '|' !in b.timestamp
    ensures a == b
  {
    SplitAtFirst('|', a.timestamp, a.payload, b.timestamp, b.payload);
  }

  lemma GoodPrevLength(c: Crypto, rows: seq<Row>, i: nat)
    requires i < |rows| && AllGood(c, rows)
    ensures |rows[i].prevHash| == 64
  {
    assert Good(c, rows, i);
    assert i > 0 ==> Good(c, rows, i - 1);
  }

  /** Two good rows with the same hash are the same record, or their texts collide. */
  lemma SameHashSameRecord(c: Crypto, rows: seq<Row>, i: nat, log: seq<Row>, j: nat)
    requires AllGood(c, rows) && AllGood(c, log) && i < |rows| && j < |log|
    requires rows[i].recordHash == log[j].recordHash
    ensures SameRecord(rows[i], log[j]) || HashCollision(c, rows[i], log[j])
  {
    assert Good(c, rows, i) && Good(c, log, j);
    GoodPrevLength(c, rows, i);
    GoodPrevLength(c, log, j);
    if MaterialOf(rows[i]) == MaterialOf(log[j]) {
      MaterialInjective(rows[i], log[j]);
    }
  }

  /** Equal hashes at row `k` commit both tables to the same rows all the way back. */
  lemma {:induction false} HashCommitsToPrefix(c: Crypto, rows: seq<Row>, log: seq<Row>, k: nat)
    requires AllGood(c, rows) && AllGood(c, log) && k < |rows| && k < |log|
    requires rows[k].recordHash == log[k].recordHash
    ensures (forall i :: 0 <= i <= k ==> SameRecord(rows[i], log[i]))
            || (exists i :: 0 <= i <= k && HashCollision(c, rows[i], log[i]))
  {
    SameHashSameRecord(c, rows, k, log, k);
    if !HashCollision(c, rows[k], log[k]) && k > 0 {
      LinkedHash(c, rows, k);
      LinkedHash(c, log, k);
      HashCommitsToPrefix(c, rows, log, k - 1);
    }
  }

  lemma LinkedHash(c: Crypto, rows: seq<Row>, k: nat)
    requires AllGood(c, rows) && 0 < k < |rows|
    ensures rows[k].prevHash == rows[k - 1].recordHash
  {
    assert Good(c, rows, k);
  }

  // ---------- Checkpoints ----------

  /** If a checkpoint taken from an honest log verifies as VALID against any rows whatever,
      the rows start with that log, or two of the rows compared exhibit a collision. The
      verified tail says there is nothing after it. */
  lemma CheckpointCommitsToPrefix(c: Crypto, history: seq<Entry>, createdAt: string, rows: seq<Row>)
    requires history != []
    requires |Log(c, history)| == |history|
    requires IsValid(Verify(c, rows, Some(CheckpointOf(Log(c, history)[|history| - 1], createdAt))))
    ensures |history| <= |rows|
    ensures Verify(c, rows, Some(CheckpointOf(Log(c, history)[|history| - 1], createdAt))).tailVerified
            <==> |rows| == |history|
    ensures (forall i :: 0 <= i < |history| ==> SameRecord(rows[i], Log(c, history)[i]))
            || (exists i :: 0 <= i < |history| && HashCollision(c, rows[i], Log(c, history)[i]))
            || MacCollision(c, rows[|history| - 1], Log(c, history)[|history| - 1])
  {
    var log, k := Log(c, history), |history| - 1;
    LogIsGood(c, history);
    assert Good(c, log, k);
    assert AllGood(c, rows) by {
      var f := FirstBad(c, rows, 0);
    }
    assert Good(c, rows, k);
    assert c.hmac(rows[k].recordHash) == c.hmac(log[k].recordHash);
    if !MacCollision(c, rows[k], log[k]) {
      HashCommitsToPrefix(c, rows, log, k);
    }
  }

  /** A checkpoint naming a row of a good table with its MAC verifies, and covers the tail
      exactly when the row is the newest. */
  lemma NamedRowVerifies(c: Crypto, rows: seq<Row>, cp: Checkpoint)
    requires AllGood(c, rows)
    requires 1 <= cp.lastRecordId <= |rows| && rows[cp.lastRecordId - 1].mac == cp.lastRecordMac
    ensures IsValid(Verify(c, rows, Some(cp)))
    ensures Verify(c, rows, Some(cp)).entriesChecked == |rows|
    ensures Verify(c, rows, Some(cp)).tailVerified <==> cp.lastRecordId == |rows|
  {
    assert Good(c, rows, cp.lastRecordId - 1);
    DigestIsAscii(c.hmac(rows[cp.lastRecordId - 1].recordHash));
    assert FirstBad(c, rows, 0) == |rows|;
  }

  // ---------- Tampering without a checkpoint ----------

  /** The row's MAC is valid, for a hash that the log's writer never issued. */
  predicate Forged(c: Crypto, log: seq<Row>, r: Row) {
    r.mac == c.hmac(r.recordHash) && forall j :: 0 <= j < |log| ==> log[j].recordHash != r.recordHash
  }

  /** What the ways out come to: two texts with the same SHA-256 or the same MAC, or a MAC for
      a hash that no row of the log carries. */
  lemma WaysOut(c: Crypto, log: seq<Row>, a: Row, b: Row)
    ensures HashCollision(c, a, b) ==> exists x, y :: x != y && c.sha256(x) == c.sha256(y)
    ensures MacCollision(c, a, b) ==> exists x, y :: x != y && c.hmac(x) == c.hmac(y)
    ensures Forged(c, log, a) ==> a.mac == c.hmac(a.recordHash) && forall r :: r in log ==> r.recordHash != a.recordHash
  {
    hide MaterialOf;
    if HashCollision(c, a, b) {
      var x, y := MaterialOf(a), MaterialOf(b);
      assert x != y && c.sha256(x) == c.sha256(y);
    }
  }

  /** A good row that is not forged is the row of the log in the same place. */
  lemma UnforgedRow(c: Crypto, rows: seq<Row>, i: nat, log: seq<Row>)
    requires AllGood(c, rows) && AllGood(c, log) && i < |rows|
    requires !Forged(c, log, rows[i])
    ensures (i < |log| && SameRecord(rows[i], log[i]))
            || exists j :: 0 <= j < |log| && HashCollision(c, rows[i], log[j])
  {
    assert Good(c, rows, i);
    var j :| 0 <= j < |log| && log[j].recordHash == rows[i].recordHash;
    SameHashSameRecord(c, rows, i, log, j);
    assert Good(c, log, j);
  }

  /** Rows that verify as VALID are a prefix of the honest log, or a row of theirs collides
      with a row of the log, or a row carries a forged MAC. */
  lemma TamperEvidence(c: Crypto, history: seq<Entry>, rows: seq<Row>)
    requires IsValid(Verify(c, rows, None))
    ensures |Log(c, history)| == |history|
    ensures (|rows| <= |history| && forall i :: 0 <= i < |rows| ==> SameRecord(rows[i], Log(c, history)[i]))
            || (exists i, j :: 0 <= i < |rows| && 0 <= j < |history| && HashCollision(c, rows[i], Log(c, history)[j]))
            || (exists i :: 0 <= i < |rows| && Forged(c, Log(c, history), rows[i]))
  {
    var log := Log(c, history);
    LogIsGood(c, history);
    VerifyExact(c, rows);
    if (forall i :: 0 <= i < |rows| ==> !Forged(c, log, rows[i]))
       && (forall i, j :: 0 <= i < |rows| && 0 <= j < |log| ==> !HashCollision(c, rows[i], log[j]))
    {
      forall i | 0 <= i < |rows| ensures i < |log| && SameRecord(rows[i], log[i]) {
        UnforgedRow(c, rows, i, log);
      }
      UnforgedRow(c, rows, |rows| - 1, log);
    }
  }

  /** The converse, which is the documented limitation: every prefix of an honest log
      verifies as VALID by itself, and only a checkpoint naming a later row tells it apart. */
  lemma TruncationNeedsCheckpoint(c: Crypto, history: seq<Entry>, k: nat, cp: Checkpoint)
    requires 1 <= k <= |history|
    ensures k <= |Log(c, history)| && IsValid(Verify(c, Log(c, history)[..k], None))
    ensures cp.lastRecordId > k ==>
      Verify(c, Log(c, history)[..k], Some(cp)) == Report(Invalid, k, None, CheckpointMissing, false)
  {
    LogPrefix(c, history, k);
    LogIsGood(c, history[..k]);
    VerifyExact(c, Log(c, history[..k]));
    assert FirstBad(c, Log(c, history[..k]), 0) == k;
  }

  // ---------- Rollback and regrowth ----------

  /** What happens to a database over its life: appends, and replacement by any copy of an
      earlier state. */
  datatype Op = Append(entry: Entry) | Restore(copy: nat)

  /** All states so far, the present one last. */
  function Run(c: Crypto, states: seq<seq<Row>>, ops: seq<Op>): (r: seq<seq<Row>>)
    requires states != []
    ensures r != []
    decreases |ops|
  {
    if ops == [] then states else Run(c, states + [After(c, states, ops[0])], ops[1..])
  }

  function Now(states: seq<seq<Row>>): seq<Row>
    requires states != []
  {
    states[|states| - 1]
  }

  function After(c: Crypto, states: seq<seq<Row>>, op: Op): seq<Row>
    requires states != []
  {
    match op
    case Append(e) => Now(states) + [NextRow(c, Now(states), e.timestamp, e.payload)]
    case Restore(copy) => if copy < |states| then states[copy] else Now(states)
  }

  predicate AllWritten(c: Crypto, states: seq<seq<Row>>) {
    forall i :: 0 <= i < |states| ==> Written(c, states[i])
  }

  lemma {:induction false} RunIsWritten(c: Crypto, states: seq<seq<Row>>, ops: seq<Op>)
    requires states != [] && AllWritten(c, states)
    ensures AllWritten(c, Run(c, states, ops))
    decreases |ops|
  {
    if ops != [] {
      if ops[0].Append? {
        AppendKeepsGood(c, Now(states), ops[0].entry.timestamp, ops[0].entry.payload);
      }
      RunIsWritten(c, states + [After(c, states, ops[0])], ops[1..]);
    }
  }

  lemma SameRecordsArePrefix(named: seq<Row>, now: seq<Row>)
    requires |named| <= |now|
    requires forall i :: 0 <= i < |named| ==>
      SameRecord(now[i], named[i]) && '|' !in now[i].timestamp && '|' !in named[i].timestamp
    ensures named <= now
  {
    forall i | 0 <= i < |named| ensures now[i] == named[i] {
      SameRecordExact(now[i], named[i]);
    }
  }

  /** A checkpoint kept outside the database while it is rolled back and grows again, past
      the checkpoint's id or not: verification is VALID exactly when the present log extends
      the log the checkpoint was taken from, unless two of the rows exhibit a collision. */
  lemma RollbackAndRegrow(c: Crypto, before: seq<Op>, since: seq<Op>, createdAt: string)
    requires Now(Run(c, [[]], before)) != []
    ensures var states := Run(c, [[]], before);
            var named := Now(states);
            var now := Now(Run(c, states, since));
            var k := |named| - 1;
            var v := Verify(c, now, Some(CheckpointOf(named[k], createdAt)));
            || (IsValid(v) <==> named <= now)
            || (k < |now| && MacCollision(c, now[k], named[k]))
            || (exists i :: 0 <= i <= k < |now| && HashCollision(c, now[i], named[i]))
  {
    var states := Run(c, [[]], before);
    var named := Now(states);
    var now := Now(Run(c, states, since));
    var k := |named| - 1;
    var cp := CheckpointOf(named[k], createdAt);
    RunIsWritten(c, [[]], before);
    RunIsWritten(c, states, since);
    assert Good(c, named, k);
    if named <= now {
      assert now[k] == named[k];
      NamedRowVerifies(c, now, cp);
    } else if IsValid(Verify(c, now, Some(cp))) {
      WrittenIsLog(c, named);
      CheckpointCommitsToPrefix(c, HistoryOf(named), createdAt, now);
      if forall i :: 0 <= i <= k ==> SameRecord(now[i], named[i]) {
        SameRecordsArePrefix(named, now);
      }
    }
  }
}
