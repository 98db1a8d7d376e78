/** The blood-pressure reading handlers. The `bp_readings` table is a map from reading id to
    row; every handler is scoped to the caller's user id (`req.user.id`), which the
    authentication middleware supplies and which is a plain input here. */
module BpController {
  import opened Http
  import opened Decimal
  import opened Csv

  /** A row of `bp_readings`. */
  datatype Reading = Reading(
    id: nat,
    userId: nat,
    systolic: int,
    diastolic: int,
    readingDate: Timestamp,
    notes: Option<string>,
    createdAt: Timestamp)

  /** The request body of add and update: `{ systolic, diastolic, date, notes }`. */
  datatype ReadingInput = ReadingInput(systolic: int, diastolic: int, date: Timestamp, notes: Option<string>)

  /** The handler-specific part of a JSON reply. */
  datatype Payload =
    | NoPayload
    | OneReading(reading: Reading)
    | ReadingList(count: nat, readings: seq<Reading>)
    | Statistics(totalReadings: nat, recentReadings: seq<Reading>)

  /** The one reply for a reading that does not exist and for one that belongs to someone else. */
  const NotFound: Response<Payload> := Json(404, false, Some("Reading not found"), NoPayload)

  /** `notes || null`: a missing or empty note is stored as NULL. */
  function StoredNotes(notes: Option<string>): (stored: Option<string>)
    ensures stored.None? <==> notes.None? || notes == Some("")
    ensures stored.Some? ==> stored == notes
  {
    if notes == Some("") then None else notes
  }

  /** The row with key `id` exists and belongs to `userId`. */
  predicate Owns(rows: map<nat, Reading>, id: nat, userId: nat) {
    id in rows && rows[id].userId == userId
  }

  /** The rows of one user: `WHERE user_id = $1`. */
  function Owned(rows: map<nat, Reading>, userId: nat): (owned: map<nat, Reading>)
    ensures forall k :: k in owned ==> k in rows && owned[k] == rows[k] && owned[k].userId == userId
    ensures forall k :: Owns(rows, k, userId) ==> k in owned
  {
    map k | k in rows && rows[k].userId == userId :: rows[k]
  }

  /** `SELECT * FROM bp_readings WHERE id = $1 AND user_id = $2`: at most one row. */
  function SelectOwned(rows: map<nat, Reading>, id: nat, userId: nat): (result: seq<Reading>)
    ensures |result| <= 1
    ensures |result| == 0 <==> !Owns(rows, id, userId)
    ensures |result| == 1 ==> result[0] == rows[id]
  {
    if id in rows && rows[id].userId == userId then [rows[id]] else []
  }

  /** The order of `ORDER BY reading_date DESC`. SQL leaves rows with equal dates in no
      particular order; the model lists the higher id first. */
  predicate ListedBefore(a: nat, ra: Reading, b: nat, rb: Reading) {
    ra.readingDate > rb.readingDate || (ra.readingDate == rb.readingDate && a >= b)
  }

  predicate IsNewest(rows: map<nat, Reading>, k: nat) {
    k in rows && forall j :: j in rows ==> ListedBefore(k, rows[k], j, rows[j])
  }

  lemma {:induction false} NewestExists(rows: map<nat, Reading>)
    requires rows != map[]
    ensures exists k :: IsNewest(rows, k)
    decreases rows.Keys
  {
    var x :| x in rows;
    var rest := rows - {x};
    if rest == map[] {
      assert rows.Keys == rest.Keys + {x};
      assert IsNewest(rows, x);
    } else {
      assert rest.Keys < rows.Keys;
      NewestExists(rest);
      var y :| IsNewest(rest, y);
      if ListedBefore(x, rows[x], y, rows[y]) {
        forall j | j in rows ensures ListedBefore(x, rows[x], j, rows[j]) {
          if j != x {
            assert j in rest && ListedBefore(y, rest[y], j, rest[j]);
          }
        }
        assert IsNewest(rows, x);
      } else {
        forall j | j in rows ensures ListedBefore(y, rows[y], j, rows[j]) {
          if j != x {
            assert j in rest && ListedBefore(y, rest[y], j, rest[j]);
          }
        }
        assert IsNewest(rows, y);
      }
    }
  }

  /** The key of the reading that `ORDER BY reading_date DESC` puts first. */
  function Newest(rows: map<nat, Reading>): (k: nat)
    requires rows != map[]
    ensures IsNewest(rows, k)
  {
    NewestExists(rows);
    var k :| IsNewest(rows, k);
    k
  }

  /** The keys of `rows`, newest reading first. */
  function NewestFirst(rows: map<nat, Reading>): seq<nat>
    decreases rows.Keys
  {
    if rows == map[] then []
    else
      var k := Newest(rows);
      var rest := rows - {k};
      assert rest.Keys < rows.Keys;
      [k] + NewestFirst(rest)
  }

  /** NewestFirst lists every key of the map exactly once. */
  lemma {:induction false} NewestFirstKeys(rows: map<nat, Reading>)
    ensures var ks := NewestFirst(rows);
      && |ks| == |rows|
      && (forall k :: k in ks <==> k in rows)
      && (forall i, j :: 0 <= i < j < |ks| ==> ks[i] != ks[j])
    decreases rows.Keys
  {
    if rows != map[] {
      var k := Newest(rows);
      var rest := rows - {k};
      assert rest.Keys == rows.Keys - {k};
      NewestFirstKeys(rest);
      var tail := NewestFirst(rest);
      assert NewestFirst(rows) == [k] + tail;
      assert k !in tail;
    }
  }

  ghost predicate KeysInOrder(rows: map<nat, Reading>, ks: seq<nat>) {
    forall i, j :: 0 <= i < j < |ks| ==>
      ks[i] in rows && ks[j] in rows && ListedBefore(ks[i], rows[ks[i]], ks[j], rows[ks[j]])
  }

  /** Putting the newest key in front of the other keys in order keeps them in order. */
  lemma NewestInFront(rows: map<nat, Reading>, k: nat, tail: seq<nat>)
    requires IsNewest(rows, k)
    requires forall x :: x in tail ==> x in rows && x != k
    requires KeysInOrder(rows - {k}, tail)
    ensures KeysInOrder(rows, [k] + tail)
  {
    var rest := rows - {k};
    var ks := [k] + tail;
    forall i, j | 0 <= i < j < |ks|
      ensures ks[i] in rows && ks[j] in rows && ListedBefore(ks[i], rows[ks[i]], ks[j], rows[ks[j]])
    {
      assert ks[j] == tail[j - 1] && ks[j] in tail;
      if i > 0 {
        assert ks[i] == tail[i - 1] && ks[i] in tail;
        assert rest[ks[i]] == rows[ks[i]] && rest[ks[j]] == rows[ks[j]];
      }
    }
  }

  /** NewestFirst lists the keys in the order of ListedBefore. */
  lemma {:induction false} NewestFirstOrdered(rows: map<nat, Reading>)
    ensures KeysInOrder(rows, NewestFirst(rows))
    decreases rows.Keys
  {
    if rows != map[] {
      var k := Newest(rows);
      var rest := rows - {k};
      assert rest.Keys < rows.Keys;
      NewestFirstOrdered(rest);
      NewestFirstKeys(rest);
      NewestInFront(rows, k, NewestFirst(rest));
    }
  }

  /** The rows of `m` under the keys `ks`, in that order. */
  function RowsAt(m: map<nat, Reading>, ks: seq<nat>): (rs: seq<Reading>)
    requires forall i :: 0 <= i < |ks| ==> ks[i] in m
    ensures |rs| == |ks| && forall i :: 0 <= i < |ks| ==> rs[i] == m[ks[i]]
  {
    seq(|ks|, i requires 0 <= i < |ks| => m[ks[i]])
  }

  /** The rows of one user, newest first, as the key order NewestFirst gives. */
  function OwnedNewestFirst(rows: map<nat, Reading>, userId: nat): seq<Reading> {
    var mine := Owned(rows, userId);
    NewestFirstKeys(mine);
    RowsAt(mine, NewestFirst(mine))
  }

  lemma OwnedNewestFirstSpec(rows: map<nat, Reading>, userId: nat)
    ensures var rs := OwnedNewestFirst(rows, userId);
      && |rs| == |Owned(rows, userId)|
      && (forall i :: 0 <= i < |rs| ==> rs[i].userId == userId && rs[i] in rows.Values)
      && (forall k :: Owns(rows, k, userId) ==> rows[k] in rs)
      && (forall i, j :: 0 <= i < j < |rs| ==> rs[i].readingDate >= rs[j].readingDate)
  {
    var mine := Owned(rows, userId);
    NewestFirstKeys(mine);
    NewestFirstOrdered(mine);
    var ks := NewestFirst(mine);
    var rs := OwnedNewestFirst(rows, userId);
    assert rs == RowsAt(mine, ks);
    forall i | 0 <= i < |rs| ensures rs[i].userId == userId && rs[i] in rows.Values {
      var k := ks[i];
      assert k in mine && rs[i] == mine[k] == rows[k];
    }
    forall k | Owns(rows, k, userId) ensures rows[k] in rs {
      assert k in mine;
      var i :| 0 <= i < |ks| && ks[i] == k;
      assert rs[i] == rows[k];
    }
    forall i, j | 0 <= i < j < |rs| ensures rs[i].readingDate >= rs[j].readingDate {
      assert ListedBefore(ks[i], mine[ks[i]], ks[j], mine[ks[j]]);
    }
  }

  /** The caller's rows as `SELECT * FROM bp_readings WHERE user_id = $1 ORDER BY
      reading_date DESC` returns them: all of the caller's rows and no other, newest first. */
  function ReadingsFor(rows: map<nat, Reading>, userId: nat): (rs: seq<Reading>)
    ensures |rs| == |Owned(rows, userId)|
    ensures forall i :: 0 <= i < |rs| ==> rs[i].userId == userId && rs[i] in rows.Values
    ensures forall k :: Owns(rows, k, userId) ==> rows[k] in rs
    ensures forall i, j :: 0 <= i < j < |rs| ==> rs[i].readingDate >= rs[j].readingDate
  {
    OwnedNewestFirstSpec(rows, userId);
    OwnedNewestFirst(rows, userId)
  }

  /** `getReadings`: the caller's readings, newest first, with their number. */
  function GetReadings(rows: map<nat, Reading>, userId: nat): (resp: Response<Payload>)
    ensures resp.Json? && resp.status == 200 && resp.success && resp.payload.ReadingList?
    ensures resp.payload.count == |resp.payload.readings| == |Owned(rows, userId)|
    ensures resp.payload.readings == ReadingsFor(rows, userId)
  {
    var result := ReadingsFor(rows, userId);
    Json(200, true, None, ReadingList(|result|, result))
  }

  /** `getReadingById`: the one row with that id and owner, or 404. */
  function GetReadingById(rows: map<nat, Reading>, id: nat, userId: nat): (resp: Response<Payload>)
    ensures !Owns(rows, id, userId) ==> resp == NotFound
    ensures Owns(rows, id, userId) ==> resp == Json(200, true, None, OneReading(rows[id]))
  {
    var result := SelectOwned(rows, id, userId);
    if |result| == 0 then NotFound else Json(200, true, None, OneReading(result[0]))
  }

  /** `LIMIT n`. */
  function Limit(rs: seq<Reading>, n: nat): (r: seq<Reading>)
    ensures |r| == if |rs| <= n then |rs| else n
    ensures r == rs[..|r|]
  {
    if |rs| <= n then rs else rs[..n]
  }

  /** `getStatistics`: how many readings the caller has and the five most recent. */
  function GetStatistics(rows: map<nat, Reading>, userId: nat): (resp: Response<Payload>)
    ensures resp.Json? && resp.status == 200 && resp.success && resp.payload.Statistics?
    ensures resp.payload.totalReadings == |Owned(rows, userId)|
    ensures |resp.payload.recentReadings| <= 5
  {
    var total := |Owned(rows, userId)|;
    var recent := Limit(ReadingsFor(rows, userId), 5);
    Json(200, true, None, Statistics(total, recent))
  }

  /** The readings of a newest-first list that its first `n` leave out are none of them newer
      than those kept. */
  lemma LimitKeepsNewest(all: seq<Reading>, n: nat)
    requires forall i, j :: 0 <= i < j < |all| ==> all[i].readingDate >= all[j].readingDate
    ensures var kept := Limit(all, n);
      forall i, x :: 0 <= i < |kept| && x in all && x !in kept ==> x.readingDate <= kept[i].readingDate
  {
    var kept := Limit(all, n);
    forall i, x | 0 <= i < |kept| && x in all && x !in kept
      ensures x.readingDate <= kept[i].readingDate
    {
      var j :| 0 <= j < |all| && all[j] == x;
      assert forall t :: 0 <= t < |kept| ==> kept[t] == all[t];
      assert all[i] == kept[i];
    }
  }

  /** The recent readings of the statistics are min(5, count) of the caller's rows, newest
      first. */
  lemma RecentAreCallersNewestFirst(rows: map<nat, Reading>, userId: nat)
    ensures var recent := GetStatistics(rows, userId).payload.recentReadings;
      && |recent| == (if |Owned(rows, userId)| <= 5 then |Owned(rows, userId)| else 5)
      && (forall i :: 0 <= i < |recent| ==> recent[i].userId == userId && recent[i] in rows.Values)
      && (forall i, j :: 0 <= i < j < |recent| ==> recent[i].readingDate >= recent[j].readingDate)
  {
    var all := ReadingsFor(rows, userId);
    var recent := GetStatistics(rows, userId).payload.recentReadings;
    assert recent == Limit(all, 5);
    forall i | 0 <= i < |recent|
      ensures recent[i] == all[i]
    {
    }
  }

  /** No reading of the caller left out of the recent readings is more recent than any of
      them. */
  lemma RecentAreNewest(rows: map<nat, Reading>, userId: nat)
    ensures var recent := GetStatistics(rows, userId).payload.recentReadings;
      forall i, k :: 0 <= i < |recent| && Owns(rows, k, userId) && rows[k] !in recent ==>
        rows[k].readingDate <= recent[i].readingDate
  {
    var all := ReadingsFor(rows, userId);
    var recent := GetStatistics(rows, userId).payload.recentReadings;
    assert recent == Limit(all, 5);
    LimitKeepsNewest(all, 5);
    forall i, k | 0 <= i < |recent| && Owns(rows, k, userId) && rows[k] !in recent
      ensures rows[k].readingDate <= recent[i].readingDate
    {
      assert rows[k] in all;
    }
  }

  /** Per-user isolation of the read handlers: what the caller sees depends only on the
      caller's own rows. */
  lemma ReadsDependOnlyOnOwnRows(rows1: map<nat, Reading>, rows2: map<nat, Reading>, id: nat, userId: nat)
    requires Owned(rows1, userId) == Owned(rows2, userId)
    ensures GetReadings(rows1, userId) == GetReadings(rows2, userId)
    ensures GetReadingById(rows1, id, userId) == GetReadingById(rows2, id, userId)
    ensures GetStatistics(rows1, userId) == GetStatistics(rows2, userId)
  {
    assert Owns(rows1, id, userId) <==> id in Owned(rows1, userId);
    assert Owns(rows2, id, userId) <==> id in Owned(rows2, userId);
  }

  /** A newly inserted reading is visible to its owner and to no one else, and the owner's
      count grows by one. */
  lemma AddedReadingVisibleOnlyToOwner(rows: map<nat, Reading>, r: Reading, other: nat)
    requires r.id !in rows && other != r.userId
    ensures var after := rows[r.id := r];
      && GetReadingById(after, r.id, r.userId) == Json(200, true, None, OneReading(r))
      && GetReadingById(after, r.id, other) == NotFound
      && GetStatistics(after, r.userId).payload.totalReadings == GetStatistics(rows, r.userId).payload.totalReadings + 1
      && GetReadings(after, other) == GetReadings(rows, other)
  {
    var after := rows[r.id := r];
    assert Owned(after, r.userId) == Owned(rows, r.userId)[r.id := r];
    assert r.id !in Owned(rows, r.userId);
    assert Owned(after, other) == Owned(rows, other);
  }

  /** A deleted reading is gone for everyone, and its owner's count drops by one. */
  lemma DeletedReadingGone(rows: map<nat, Reading>, id: nat, userId: nat, anyone: nat)
    requires Owns(rows, id, userId)
    ensures var after := rows - {id};
      && GetReadingById(after, id, anyone) == NotFound
      && GetStatistics(after, userId).payload.totalReadings + 1 == GetStatistics(rows, userId).payload.totalReadings
  {
    var after := rows - {id};
    assert Owned(rows, userId) == Owned(after, userId)[id := rows[id]];
    assert id !in Owned(after, userId);
  }

  /** The first line of the CSV export. */
  const CsvHeader: string := "ID,Systolic,Diastolic,Reading Date,Notes,Created At\n"

  /** `reading.notes || ''`: a NULL note is written as an empty field. */
  function NoteText(notes: Option<string>): (text: string)
    ensures text == "" <==> notes.None? || notes == Some("")
    ensures notes.Some? ==> text == notes.value
  {
    match notes
    case None => ""
    case Some(text) => text
  }

  /** The six fields of a reading's CSV line, in column order. Only the note can hold a
      double quote. */
  function CsvFields(r: Reading): (fields: seq<string>)
    ensures |fields| == 6 && fields[4] == NoteText(r.notes)
    ensures forall i :: 0 <= i < 6 && i != 4 ==> QuoteFree(fields[i])
  {
    [NatToString(r.id), IntToString(r.systolic), IntToString(r.diastolic),
     NatToString(r.readingDate), NoteText(r.notes), NatToString(r.createdAt)]
  }

  function CsvRows(rs: seq<Reading>): (records: seq<seq<string>>)
    ensures |records| == |rs| && NonEmptyRecords(records)
  {
    seq(|rs|, i requires 0 <= i < |rs| => CsvFields(rs[i]))
  }

  lemma CsvRowsExtend(rs: seq<Reading>, i: nat)
    requires i < |rs|
    ensures CsvRows(rs[..i + 1]) == CsvRows(rs[..i]) + [CsvFields(rs[i])]
  {
    var a := CsvRows(rs[..i + 1]);
    var b := CsvRows(rs[..i]) + [CsvFields(rs[i])];
    assert |a| == |b|;
    forall j | 0 <= j < |a| ensures a[j] == b[j] {
    }
  }

  /** The CSV file: the header line, then one record per reading, each field quoted and
      inner quotes doubled. */
  function CsvDocument(rs: seq<Reading>): string {
    CsvHeader + EncodeRecords(CsvRows(rs))
  }

  /** The loop of `exportReadingsCSV`: starting from the header line, each reading's line is
      appended as the source writes it, with the note copied verbatim. */
  method BuildCsv(rs: seq<Reading>) returns (csv: string)
    ensures csv == CsvDocumentAsWritten(rs)
  {
    csv := CsvHeader;
    ghost var lines := "";
    for i := 0 to |rs|
      invariant csv == CsvHeader + lines
      invariant lines == CsvLinesAsWritten(rs[..i])
    {
      var line := CsvLineAsWritten(rs[i]);
      assert rs[..i + 1][..i] == rs[..i];
      AppendAssociative(CsvHeader, lines, line);
      lines := lines + line;
      csv := csv + line;
    }
    assert rs[..|rs|] == rs;
  }

  /** Regrouping a concatenation; stated once so the loop above need not rediscover it for the
      long header literal. */
  lemma AppendAssociative(a: string, b: string, c: string)
    ensures (a + b) + c == a + (b + c)
  {
  }

  /** Appending the next reading's record to the file written so far. */
  lemma CsvLineExtends(rs: seq<Reading>, i: nat)
    requires i < |rs|
    ensures EncodeRecords(CsvRows(rs[..i + 1])) == EncodeRecords(CsvRows(rs[..i])) + EncodeRecord(CsvFields(rs[i]))
  {
    EncodeRecordsAppend(CsvRows(rs[..i]), CsvFields(rs[i]));
    CsvRowsExtend(rs, i);
  }

  /** The export reads back: after the header come exactly one record per reading, in
      query order, each holding that reading's six fields. */
  lemma CsvDocumentReadsBack(rs: seq<Reading>)
    ensures var doc := CsvDocument(rs);
      && |doc| >= |CsvHeader| && doc[..|CsvHeader|] == CsvHeader
      && ReadRecords(doc[|CsvHeader|..]) == Some(CsvRows(rs))
  {
    var doc := CsvDocument(rs);
    assert doc[|CsvHeader|..] == EncodeRecords(CsvRows(rs));
    ReadRecordsEncode(CsvRows(rs));
  }

  /** Each field of a reading's record gives back the reading's value; a NULL note gives
      the empty field. */
  lemma CsvFieldsReadBack(r: Reading)
    ensures var f := CsvFields(r);
      && AllDigits(f[0]) && ParseNat(f[0]) == r.id
      && AllDigits(f[3]) && ParseNat(f[3]) == r.readingDate
      && AllDigits(f[5]) && ParseNat(f[5]) == r.createdAt
      && (r.notes.None? ==> f[4] == "")
      && (r.notes.Some? ==> f[4] == r.notes.value)
      && ParseInt(f[1]) == r.systolic && ParseInt(f[2]) == r.diastolic
  {
    ParseNatToString(r.id);
    ParseNatToString(r.readingDate);
    ParseNatToString(r.createdAt);
    IntToStringRoundTrip(r.systolic);
    IntToStringRoundTrip(r.diastolic);
  }

  /** A CSV line as `exportReadingsCSV` writes it: fields in quotes, text copied verbatim. */
  function CsvLineAsWritten(r: Reading): (line: string)
    ensures |line| >= 3 && line[0] == '"' && line[|line| - 1] == '\n'
  {
    EncodeRecordVerbatim(CsvFields(r))
  }

  /** The lines of the export as written, one per reading, in order. */
  function CsvLinesAsWritten(rs: seq<Reading>): string {
    if |rs| == 0 then "" else CsvLinesAsWritten(rs[..|rs| - 1]) + CsvLineAsWritten(rs[|rs| - 1])
  }

  /** The CSV file as `exportReadingsCSV` sends it: the header line, then the lines as written. */
  function CsvDocumentAsWritten(rs: seq<Reading>): string {
    CsvHeader + CsvLinesAsWritten(rs)
  }

  /** While no note holds a double quote, the file as written is the quoted CSV file, so
      `CsvDocumentReadsBack` applies to it. */
  lemma {:induction false} AsWrittenAgreesWhenQuoteFree(rs: seq<Reading>)
    requires forall i :: 0 <= i < |rs| ==> QuoteFree(NoteText(rs[i].notes))
    ensures CsvDocumentAsWritten(rs) == CsvDocument(rs)
    ensures CsvLinesAsWritten(rs) == EncodeRecords(CsvRows(rs))
  {
    if |rs| > 0 {
      var n := |rs| - 1;
      AsWrittenAgreesWhenQuoteFree(rs[..n]);
      CsvLineAsWrittenWithoutQuotes(rs[n]);
      CsvLineExtends(rs, n);
      assert rs[..n + 1] == rs;
    }
  }

  /** While the note holds no double quote, the line as written is the quoted record. */
  lemma CsvLineAsWrittenWithoutQuotes(r: Reading)
    requires QuoteFree(NoteText(r.notes))
    ensures CsvLineAsWritten(r) == EncodeRecord(CsvFields(r))
  {
    var f := CsvFields(r);
    assert forall i :: 0 <= i < |f| ==> QuoteFree(f[i]);
    VerbatimAgreesWhenQuoteFree(f);
  }

  /** A note consisting of one double quote breaks the line as written: it no longer reads
      back as a record, so the export does not read back as the caller's readings. */
  lemma CsvLineAsWrittenBreaksOnQuote(r: Reading)
    requires r.notes == Some("\"")
    ensures ReadRecord(CsvLineAsWritten(r)).None?
    ensures ReadRecords(CsvLineAsWritten(r)) != Some(CsvRows([r]))
  {
    var f := CsvFields(r);
    assert f[4] == "\"";
    var created := f[5];
    ReadVerbatimLoneQuoteFails(created);
    ReadVerbatimQuoteFreeHead(f[3], f[4..]);
    ReadVerbatimQuoteFreeHead(f[2], f[3..]);
    ReadVerbatimQuoteFreeHead(f[1], f[2..]);
    ReadVerbatimQuoteFreeHead(f[0], f[1..]);
    assert f[4..] == ["\"", created];
    assert [f[3]] + f[4..] == f[3..];
    assert [f[2]] + f[3..] == f[2..];
    assert [f[1]] + f[2..] == f[1..];
    assert [f[0]] + f[1..] == f;
    var line := CsvLineAsWritten(r);
    assert line != [];
  }

  /** The export as written, for a caller whose one reading has the note `"`: after the
      header comes a line that does not read back as that reading's record. */
  lemma ExportAsWrittenBreaksOnQuote(r: Reading)
    requires r.notes == Some("\"")
    ensures var doc := CsvDocumentAsWritten([r]);
      && |doc| >= |CsvHeader| && doc[..|CsvHeader|] == CsvHeader
      && ReadRecords(doc[|CsvHeader|..]) != Some(CsvRows([r]))
  {
    assert [r][..0] == [];
    assert CsvLinesAsWritten([r][..0]) == "";
    var line := CsvLinesAsWritten([r]);
    assert line == "" + CsvLineAsWritten(r) == CsvLineAsWritten(r);
    assert CsvDocumentAsWritten([r])[|CsvHeader|..] == line;
    CsvLineAsWrittenBreaksOnQuote(r);
  }

  /** The `bp_readings` table with its id sequence (`SERIAL`, starting at 1). */
  class ReadingStore {
    var rows: map<nat, Reading>
    var nextId: nat

    /** Every row sits under its own id, and the sequence is past every id in use. */
    ghost predicate Valid()
      reads this
    {
      forall k :: k in rows ==> rows[k].id == k && k < nextId
    }

    constructor ()
      ensures Valid() && rows == map[] && nextId == 1
    {
      rows := map[];
      nextId := 1;
    }

    /** `addReading`: inserts one row owned by the caller and returns it with 201. */
    method AddReading(userId: nat, input: ReadingInput, now: Timestamp) returns (resp: Response<Payload>)
      requires Valid()
      modifies this
      ensures Valid() && nextId == old(nextId) + 1 && old(nextId) !in old(rows)
      ensures rows == old(rows)[old(nextId) := Reading(old(nextId), userId, input.systolic,
                input.diastolic, input.date, StoredNotes(input.notes), now)]
      ensures |rows| == |old(rows)| + 1
      ensures resp == Json(201, true, Some("Blood pressure reading added successfully"),
                           OneReading(rows[old(nextId)]))
      ensures forall u :: u != userId ==> Owned(rows, u) == Owned(old(rows), u)
    {
      var reading := Reading(nextId, userId, input.systolic, input.diastolic, input.date,
                             StoredNotes(input.notes), now);
      rows := rows[nextId := reading];
      nextId := nextId + 1;
      resp := Json(201, true, Some("Blood pressure reading added successfully"), OneReading(reading));
    }

    /** `updateReading`: rewrites the measured values of the caller's row, or 404 and no
        change when the caller has no row with that id. */
    method UpdateReading(id: nat, userId: nat, input: ReadingInput) returns (resp: Response<Payload>)
      requires Valid()
      modifies this
      ensures Valid() && nextId == old(nextId)
      ensures !Owns(old(rows), id, userId) ==> rows == old(rows) && resp == NotFound
      ensures Owns(old(rows), id, userId) ==>
        var was := old(rows)[id];
        var now := Reading(was.id, was.userId, input.systolic, input.diastolic, input.date,
                           StoredNotes(input.notes), was.createdAt);
        && rows == old(rows)[id := now]
        && resp == Json(200, true, Some("Reading updated successfully"), OneReading(now))
      ensures forall u :: u != userId ==> Owned(rows, u) == Owned(old(rows), u)
    {
      var existing := SelectOwned(rows, id, userId);
      if |existing| == 0 {
        resp := NotFound;
        return;
      }
      var updated := existing[0].(systolic := input.systolic, diastolic := input.diastolic,
                                  readingDate := input.date, notes := StoredNotes(input.notes));
      rows := rows[id := updated];
      resp := Json(200, true, Some("Reading updated successfully"), OneReading(updated));
    }

    /** `deleteReading`: removes the caller's row, or 404 and no change when the caller has
        no row with that id. */
    method DeleteReading(id: nat, userId: nat) returns (resp: Response<Payload>)
      requires Valid()
      modifies this
      ensures Valid() && nextId == old(nextId)
      ensures !Owns(old(rows), id, userId) ==> rows == old(rows) && resp == NotFound
      ensures Owns(old(rows), id, userId) ==>
        && rows == old(rows) - {id}
        && |rows| == |old(rows)| - 1
        && resp == Json(200, true, Some("Reading deleted successfully"), NoPayload)
      ensures forall u :: u != userId ==> Owned(rows, u) == Owned(old(rows), u)
    {
      var existing := SelectOwned(rows, id, userId);
      if |existing| == 0 {
        resp := NotFound;
        return;
      }
      rows := rows - {id};
      resp := Json(200, true, Some("Reading deleted successfully"), NoPayload);
    }

    /** `exportReadingsCSV`: the caller's readings, newest first, as a CSV download. While
        no note holds a double quote, the file is the quoted CSV file of those readings. */
    method ExportReadingsCsv(userId: nat) returns (resp: Response<Payload>)
      ensures resp == Download(200, "text/csv", "blood-pressure-readings.csv",
                               CsvDocumentAsWritten(ReadingsFor(rows, userId)))
      ensures var rs := ReadingsFor(rows, userId);
        (forall i :: 0 <= i < |rs| ==> QuoteFree(NoteText(rs[i].notes))) ==>
          resp.body == CsvDocument(rs)
    {
      var result := ReadingsFor(rows, userId);
      var csv := BuildCsv(result);
      if forall i :: 0 <= i < |result| ==> QuoteFree(NoteText(result[i].notes)) {
        AsWrittenAgreesWhenQuoteFree(result);
      }
      resp := Download(200, "text/csv", "blood-pressure-readings.csv", csv);
    }
  }
}
