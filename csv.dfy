/** Comma-separated records in which every field is enclosed in double quotes, as the
    readings export writes them, together with a reader for that format. Quoting follows
    section 2 of RFC 4180: a double quote inside a quoted field is written twice. */
module Csv {
  import opened Http

  predicate QuoteFree(s: string) {
    forall i :: 0 <= i < |s| ==> s[i] != '"'
  }

  /** Doubles every double quote of a field's text. */
  function Escape(s: string): (e: string)
    ensures QuoteFree(s) ==> e == s
  {
    if s == [] then [] else (if s[0] == '"' then "\"\"" else [s[0]]) + Escape(s[1..])
  }

  /** A field enclosed in double quotes, inner quotes doubled. */
  function Quote(s: string): string {
    "\"" + Escape(s) + "\""
  }

  /** One record: its quoted fields separated by commas, ended by a newline. */
  function EncodeRecord(fields: seq<string>): string
    requires |fields| > 0
  {
    if |fields| == 1 then Quote(fields[0]) + "\n"
    else Quote(fields[0]) + "," + EncodeRecord(fields[1..])
  }

  predicate NonEmptyRecords(records: seq<seq<string>>) {
    forall i :: 0 <= i < |records| ==> |records[i]| > 0
  }

  function EncodeRecords(records: seq<seq<string>>): string
    requires NonEmptyRecords(records)
  {
    if records == [] then "" else EncodeRecord(records[0]) + EncodeRecords(records[1..])
  }

  lemma {:induction false} EncodeRecordsAppend(records: seq<seq<string>>, last: seq<string>)
    requires NonEmptyRecords(records) && |last| > 0
    ensures NonEmptyRecords(records + [last])
    ensures EncodeRecords(records + [last]) == EncodeRecords(records) + EncodeRecord(last)
    decreases |records|
  {
    if records == [] {
      assert [last][1..] == [];
    } else {
      EncodeRecordsAppend(records[1..], last);
      assert (records + [last])[1..] == records[1..] + [last];
    }
  }

  /** Reads the text of a quoted field that starts just after its opening quote, up to the
      closing quote; gives the field's text and what follows the closing quote. */
  function ReadQuoted(s: string): (r: Option<(string, string)>)
    ensures r.Some? ==> |r.value.1| < |s|
    decreases |s|
  {
    if s == [] then None
    else if s[0] == '"' then
      if |s| >= 2 && s[1] == '"' then
        match ReadQuoted(s[2..])
        case None => None
        case Some((f, rest)) => Some(("\"" + f, rest))
      else Some(("", s[1..]))
    else
      match ReadQuoted(s[1..])
      case None => None
      case Some((f, rest)) => Some(([s[0]] + f, rest))
  }

  /** Reads one record of quoted fields up to and including its newline. */
  function ReadRecord(s: string): (r: Option<(seq<string>, string)>)
    ensures r.Some? ==> |r.value.0| > 0 && |r.value.1| < |s|
    decreases |s|
  {
    if s == [] || s[0] != '"' then None
    else
      match ReadQuoted(s[1..])
      case None => None
      case Some((f, rest)) =>
        if rest != [] && rest[0] == '\n' then Some(([f], rest[1..]))
        else if rest != [] && rest[0] == ',' then
          match ReadRecord(rest[1..])
          case None => None
          case Some((fs, rest')) => Some(([f] + fs, rest'))
        else None
  }

  /** Reads records until the text is used up; fails on any malformed record. */
  function ReadRecords(s: string): (r: Option<seq<seq<string>>>)
    ensures r.Some? ==> NonEmptyRecords(r.value)
    decreases |s|
  {
    if s == [] then Some([])
    else
      match ReadRecord(s)
      case None => None
      case Some((fs, rest)) =>
        match ReadRecords(rest)
        case None => None
        case Some(rs) => Some([fs] + rs)
  }

  /** A quote not followed by another quote closes the field. */
  lemma ReadQuotedClose(y: string)
    requires y == [] || y[0] != '"'
    ensures ReadQuoted("\"" + y) == Some(("", y))
  {
    assert ("\"" + y)[1..] == y;
  }

  /** A character other than a quote is part of the field's text. */
  lemma ReadQuotedPlain(c: char, y: string)
    requires c != '"' && ReadQuoted(y).Some?
    ensures ReadQuoted([c] + y) == Some(([c] + ReadQuoted(y).value.0, ReadQuoted(y).value.1))
  {
    assert ([c] + y)[1..] == y;
  }

  /** Two quotes stand for one quote of the field's text. */
  lemma ReadQuotedDoubled(y: string)
    requires ReadQuoted(y).Some?
    ensures ReadQuoted("\"\"" + y) == Some(("\"" + ReadQuoted(y).value.0, ReadQuoted(y).value.1))
  {
    assert ("\"\"" + y)[2..] == y;
  }

  lemma {:induction false} ReadQuotedEscape(s: string, rest: string)
    requires rest == [] || rest[0] != '"'
    ensures ReadQuoted(Escape(s) + "\"" + rest) == Some((s, rest))
    decreases |s|
  {
    var t := Escape(s) + "\"" + rest;
    if s == [] {
      assert t == "\"" + rest;
      ReadQuotedClose(rest);
    } else {
      ReadQuotedEscape(s[1..], rest);
      var tail := Escape(s[1..]) + "\"" + rest;
      if s[0] == '"' {
        assert t == "\"\"" + tail;
        ReadQuotedDoubled(tail);
        assert "\"" + s[1..] == s;
      } else {
        assert t == [s[0]] + tail;
        ReadQuotedPlain(s[0], tail);
        assert [s[0]] + s[1..] == s;
      }
    }
  }

  /** A quoted field followed by anything but a quote reads back as the field's text. */
  lemma ReadQuotedAfterQuote(f: string, after: string)
    requires after == [] || after[0] != '"'
    ensures var t := Quote(f) + after; t[0] == '"' && ReadQuoted(t[1..]) == Some((f, after))
  {
    var t := Quote(f) + after;
    assert t[1..] == Escape(f) + "\"" + after;
    ReadQuotedEscape(f, after);
  }

  lemma {:induction false} ReadRecordEncode(fields: seq<string>, rest: string)
    requires |fields| > 0
    ensures ReadRecord(EncodeRecord(fields) + rest) == Some((fields, rest))
    decreases |fields|
  {
    var t := EncodeRecord(fields) + rest;
    if |fields| == 1 {
      var after := "\n" + rest;
      assert t == Quote(fields[0]) + after;
      ReadQuotedAfterQuote(fields[0], after);
      assert after[1..] == rest;
      assert [fields[0]] == fields;
    } else {
      var tail := EncodeRecord(fields[1..]) + rest;
      var after := "," + tail;
      assert t == Quote(fields[0]) + after;
      ReadQuotedAfterQuote(fields[0], after);
      assert after[1..] == tail;
      ReadRecordEncode(fields[1..], rest);
      assert [fields[0]] + fields[1..] == fields;
    }
  }

  /** Reading back what EncodeRecords wrote gives the records that were written. */
  lemma {:induction false} ReadRecordsEncode(records: seq<seq<string>>)
    requires NonEmptyRecords(records)
    ensures ReadRecords(EncodeRecords(records)) == Some(records)
    decreases |records|
  {
    if records != [] {
      ReadRecordEncode(records[0], EncodeRecords(records[1..]));
      ReadRecordsEncode(records[1..]);
      var s := EncodeRecords(records);
      assert s != [] by {
        assert |ReadRecord(s).value.0| > 0;
      }
      assert [records[0]] + records[1..] == records;
    }
  }

  /** A field enclosed in double quotes with its text copied verbatim, inner quotes included. */
  function QuoteVerbatim(s: string): string {
    "\"" + s + "\""
  }

  function EncodeRecordVerbatim(fields: seq<string>): (line: string)
    requires |fields| > 0
    ensures |line| >= 3 && line[0] == '"' && line[|line| - 1] == '\n'
  {
    if |fields| == 1 then QuoteVerbatim(fields[0]) + "\n"
    else QuoteVerbatim(fields[0]) + "," + EncodeRecordVerbatim(fields[1..])
  }

  /** Without double quotes in the fields, verbatim quoting writes exactly what escaping does. */
  lemma {:induction false} VerbatimAgreesWhenQuoteFree(fields: seq<string>)
    requires |fields| > 0
    requires forall i :: 0 <= i < |fields| ==> QuoteFree(fields[i])
    ensures EncodeRecordVerbatim(fields) == EncodeRecord(fields)
    decreases |fields|
  {
    if |fields| > 1 {
      VerbatimAgreesWhenQuoteFree(fields[1..]);
    }
  }

  /** A quoted field and a comma in front of a text do not change whether it reads as a record. */
  lemma ReadRecordAfterComma(f: string, rest: string)
    ensures ReadRecord(Quote(f) + ("," + rest)).None? <==> ReadRecord(rest).None?
  {
    var after := "," + rest;
    var t := Quote(f) + after;
    ReadQuotedAfterQuote(f, after);
    assert after[1..] == rest;
    assert ReadQuoted(t[1..]) == Some((f, after));
  }

  /** A leading quote-free field does not change whether a verbatim record reads back. */
  lemma ReadVerbatimQuoteFreeHead(f: string, tail: seq<string>)
    requires QuoteFree(f) && |tail| > 0
    ensures ReadRecord(EncodeRecordVerbatim([f] + tail)).None? <==>
            ReadRecord(EncodeRecordVerbatim(tail)).None?
  {
    var fields := [f] + tail;
    var rest := EncodeRecordVerbatim(tail);
    assert fields[1..] == tail;
    assert EncodeRecordVerbatim(fields) == Quote(f) + ("," + rest);
    ReadRecordAfterComma(f, rest);
  }

  /** A field holding a single double quote, followed by a field that starts with a character
      other than a quote, comma or newline: the verbatim record cannot be read back. */
  lemma ReadVerbatimLoneQuoteFails(d: string)
    requires |d| > 0 && d[0] != '"' && d[0] != ',' && d[0] != '\n'
    ensures ReadRecord(EncodeRecordVerbatim(["\"", d])).None?
  {
    var fields := ["\"", d];
    assert fields[1..] == [d];
    var rest := d + "\"\n";
    var u := "\"" + rest;
    assert EncodeRecordVerbatim([d]) == u;
    var t := EncodeRecordVerbatim(fields);
    ReadQuotedClose(rest);
    ReadQuotedPlain(',', u);
    ReadQuotedDoubled("," + u);
    assert t[1..] == "\"\"" + ("," + u);
    assert ReadQuoted(t[1..]).value.1 == rest;
  }
}
