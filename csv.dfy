/**
 * The record encoding of Go's encoding/csv Writer with its default
 * settings (Comma ',', UseCRLF false), which follows the comma-separated
 * format of RFC 4180, section 2: fields joined by ',', each record ended
 * by a line feed, and a field quoted when it holds a delimiter, a quote or
 * a line break, or starts with white space.
 *
 * ParseRecords splits text that needs no quoting back into records; the
 * round-trip lemma shows it inverts the encoding for such records.
 */
module Csv {

  /** Characters that force quoting of a field or would split a record. */
  predicate CsvSpecial(c: char) { c == ',' || c == '"' || c == '\n' || c == '\r' }

  /** unicode.IsSpace: the white-space characters of Unicode's Latin-1 range and category Zs/Zl/Zp. */
  predicate IsSpace(c: char)
  {
    c == '\t' || c == '\n' || c == '\U{000B}' || c == '\U{000C}' || c == '\r' || c == ' ' ||
    c == '\U{0085}' || c == '\U{00A0}' || c == '\U{1680}' || ('\U{2000}' <= c <= '\U{200A}') ||
    c == '\U{2028}' || c == '\U{2029}' || c == '\U{202F}' || c == '\U{205F}' || c == '\U{3000}'
  }

  /** Writer.fieldNeedsQuotes with Comma == ','. */
  predicate FieldNeedsQuotes(f: string)
  {
    f != "" &&
    (f == "\\." || (exists i :: 0 <= i < |f| && CsvSpecial(f[i])) || IsSpace(f[0]))
  }

  /** The body of a quoted field: every '"' doubled, everything else verbatim. */
  function EscapeQuotes(f: string): string
  {
    if f == [] then []
    else (if f[0] == '"' then "\"\"" else [f[0]]) + EscapeQuotes(f[1..])
  }

  function EncodeField(f: string): string
  {
    if FieldNeedsQuotes(f) then "\"" + EscapeQuotes(f) + "\"" else f
  }

  function Join(parts: seq<string>, sep: char): string
  {
    if |parts| == 0 then []
    else if |parts| == 1 then parts[0]
    else parts[0] + [sep] + Join(parts[1..], sep)
  }

  /** What Writer.Write emits for one record. */
  function EncodeRecord(record: seq<string>): string
  {
    Join(seq(|record|, i requires 0 <= i < |record| => EncodeField(record[i])), ',') + "\n"
  }

  function EncodeRecords(records: seq<seq<string>>): string
  {
    if records == [] then [] else EncodeRecord(records[0]) + EncodeRecords(records[1..])
  }

  /** The index of the first c in s, or -1. */
  function IndexOf(s: string, c: char): (i: int)
    ensures -1 <= i < |s|
  {
    if s == [] then -1
    else if s[0] == c then 0
    else var j := IndexOf(s[1..], c); if j < 0 then -1 else j + 1
  }

  function Split(s: string, sep: char): seq<string>
    decreases |s|
  {
    var i := IndexOf(s, sep);
    if i < 0 then [s] else [s[..i]] + Split(s[i + 1..], sep)
  }

  /** Splits unquoted CSV text into records at line feeds and into fields at commas. */
  function ParseRecords(s: string): seq<seq<string>>
    decreases |s|
  {
    if s == [] then []
    else
      var i := IndexOf(s, '\n');
      if i < 0 then [Split(s, ',')] else [Split(s[..i], ',')] + ParseRecords(s[i + 1..])
  }

  /** A field the writer emits verbatim and that ParseRecords reads back unchanged. */
  predicate PlainField(f: string)
  {
    (forall i :: 0 <= i < |f| ==> !CsvSpecial(f[i])) && (f == "" || !IsSpace(f[0])) && f != "\\."
  }

  predicate PlainRecord(record: seq<string>)
  {
    |record| >= 1 && forall j :: 0 <= j < |record| ==> PlainField(record[j])
  }

  /** Writer.Write appends EncodeRecord(record) to everything written so far. */
  class Writer {
    var output: string

    constructor ()
      ensures output == []
    {
      output := [];
    }

    method Write(record: seq<string>)
      modifies this
      ensures output == old(output) + EncodeRecord(record)
    {
      output := output + EncodeRecord(record);
    }
  }

  // ---- properties ----

  /** Quoting is exactly what keeps a field's characters from being read as structure. */
  lemma {:induction false} PlainFieldVerbatim(f: string)
    requires PlainField(f)
    ensures EncodeField(f) == f
  {
  }

  lemma {:induction false} PlainRecordEncoding(record: seq<string>)
    requires PlainRecord(record)
    ensures EncodeRecord(record) == Join(record, ',') + "\n"
  {
    var enc := seq(|record|, i requires 0 <= i < |record| => EncodeField(record[i]));
    forall i | 0 <= i < |record| ensures enc[i] == record[i] {
      PlainFieldVerbatim(record[i]);
    }
    assert enc == record;
  }

  lemma {:induction false} IndexOfFirst(p: string, c: char, rest: string)
    requires c !in p
    ensures IndexOf(p + [c] + rest, c) == |p|
    decreases |p|
  {
    if p != [] {
      assert (p + [c] + rest)[1..] == p[1..] + [c] + rest;
      IndexOfFirst(p[1..], c, rest);
    }
  }

  lemma {:induction false} IndexOfAbsent(s: string, c: char)
    requires c !in s
    ensures IndexOf(s, c) == -1
    decreases |s|
  {
    if s != [] {
      IndexOfAbsent(s[1..], c);
    }
  }

  /** Split cuts at the first separator. */
  lemma {:induction false} SplitCons(p: string, sep: char, rest: string)
    requires sep !in p
    ensures Split(p + [sep] + rest, sep) == [p] + Split(rest, sep)
  {
    var s := p + [sep] + rest;
    IndexOfFirst(p, sep, rest);
    assert s[..|p|] == p && s[|p| + 1..] == rest;
  }

  /** Splitting parts joined by sep recovers the parts when none of them holds sep. */
  lemma {:induction false} SplitJoin(parts: seq<string>, sep: char)
    requires |parts| >= 1 && forall j :: 0 <= j < |parts| ==> sep !in parts[j]
    ensures Split(Join(parts, sep), sep) == parts
    decreases |parts|
  {
    if |parts| > 1 {
      assert sep !in parts[0];
      SplitCons(parts[0], sep, Join(parts[1..], sep));
      SplitJoin(parts[1..], sep);
      assert [parts[0]] + parts[1..] == parts;
    } else {
      IndexOfAbsent(parts[0], sep);
    }
  }

  /** ParseRecords cuts at the first line feed. */
  lemma {:induction false} ParseCons(line: string, rest: string)
    requires '\n' !in line
    ensures ParseRecords(line + ['\n'] + rest) == [Split(line, ',')] + ParseRecords(rest)
  {
    var s := line + ['\n'] + rest;
    IndexOfFirst(line, '\n', rest);
    assert s[..|line|] == line && s[|line| + 1..] == rest;
  }

  lemma {:induction false} JoinAvoids(parts: seq<string>, sep: char, c: char)
    requires c != sep && forall j :: 0 <= j < |parts| ==> c !in parts[j]
    ensures c !in Join(parts, sep)
    decreases |parts|
  {
    if |parts| > 1 { JoinAvoids(parts[1..], sep, c); }
  }

  /** Reading back the writer's output for plain records recovers the records. */
  lemma {:induction false} ParseEncodeRecords(records: seq<seq<string>>)
    requires forall k :: 0 <= k < |records| ==> PlainRecord(records[k])
    ensures ParseRecords(EncodeRecords(records)) == records
    decreases |records|
  {
    if records != [] {
      var r := records[0];
      PlainRecordEncoding(r);
      forall j | 0 <= j < |r| ensures ',' !in r[j] && '\n' !in r[j] {
        assert PlainField(r[j]);
      }
      JoinAvoids(r, ',', '\n');
      var rest := EncodeRecords(records[1..]);
      assert EncodeRecords(records) == Join(r, ',') + ['\n'] + rest;
      ParseCons(Join(r, ','), rest);
      SplitJoin(r, ',');
      ParseEncodeRecords(records[1..]);
      assert [records[0]] + records[1..] == records;
    }
  }

  /** Writing one more record appends its encoding to the text so far. */
  lemma {:induction false} EncodeRecordsSnoc(records: seq<seq<string>>, r: seq<string>)
    ensures EncodeRecords(records + [r]) == EncodeRecords(records) + EncodeRecord(r)
    decreases |records|
  {
    if records == [] {
      assert [] + [r] == [r];
    } else {
      assert (records + [r])[1..] == records[1..] + [r];
      EncodeRecordsSnoc(records[1..], r);
    }
  }
}
