/** The rows of the merger: the blank-row filter applied to each parsed file and
    the padding of every kept row with empty cells for missing columns. */
module Rows {
  import opened Text
  import opened Headers

  /** One parsed CSV record: column name to cell text, i.e. the own properties
      of the object the CSV parser builds for the record. */
  type Row = map<string, string>

  /** The keep test of the filter: some cell value of the row is not blank.
      HasContentTrim shows this is the test "some value is non-empty once
      trimmed". */
  predicate HasContent(row: Row)
    ensures HasContent(row) ==> row != map[]
  {
    exists v | v in row.Values :: !IsBlank(v)
  }

  /** The keep test as the merger spells it: some value is non-empty after
      `trim()`. */
  lemma HasContentTrim(row: Row)
    ensures HasContent(row) <==> exists v | v in row.Values :: Trim(v) != []
  {
    if HasContent(row) {
      var v :| v in row.Values && !IsBlank(v);
      assert Trim(v) != [];
    }
  }

  /** A row passes the keep test exactly when one of its cells is not blank;
      so a row of blank cells, or with no cells at all, fails it. */
  lemma HasContentIff(row: Row)
    ensures HasContent(row) <==> exists k :: k in row && !IsBlank(row[k])
  {
    if exists k :: k in row && !IsBlank(row[k]) {
      var k :| k in row && !IsBlank(row[k]);
      assert row[k] in row.Values;
    }
  }

  /** The filter over one file's rows: only rows that pass the keep test, in
      their original order (KeepNonBlankAppend), each row that passes as often
      as it occurs in the input (KeepNonBlankCount). */
  function KeepNonBlank(rows: seq<Row>): (kept: seq<Row>)
    ensures |kept| <= |rows|
  {
    if rows == [] then []
    else (if HasContent(rows[0]) then [rows[0]] else []) + KeepNonBlank(rows[1..])
  }

  /** A row that passes the keep test is kept exactly as often as it occurs; a
      row that fails it is not kept at all. */
  lemma {:induction false} KeepNonBlankCount(rows: seq<Row>, x: Row)
    ensures multiset(KeepNonBlank(rows))[x] == if HasContent(x) then multiset(rows)[x] else 0
    decreases |rows|
  {
    if rows != [] {
      assert rows == [rows[0]] + rows[1..];
      KeepNonBlankCount(rows[1..], x);
    }
  }

  /** A row is among the kept rows exactly when it is one of the input rows and
      passes the keep test. */
  lemma KeepNonBlankMembers(rows: seq<Row>, x: Row)
    ensures x in KeepNonBlank(rows) <==> x in rows && HasContent(x)
  {
    KeepNonBlankCount(rows, x);
    assert x in KeepNonBlank(rows) <==> x in multiset(KeepNonBlank(rows));
    assert x in rows <==> x in multiset(rows);
  }

  /** Every kept row passes the keep test. */
  lemma KeepNonBlankHasContent(rows: seq<Row>)
    ensures forall x :: x in KeepNonBlank(rows) ==> HasContent(x)
  {
    forall x | x in KeepNonBlank(rows) ensures HasContent(x) {
      KeepNonBlankMembers(rows, x);
    }
  }

  /** The filter is applied row by row, so it keeps relative order: filtering a
      concatenation is concatenating the filtered parts. */
  lemma {:induction false} KeepNonBlankAppend(a: seq<Row>, b: seq<Row>)
    ensures KeepNonBlank(a + b) == KeepNonBlank(a) + KeepNonBlank(b)
    decreases |a|
  {
    if a == [] {
      assert a + b == b;
    } else {
      var head := if HasContent(a[0]) then [a[0]] else [];
      calc {
        KeepNonBlank(a + b);
        { assert (a + b)[0] == a[0] && (a + b)[1..] == a[1..] + b; }
        head + KeepNonBlank(a[1..] + b);
        { KeepNonBlankAppend(a[1..], b); }
        head + (KeepNonBlank(a[1..]) + KeepNonBlank(b));
        (head + KeepNonBlank(a[1..])) + KeepNonBlank(b);
        KeepNonBlank(a) + KeepNonBlank(b);
      }
    }
  }

  /** A row after padding: its own cells unchanged, plus an empty cell for each
      header it has no cell for. */
  function Padded(row: Row, headers: seq<string>): (r: Row)
    ensures r.Keys == row.Keys + Names(headers)
    ensures forall k :: k in row ==> r[k] == row[k]
    ensures forall k :: k in r && k !in row ==> r[k] == ""
  {
    map k | k in row.Keys + Names(headers) :: if k in row then row[k] else ""
  }

  /** One step of the padding loop: padding with one more header adds an empty
      cell for it unless the row already has that column. */
  lemma PaddedSnoc(row: Row, headers: seq<string>, header: string)
    ensures Padded(row, headers + [header])
         == (var p := Padded(row, headers); if header in p then p else p[header := ""])
  {
    assert Names(headers + [header]) == Names(headers) + {header};
  }

  /** The padding of one row: a clone of the row, then an empty cell for each
      header, in header order, that the row has no cell for. */
  method PadRow(row: Row, headers: seq<string>) returns (newRow: Row)
    ensures newRow == Padded(row, headers)
    ensures newRow.Keys == row.Keys + Names(headers)
    ensures forall k :: k in row ==> newRow[k] == row[k]
    ensures forall k :: k in newRow && k !in row ==> newRow[k] == ""
  {
    newRow := row;
    assert Padded(row, headers[..0]) == row;
    for i := 0 to |headers|
      invariant newRow == Padded(row, headers[..i])
    {
      var header := headers[i];
      PaddedSnoc(row, headers[..i], header);
      assert headers[..i + 1] == headers[..i] + [header];
      if header !in newRow {
        newRow := newRow[header := ""];
      }
    }
    assert headers[..|headers|] == headers;
  }

  /** Padding a row that already has a cell for every header changes nothing. */
  lemma PaddedNoop(row: Row, headers: seq<string>)
    requires Names(headers) <= row.Keys
    ensures Padded(row, headers) == row
  {
  }

  /** Padding is idempotent: padding a padded row with the same headers again
      changes no cell. */
  lemma PaddedIdempotent(row: Row, headers: seq<string>)
    ensures Padded(Padded(row, headers), headers) == Padded(row, headers)
  {
    PaddedNoop(Padded(row, headers), headers);
  }

  /** Padding only adds empty cells, so it neither creates nor removes a
      non-blank cell. */
  lemma PaddedKeepsContent(row: Row, headers: seq<string>)
    ensures HasContent(Padded(row, headers)) <==> HasContent(row)
  {
    var p := Padded(row, headers);
    HasContentIff(p);
    HasContentIff(row);
    if HasContent(p) {
      var k :| k in p && !IsBlank(p[k]);
      assert k in row;
    }
    if HasContent(row) {
      var k :| k in row && !IsBlank(row[k]);
      assert p[k] == row[k];
    }
  }

  /** A row whose columns are all headers has, after padding, exactly the
      headers as its columns. */
  lemma PaddedExactKeys(row: Row, headers: seq<string>)
    requires row.Keys <= Names(headers)
    ensures Padded(row, headers).Keys == Names(headers)
  {
  }

  /** The property names every plain JavaScript object inherits from
      Object.prototype; the `in` operator reports them for any row object. */
  const InheritedNames: set<string> :=
    {"constructor", "hasOwnProperty", "isPrototypeOf", "propertyIsEnumerable",
     "toLocaleString", "toString", "valueOf", "__proto__",
     "__defineGetter__", "__defineSetter__", "__lookupGetter__", "__lookupSetter__"}

  /** `key in rowObject`: an own cell or an inherited property. */
  predicate InOperator(row: Row, key: string) {
    key in row || key in InheritedNames
  }

  /** The padding loop as the merger writes it, header by header, with the
      presence test done by the `in` operator. */
  function PadAsWritten(row: Row, headers: seq<string>): (r: Row)
    ensures row.Keys <= r.Keys && forall k :: k in row ==> r[k] == row[k]
    ensures r.Keys == row.Keys + (Names(headers) - InheritedNames)
    ensures forall k :: k in r && k !in row ==> r[k] == ""
    decreases |headers|
  {
    if headers == [] then row
    else
      var header := headers[0];
      assert Names(headers) == {header} + Names(headers[1..]);
      PadAsWritten(if InOperator(row, header) then row else row[header := ""], headers[1..])
  }

  /** The discrepancy: a header named like an inherited property is never added
      to a row that lacks it, whereas the intended padding adds it. For
      instance the header "constructor" from one file and a row {"x": "1"}
      from another. */
  lemma {:induction false} InheritedHeaderNotPadded(row: Row, headers: seq<string>, h: string)
    requires h in InheritedNames && h !in row
    ensures h !in PadAsWritten(row, headers)
    ensures h in headers ==> h in Padded(row, headers)
    decreases |headers|
  {
    if headers != [] {
      var header := headers[0];
      InheritedHeaderNotPadded(if InOperator(row, header) then row else row[header := ""], headers[1..], h);
    }
  }

  /** Padding with one header first and the rest after is padding with all. */
  lemma PaddedCons(row: Row, header: string, rest: seq<string>)
    ensures Padded(if header in row then row else row[header := ""], rest)
         == Padded(row, [header] + rest)
  {
    assert Names([header] + rest) == {header} + Names(rest);
  }

  /** Where no header names an inherited property, the padding as written and
      the intended padding agree. */
  lemma {:induction false} PadAsWrittenAgrees(row: Row, headers: seq<string>)
    requires forall i :: 0 <= i < |headers| ==> headers[i] !in InheritedNames
    ensures PadAsWritten(row, headers) == Padded(row, headers)
    decreases |headers|
  {
    if headers == [] {
      assert Padded(row, headers) == row;
    } else {
      var header := headers[0];
      var next := if header in row then row else row[header := ""];
      PadAsWrittenAgrees(next, headers[1..]);
      PaddedCons(row, header, headers[1..]);
      assert [header] + headers[1..] == headers;
    }
  }
}
