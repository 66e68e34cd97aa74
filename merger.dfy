/** The merge step of the CSV merger: the per-file completion callback that
    collects header names and non-blank rows, the final padding of every row
    to the full header list, and the all-or-nothing update of the merged
    table. Files complete in some order; that order is the order of the
    sequence of parse results handed to the merge. */
module Merger {
  import opened Text
  import opened Headers
  import opened Rows

  datatype Option<T> = None | Some(value: T)

  /** What the CSV parser reports for one file: its completion, carrying the
      header names (absent when the parser reports none) and the records, or
      its error callback. */
  datatype ParseResult =
    | Complete(fields: Option<seq<string>>, data: seq<Row>)
    | Failed(error: string)

  /** The header names one completion contributes; none when absent. */
  function FieldsOf(fields: Option<seq<string>>): seq<string> {
    match fields
    case Some(names) => names
    case None => []
  }

  /** The header names every completed file reports, in completion order. */
  function AllFields(results: seq<ParseResult>): (r: seq<string>)
    ensures forall x :: x in r ==>
              exists i :: 0 <= i < |results| && results[i].Complete? && x in FieldsOf(results[i].fields)
  {
    if results == [] then []
    else
      var last := results[|results| - 1];
      AllFields(results[..|results| - 1]) + (if last.Complete? then FieldsOf(last.fields) else [])
  }

  /** The rows of every completed file that pass the blank-row filter, file
      after file in completion order. */
  function AllKept(results: seq<ParseResult>): (r: seq<Row>)
    ensures forall x :: x in r ==> HasContent(x)
  {
    if results == [] then []
    else
      var last := results[|results| - 1];
      KeepNonBlankHasContent(if last.Complete? then last.data else []);
      AllKept(results[..|results| - 1]) + (if last.Complete? then KeepNonBlank(last.data) else [])
  }

  predicate AnyFailed(results: seq<ParseResult>) {
    exists i :: 0 <= i < |results| && results[i].Failed?
  }

  /** Every row padded to the given headers, in the same order. */
  function PadAll(rows: seq<Row>, headers: seq<string>): (r: seq<Row>)
    ensures |r| == |rows|
    ensures forall i :: 0 <= i < |rows| ==> r[i].Keys == rows[i].Keys + Names(headers)
  {
    seq(|rows|, i requires 0 <= i < |rows| => Padded(rows[i], headers))
  }

  /** The table one merge produces: None when some file failed to parse,
      otherwise the kept rows padded to the union of all header names. */
  function Merge(results: seq<ParseResult>): (r: Option<seq<Row>>)
    ensures r.None? <==> AnyFailed(results)
    ensures r.Some? ==> |r.value| == |AllKept(results)|
  {
    if AnyFailed(results) then None
    else Some(PadAll(AllKept(results), Dedup(AllFields(results))))
  }

  /** One more completion extends the header names and the kept rows by that
      completion's part. */
  lemma CompletionStep(results: seq<ParseResult>, i: nat)
    requires i < |results|
    ensures AllFields(results[..i + 1])
         == AllFields(results[..i]) + (if results[i].Complete? then FieldsOf(results[i].fields) else [])
    ensures AllKept(results[..i + 1])
         == AllKept(results[..i]) + (if results[i].Complete? then KeepNonBlank(results[i].data) else [])
  {
    var prefix := results[..i + 1];
    assert prefix[..i] == results[..i];
    assert prefix[i] == results[i];
  }

  /** Some completion among the first i + 1 failed exactly when one among the
      first i did or the last one did. */
  lemma FailureStep(results: seq<ParseResult>, i: nat)
    requires i < |results|
    ensures AnyFailed(results[..i + 1]) <==> AnyFailed(results[..i]) || results[i].Failed?
  {
    var prefix := results[..i + 1];
    if AnyFailed(prefix) && !results[i].Failed? {
      var k :| 0 <= k < i + 1 && prefix[k].Failed?;
      assert results[..i][k] == prefix[k];
    }
    if AnyFailed(results[..i]) {
      var k :| 0 <= k < i && results[..i][k].Failed?;
      assert prefix[k] == results[..i][k];
    }
    if results[i].Failed? {
      assert prefix[i] == results[i];
    }
  }

  /** The state one merge shares between the completion callbacks of its
      files: the insertion-ordered set of header names and the growing list
      of kept rows. `seenFields` records every name added so far. */
  class MergeState {
    var columnHeaders: seq<string>
    var allData: seq<Row>
    ghost var seenFields: seq<string>

    ghost predicate Valid()
      reads this
    {
      columnHeaders == Dedup(seenFields)
    }

    constructor ()
      ensures Valid()
      ensures seenFields == [] && allData == []
    {
      columnHeaders := [];
      allData := [];
      seenFields := [];
    }

    /** `columnHeaders.add(header)`: appended unless already present. */
    method AddHeader(header: string)
      requires Valid()
      modifies this
      ensures Valid()
      ensures seenFields == old(seenFields) + [header]
      ensures allData == old(allData)
    {
      DedupSnoc(seenFields, header);
      if header !in columnHeaders {
        columnHeaders := columnHeaders + [header];
      }
      seenFields := seenFields + [header];
    }

    /** The completion callback of one file: add its header names, if it has
        any, to the set, then append its non-blank rows to the kept rows. */
    method OnComplete(fields: Option<seq<string>>, data: seq<Row>)
      requires Valid()
      modifies this
      ensures Valid()
      ensures seenFields == old(seenFields) + FieldsOf(fields)
      ensures allData == old(allData) + KeepNonBlank(data)
    {
      if fields.Some? {
        var headers := fields.value;
        for i := 0 to |headers|
          invariant Valid()
          invariant seenFields == old(seenFields) + headers[..i]
          invariant allData == old(allData)
        {
          AddHeader(headers[i]);
          assert headers[..i + 1] == headers[..i] + [headers[i]];
        }
        assert headers[..|headers|] == headers;
      }
      var filteredData := KeepNonBlank(data);
      allData := allData + filteredData;
    }

    /** Once every file has completed: each kept row, in order, cloned and
        padded with an empty cell for every header it lacks. */
    method Finish() returns (finalData: seq<Row>)
      ensures |finalData| == |allData|
      ensures forall i :: 0 <= i < |allData| ==> finalData[i] == Padded(allData[i], columnHeaders)
      ensures forall i :: 0 <= i < |allData| ==>
                finalData[i].Keys == allData[i].Keys + Names(columnHeaders)
    {
      finalData := [];
      var headersArray := columnHeaders;
      for i := 0 to |allData|
        invariant |finalData| == i
        invariant forall k :: 0 <= k < i ==> finalData[k] == Padded(allData[k], headersArray)
        invariant forall k :: 0 <= k < i ==>
                    finalData[k].Keys == allData[k].Keys + Names(headersArray)
      {
        var newRow := PadRow(allData[i], headersArray);
        finalData := finalData + [newRow];
      }
    }
  }

  /** The merger page's state: the merged table it shows and offers for
      download. */
  class CsvMerger {
    var mergedData: seq<Row>

    constructor ()
      ensures mergedData == []
    {
      mergedData := [];
    }

    /** One merge over the parse results of the selected files, in the order
        they complete. The table is replaced only when no file's error callback
        fired; a single error leaves the previous table in place. */
    method MergeCsvFiles(completions: seq<ParseResult>)
      modifies this
      ensures AnyFailed(completions) ==> mergedData == old(mergedData)
      ensures !AnyFailed(completions) ==> Merge(completions) == Some(mergedData)
    {
      var state := new MergeState();
      var failed := false;
      for i := 0 to |completions|
        invariant state.Valid()
        invariant state.seenFields == AllFields(completions[..i])
        invariant state.allData == AllKept(completions[..i])
        invariant failed <==> AnyFailed(completions[..i])
        invariant mergedData == old(mergedData)
      {
        CompletionStep(completions, i);
        FailureStep(completions, i);
        match completions[i]
        case Complete(fields, data) =>
          state.OnComplete(fields, data);
        case Failed(_) =>
          failed := true;
      }
      assert completions[..|completions|] == completions;
      if !failed {
        var finalData := state.Finish();
        assert finalData == PadAll(state.allData, state.columnHeaders);
        mergedData := finalData;
      }
    }
  }

  /** A header name is in the merged list exactly when some completed file
      reports it; a file without header names contributes none. */
  lemma {:induction false} AllFieldsMembers(results: seq<ParseResult>, x: string)
    ensures x in AllFields(results)
        <==> exists i :: 0 <= i < |results| && results[i].Complete? && x in FieldsOf(results[i].fields)
    decreases |results|
  {
    if results != [] {
      var n := |results| - 1;
      var init := results[..n];
      AllFieldsMembers(init, x);
      forall i | 0 <= i < n ensures init[i] == results[i] { }
    }
  }

  /** Some completed file among the results has row x. */
  predicate InSomeFile(results: seq<ParseResult>, x: Row) {
    exists i :: 0 <= i < |results| && results[i].Complete? && x in results[i].data
  }

  /** A row is in some file of a non-empty list of results exactly when it is
      in some file of all but the last, or in the last. */
  lemma InSomeFileStep(results: seq<ParseResult>, x: Row)
    requires results != []
    ensures InSomeFile(results, x)
        <==> InSomeFile(results[..|results| - 1], x)
             || (results[|results| - 1].Complete? && x in results[|results| - 1].data)
  {
    var n := |results| - 1;
    var init := results[..n];
    if InSomeFile(results, x) {
      var i :| 0 <= i < |results| && results[i].Complete? && x in results[i].data;
      if i < n {
        assert init[i] == results[i];
      }
    }
    if InSomeFile(init, x) {
      var i :| 0 <= i < n && init[i].Complete? && x in init[i].data;
      assert results[i] == init[i];
    }
  }

  /** A row is among the kept rows exactly when some completed file has it and
      it passes the blank-row filter. */
  lemma {:induction false} AllKeptMembers(results: seq<ParseResult>, x: Row)
    ensures x in AllKept(results) <==> InSomeFile(results, x) && HasContent(x)
    decreases |results|
  {
    if results != [] {
      var n := |results| - 1;
      var init := results[..n];
      var last := if results[n].Complete? then KeepNonBlank(results[n].data) else [];
      AllKeptMembers(init, x);
      InSomeFileStep(results, x);
      assert AllKept(results) == AllKept(init) + last;
      if results[n].Complete? {
        KeepNonBlankMembers(results[n].data, x);
      }
    }
  }

  /** Kept rows follow completion order: the rows of earlier completions come
      before those of later ones. */
  lemma {:induction false} AllKeptAppend(a: seq<ParseResult>, b: seq<ParseResult>)
    ensures AllKept(a + b) == AllKept(a) + AllKept(b)
    decreases |b|
  {
    if b == [] {
      assert a + b == a;
    } else {
      var n := |b| - 1;
      var last := if b[n].Complete? then KeepNonBlank(b[n].data) else [];
      calc {
        AllKept(a + b);
        { assert (a + b)[..|a + b| - 1] == a + b[..n] && (a + b)[|a + b| - 1] == b[n]; }
        AllKept(a + b[..n]) + last;
        { AllKeptAppend(a, b[..n]); }
        (AllKept(a) + AllKept(b[..n])) + last;
        AllKept(a) + (AllKept(b[..n]) + last);
        AllKept(a) + AllKept(b);
      }
    }
  }

  /** No row of a merged table is blank. */
  lemma MergedRowsHaveContent(results: seq<ParseResult>, table: seq<Row>)
    requires Merge(results) == Some(table)
    ensures forall i :: 0 <= i < |table| ==> HasContent(table[i])
  {
    var kept := AllKept(results);
    var headers := Dedup(AllFields(results));
    forall i | 0 <= i < |table| ensures HasContent(table[i]) {
      AllKeptMembers(results, kept[i]);
      PaddedKeepsContent(kept[i], headers);
    }
  }

  /** Every row a parsed file reports has cells only for that file's header
      names. */
  predicate WellKeyed(results: seq<ParseResult>) {
    forall i, r :: 0 <= i < |results| && results[i].Complete? && r in results[i].data
      ==> r.Keys <= Names(FieldsOf(results[i].fields))
  }

  /** When every file's rows keep to that file's header names, every row of
      the merged table has exactly the merged header names as its columns. */
  lemma MergedRowsExactKeys(results: seq<ParseResult>, table: seq<Row>)
    requires WellKeyed(results)
    requires Merge(results) == Some(table)
    ensures forall i :: 0 <= i < |table| ==> table[i].Keys == Names(Dedup(AllFields(results)))
  {
    var kept := AllKept(results);
    var headers := Dedup(AllFields(results));
    forall i | 0 <= i < |table| ensures table[i].Keys == Names(headers) {
      AllKeptMembers(results, kept[i]);
      assert InSomeFile(results, kept[i]);
      var j :| 0 <= j < |results| && results[j].Complete? && kept[i] in results[j].data;
      forall x | x in kept[i].Keys ensures x in Names(headers) {
        AllFieldsMembers(results, x);
      }
      PaddedExactKeys(kept[i], headers);
    }
  }

  /** Padding a merged table again with the merged header names changes
      nothing. */
  lemma MergeIdempotent(results: seq<ParseResult>, table: seq<Row>)
    requires Merge(results) == Some(table)
    ensures PadAll(table, Dedup(AllFields(results))) == table
  {
    var kept := AllKept(results);
    var headers := Dedup(AllFields(results));
    forall i | 0 <= i < |table| ensures Padded(table[i], headers) == table[i] {
      PaddedIdempotent(kept[i], headers);
    }
  }
}
