/** A two-file example: a first file with
    columns a and b, one full row and one row of empty cells, and a second
    file with columns b and c and one row. */
module Scenario {
  import opened Text
  import opened Headers
  import opened Rows
  import opened Merger

  /** The full rows pass the keep test and the row of empty cells fails it. */
  lemma ScenarioContent(r1: Row, r2: Row, r3: Row)
    requires r1 == map["a" := "1", "b" := "2"]
    requires r2 == map["a" := "", "b" := ""]
    requires r3 == map["b" := "3", "c" := "4"]
    ensures HasContent(r1) && !HasContent(r2) && HasContent(r3)
  {
    HasContentIff(r1);
    HasContentIff(r2);
    HasContentIff(r3);
    assert HasContent(r1) by {
      assert "a" in r1 && r1["a"] == "1" && !IsWhitespace("1"[0]);
    }
    assert HasContent(r3) by {
      assert "b" in r3 && r3["b"] == "3" && !IsWhitespace("3"[0]);
    }
    assert !HasContent(r2) by {
      assert r2.Keys == {"a", "b"} && r2["a"] == "" && r2["b"] == "";
    }
  }

  /** Two completions, in order, give the header names and the kept rows of
      the first followed by those of the second. */
  lemma CollectTwo(f1: ParseResult, f2: ParseResult)
    requires f1.Complete? && f2.Complete?
    ensures AllFields([f1, f2]) == FieldsOf(f1.fields) + FieldsOf(f2.fields)
    ensures AllKept([f1, f2]) == KeepNonBlank(f1.data) + KeepNonBlank(f2.data)
    ensures !AnyFailed([f1, f2])
  {
    assert [f1, f2][..1] == [f1] && [f1][..0] == [];
    assert AllFields([f1]) == FieldsOf(f1.fields);
    assert AllKept([f1]) == KeepNonBlank(f1.data);
  }

  /** The header lists a, b and b, c merge to a, b, c. */
  lemma ScenarioHeaders(a: string, b: string, c: string)
    requires a != b && b != c && a != c
    ensures Dedup([a, b, b, c]) == [a, b, c]
  {
    assert Dedup([a]) == [a] by { assert [a][..0] == []; }
    assert Dedup([a, b]) == [a, b] by { assert [a, b][..1] == [a]; }
    assert Dedup([a, b, b]) == [a, b] by { assert [a, b, b][..2] == [a, b]; }
    assert [a, b, b, c][..3] == [a, b, b];
  }

  /** The row of the first file gains an empty cell for c. */
  lemma ScenarioPadFirst(r1: Row, headers: seq<string>)
    requires r1 == map["a" := "1", "b" := "2"]
    requires headers == ["a", "b", "c"]
    ensures Padded(r1, headers) == map["a" := "1", "b" := "2", "c" := ""]
  {
    assert Names(headers) == {"a", "b", "c"};
  }

  /** The row of the second file gains an empty cell for a. */
  lemma ScenarioPadSecond(r3: Row, headers: seq<string>)
    requires r3 == map["b" := "3", "c" := "4"]
    requires headers == ["a", "b", "c"]
    ensures Padded(r3, headers) == map["a" := "", "b" := "3", "c" := "4"]
  {
    assert Names(headers) == {"a", "b", "c"};
  }

  /** The kept rows of the example: the full row of the first file, then the
      row of the second. */
  lemma ScenarioKept(file1: ParseResult, file2: ParseResult)
    requires file1 == Complete(Some(["a", "b"]), [map["a" := "1", "b" := "2"], map["a" := "", "b" := ""]])
    requires file2 == Complete(Some(["b", "c"]), [map["b" := "3", "c" := "4"]])
    ensures AllKept([file1, file2]) == [file1.data[0], file2.data[0]]
  {
    var r1, r2, r3 := file1.data[0], file1.data[1], file2.data[0];
    ScenarioContent(r1, r2, r3);
    assert file1.data == [r1, r2] && file2.data == [r3];
    assert [r1, r2][1..] == [r2] && [r2][1..] == [] && [r3][1..] == [];
    CollectTwo(file1, file2);
  }

  /** The header names of the example, in completion order. */
  lemma ScenarioFields(file1: ParseResult, file2: ParseResult)
    requires file1 == Complete(Some(["a", "b"]), [map["a" := "1", "b" := "2"], map["a" := "", "b" := ""]])
    requires file2 == Complete(Some(["b", "c"]), [map["b" := "3", "c" := "4"]])
    ensures AllFields([file1, file2]) == ["a", "b", "b", "c"]
  {
    CollectTwo(file1, file2);
    assert FieldsOf(file1.fields) == ["a", "b"] && FieldsOf(file2.fields) == ["b", "c"];
  }

  /** The merged table: the blank row is gone and the two kept rows carry all
      three columns, with empty cells where their file had no such column. */
  lemma TwoFileScenario(file1: ParseResult, file2: ParseResult)
    requires file1 == Complete(Some(["a", "b"]), [map["a" := "1", "b" := "2"], map["a" := "", "b" := ""]])
    requires file2 == Complete(Some(["b", "c"]), [map["b" := "3", "c" := "4"]])
    ensures Merge([file1, file2])
         == Some([map["a" := "1", "b" := "2", "c" := ""], map["a" := "", "b" := "3", "c" := "4"]])
  {
    var r1, r3 := file1.data[0], file2.data[0];
    var headers := ["a", "b", "c"];
    CollectTwo(file1, file2);
    ScenarioKept(file1, file2);
    ScenarioFields(file1, file2);
    ScenarioHeaders("a", "b", "c");
    ScenarioPadFirst(r1, headers);
    ScenarioPadSecond(r3, headers);
    PadTwo(r1, r3, headers);
  }

  /** Padding a two-row table pads each row. */
  lemma PadTwo(r1: Row, r3: Row, headers: seq<string>)
    ensures PadAll([r1, r3], headers) == [Padded(r1, headers), Padded(r3, headers)]
  {
  }

  /** With no file selected there is nothing to wait for: the merge succeeds
      with an empty table. */
  lemma EmptySelection()
    ensures Merge([]) == Some([])
  {
    assert AllKept([]) == [];
    assert |PadAll([], Dedup(AllFields([])))| == 0;
  }
}
