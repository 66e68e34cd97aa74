/** The column-header union of the merger: an insertion-ordered JavaScript `Set`
    of strings, as a sequence without duplicates. */
module Headers {

  predicate NoDuplicates(s: seq<string>) {
    forall i, j :: 0 <= i < j < |s| ==> s[i] != s[j]
  }

  /** The names of a header list as an unordered set. */
  function Names(s: seq<string>): set<string> {
    set x | x in s
  }

  /** What an insertion-ordered set holds after `add` is called with the
      elements of s in order: the distinct elements of s, each at its first
      occurrence. */
  function Dedup(s: seq<string>): (r: seq<string>)
    ensures NoDuplicates(r)
    ensures forall x :: x in r <==> x in s
    ensures |r| <= |s|
  {
    if s == [] then []
    else
      var init, last := s[..|s| - 1], s[|s| - 1];
      assert s == init + [last];
      var d := Dedup(init);
      if last in d then d else d + [last]
  }

  /** Adding one more name to the set: appended unless already present. */
  lemma DedupSnoc(s: seq<string>, x: string)
    ensures Dedup(s + [x]) == if x in Dedup(s) then Dedup(s) else Dedup(s) + [x]
  {
    assert (s + [x])[..|s|] == s;
  }

  /** The position at which x first occurs in s. */
  function FirstIndex(s: seq<string>, x: string): (i: nat)
    requires x in s
    ensures i < |s| && s[i] == x
    ensures forall k :: 0 <= k < i ==> s[k] != x
  {
    if s[0] == x then 0 else 1 + FirstIndex(s[1..], x)
  }

  /** Appending to a list does not move the first occurrence of a name it
      already held. */
  lemma FirstIndexSnoc(s: seq<string>, y: string, x: string)
    requires x in s
    ensures FirstIndex(s + [y], x) == FirstIndex(s, x)
  {
    var a, b := FirstIndex(s + [y], x), FirstIndex(s, x);
    assert (s + [y])[b] == x;
    assert s[a] == (s + [y])[a];
  }

  /** The union keeps first-occurrence order: a name stands before another in
      Dedup(s) exactly when it first occurs before it in s. */
  lemma {:induction false} DedupFirstOccurrenceOrder(s: seq<string>, i: nat, j: nat)
    requires i < j < |Dedup(s)|
    ensures FirstIndex(s, Dedup(s)[i]) < FirstIndex(s, Dedup(s)[j])
    decreases |s|
  {
    var init, last := s[..|s| - 1], s[|s| - 1];
    assert s == init + [last];
    var d := Dedup(init);
    if last in d {
      DedupFirstOccurrenceOrder(init, i, j);
      FirstIndexSnoc(init, last, d[i]);
      FirstIndexSnoc(init, last, d[j]);
    } else {
      FirstIndexSnoc(init, last, d[i]);
      if j < |d| {
        DedupFirstOccurrenceOrder(init, i, j);
        FirstIndexSnoc(init, last, d[j]);
      } else {
        assert Dedup(s)[j] == last;
        assert last !in init;
        assert FirstIndex(s, last) == |s| - 1;
      }
    }
  }

  /** Both directions of first-occurrence order, for any two positions of the
      union. */
  lemma DedupOrderIff(s: seq<string>, i: nat, j: nat)
    requires i < |Dedup(s)| && j < |Dedup(s)|
    ensures i < j <==> FirstIndex(s, Dedup(s)[i]) < FirstIndex(s, Dedup(s)[j])
  {
    if i < j {
      DedupFirstOccurrenceOrder(s, i, j);
    } else if j < i {
      DedupFirstOccurrenceOrder(s, j, i);
    }
  }
}
