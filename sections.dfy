/**
 * A decoded report section: the header record and the data rows that
 * followed it, as stored by the Section class of the decoder.
 */
module Sections {

  datatype Section = Section(header: seq<string>, rows: seq<seq<string>>)

  function Min(a: nat, b: nat): nat {
    if a <= b then a else b
  }

  /** No position after `j` and before `n` repeats the label at `j`. */
  ghost predicate LastLabelBefore(header: seq<string>, j: nat, n: nat)
    requires j < n <= |header|
  {
    forall j' :: j < j' < n ==> header[j'] != header[j]
  }

  /**
   * `d` is what inserting the pairs (header[j], row[j]) for j < n, left to
   * right, gives: a label is a key exactly when it occurs before n, and it
   * maps to the cell under its last occurrence before n.
   */
  ghost predicate ZipsTo(d: map<string, string>, header: seq<string>, row: seq<string>, n: nat)
    requires n <= |header| && n <= |row|
  {
    d.Keys == (set j | 0 <= j < n :: header[j])
    && (forall j :: 0 <= j < n && LastLabelBefore(header, j, n) ==> d[header[j]] == row[j])
  }

  /** Inserting the pair at position n extends a zip of the first n pairs. */
  lemma InsertPair(d: map<string, string>, header: seq<string>, row: seq<string>, n: nat)
    requires n < |header| && n < |row|
    requires ZipsTo(d, header, row, n)
    ensures ZipsTo(d[header[n] := row[n]], header, row, n + 1)
  {
    var d' := d[header[n] := row[n]];
    forall j | 0 <= j < n + 1 && LastLabelBefore(header, j, n + 1)
      ensures header[j] in d' && d'[header[j]] == row[j]
    {
      if j < n {
        assert LastLabelBefore(header, j, n);
      }
    }
  }

  /** The pairs of the first n positions, inserted left to right. */
  function ZipPrefix(header: seq<string>, row: seq<string>, n: nat): (d: map<string, string>)
    requires n <= |header| && n <= |row|
    ensures ZipsTo(d, header, row, n)
  {
    if n == 0 then
      assert ZipsTo(map[], header, row, 0);
      map[]
    else
      var d' := ZipPrefix(header, row, n - 1);
      InsertPair(d', header, row, n - 1);
      d'[header[n - 1] := row[n - 1]]
  }

  /**
   * dict(zip(header, row)): the pairs are taken up to the shorter of the two
   * sequences and inserted left to right. A label is a key exactly when it
   * occurs at a paired position, and it maps to the cell under its last
   * paired occurrence.
   */
  function ZipDict(header: seq<string>, row: seq<string>): (d: map<string, string>)
    ensures d.Keys == set j | 0 <= j < Min(|header|, |row|) :: header[j]
    ensures forall j :: 0 <= j < Min(|header|, |row|) && LastLabelBefore(header, j, Min(|header|, |row|)) ==>
              d[header[j]] == row[j]
  {
    ZipPrefix(header, row, Min(|header|, |row|))
  }

  /**
   * Section.rows(): one dictionary per stored row, in the stored order, each
   * the truncating zip of the header with that row.
   */
  function RowMaps(s: Section): (r: seq<map<string, string>>)
    ensures |r| == |s.rows|
    ensures forall i :: 0 <= i < |r| ==>
              r[i].Keys == set j | 0 <= j < Min(|s.header|, |s.rows[i]|) :: s.header[j]
    ensures forall i, j ::
              (0 <= i < |r| && 0 <= j < Min(|s.header|, |s.rows[i]|)
               && LastLabelBefore(s.header, j, Min(|s.header|, |s.rows[i]|))) ==>
              r[i][s.header[j]] == s.rows[i][j]
  {
    seq(|s.rows|, i requires 0 <= i < |s.rows| => ZipDict(s.header, s.rows[i]))
  }

  /** A row shorter than the header leaves the trailing labels out. */
  lemma ShortRowExample()
    ensures ZipDict(["A", "B", "C"], ["1", "2"]) == map["A" := "1", "B" := "2"]
  {
    var header: seq<string> := ["A", "B", "C"];
    var d := ZipDict(header, ["1", "2"]);
    assert header[0] == "A" && header[1] == "B";
    assert LastLabelBefore(header, 0, 2);
  }

  /** With a repeated label, the later cell wins. */
  lemma RepeatedLabelExample()
    ensures ZipDict(["A", "A"], ["1", "2", "3"]) == map["A" := "2"]
  {
    var header: seq<string> := ["A", "A"];
    var d := ZipDict(header, ["1", "2", "3"]);
    assert header[1] == "A";
    assert LastLabelBefore(header, 1, 2);
  }
}
