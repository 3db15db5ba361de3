/**
 * `write_results_to_excel`: one header row, then one row per result in the dictionary's order,
 * holding the id, its numbers and empty cells padding the row to four.  The dictionary is a
 * sequence of (id, numbers) pairs in insertion order; the workbook is its list of rows.
 */
module ResultsSheet {
  const Header: seq<string> := ["ID", "Cell 1", "Cell 2", "Cell 3"]

  /** `[""] * n`: `n` empty cells, none when `n` is negative. */
  function Blanks(n: int): (r: seq<string>)
    ensures |r| == (if n < 0 then 0 else n)
    ensures forall k :: 0 <= k < |r| ==> r[k] == ""
  {
    if n <= 0 then [] else Blanks(n - 1) + [""]
  }

  /** The row of one result: `[id] + numbers + [""] * (3 - len(numbers))`. */
  function ResultRow(id: string, numbers: seq<string>): seq<string>
  {
    [id] + numbers + Blanks(3 - |numbers|)
  }

  /**
   * A row starts with the id and continues with the numbers in their order; with at most three
   * numbers it is padded with empty cells to exactly four, with more it is just id and numbers.
   */
  lemma ResultRowShape(id: string, numbers: seq<string>)
    ensures ResultRow(id, numbers)[0] == id
    ensures ResultRow(id, numbers)[1..1 + |numbers|] == numbers
    ensures |numbers| <= 3 ==> |ResultRow(id, numbers)| == 4
    ensures |numbers| <= 3 ==> forall k :: 1 + |numbers| <= k < 4 ==> ResultRow(id, numbers)[k] == ""
    ensures |numbers| > 3 ==> ResultRow(id, numbers) == [id] + numbers
  {
    var row := ResultRow(id, numbers);
    assert row[1..1 + |numbers|] == numbers;
    if |numbers| > 3 {
      assert Blanks(3 - |numbers|) == [];
    }
  }

  /** The rows written for the results, in order. */
  function ResultRows(results: seq<(string, seq<string>)>): (rows: seq<seq<string>>)
    ensures |rows| == |results|
  {
    seq(|results|, i requires 0 <= i < |results| => ResultRow(results[i].0, results[i].1))
  }

  /**
   * The appends of `write_results_to_excel`: the header first, then each result's row.  Saving
   * the workbook is left out.
   */
  method WriteResults(results: seq<(string, seq<string>)>) returns (rows: seq<seq<string>>)
    ensures |rows| == 1 + |results|
    ensures rows[0] == Header
    ensures rows[1..] == ResultRows(results)
  {
    rows := [Header];
    for i := 0 to |results|
      invariant |rows| == 1 + i && rows[0] == Header
      invariant forall k :: 0 <= k < i ==> rows[1 + k] == ResultRow(results[k].0, results[k].1)
    {
      var (idValue, numbers) := results[i];
      var row := [idValue] + numbers + Blanks(3 - |numbers|);
      rows := rows + [row];
    }
  }

  /** Row `i + 2` of the sheet (counting from 1) belongs to result `i`, and starts with its id. */
  lemma ResultRowAt(results: seq<(string, seq<string>)>, rows: seq<seq<string>>, i: nat)
    requires |rows| == 1 + |results| && rows[1..] == ResultRows(results)
    requires i < |results|
    ensures rows[i + 1] == ResultRow(results[i].0, results[i].1)
    ensures rows[i + 1][0] == results[i].0
    ensures |results[i].1| <= 3 ==> |rows[i + 1]| == 4
  {
    assert rows[i + 1] == rows[1..][i];
    ResultRowShape(results[i].0, results[i].1);
  }
}
