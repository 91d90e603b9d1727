/**
 * The table body `fillTable` builds (app.js:101-109), kept as rows of cells with an
 * id and a text, and the cell update `$("#" + id).html(msg)` of `handleClick`
 * (app.js:138), which writes into the first element carrying that id.
 */
module Table {
  import opened CellIds
  import opened Board

  /** A `<td>`: its `id` attribute and its content. */
  datatype Cell = Cell(id: string, text: string)

  predicate HasId(row: seq<Cell>, id: string) {
    exists k | 0 <= k < |row| :: row[k].id == id
  }

  /** `k` is the position of the first cell of `row` with that id. */
  predicate FirstWithId(row: seq<Cell>, id: string, k: int) {
    0 <= k < |row| && row[k].id == id && forall j | 0 <= j < k :: row[j].id != id
  }

  /** `q` is the first row holding a cell with that id. */
  predicate FirstRowWithId(rows: seq<seq<Cell>>, id: string, q: int) {
    0 <= q < |rows| && HasId(rows[q], id) && forall j | 0 <= j < q :: !HasId(rows[j], id)
  }

  /** The row with the text of its first cell with that id replaced; no such cell, no change. */
  function SetTextInRow(row: seq<Cell>, id: string, text: string): (r: seq<Cell>)
    ensures !HasId(row, id) ==> r == row
    ensures forall k | FirstWithId(row, id, k) :: r == row[k := Cell(id, text)]
    decreases |row|
  {
    if row == [] then []
    else if row[0].id == id then [Cell(id, text)] + row[1..]
    else
      var rest := SetTextInRow(row[1..], id, text);
      assert forall k | FirstWithId(row, id, k) :: FirstWithId(row[1..], id, k - 1);
      assert !HasId(row, id) ==> !HasId(row[1..], id) by {
        if HasId(row[1..], id) {
          var k :| 0 <= k < |row[1..]| && row[1..][k].id == id;
          assert row[k + 1].id == id;
        }
      }
      [row[0]] + rest
  }

  /** The rows with the text of the first cell carrying that id replaced, searching the
      rows in document order; when no cell has the id, nothing changes. */
  function SetText(rows: seq<seq<Cell>>, id: string, text: string): (r: seq<seq<Cell>>)
    ensures (forall q | 0 <= q < |rows| :: !HasId(rows[q], id)) ==> r == rows
    ensures forall q | FirstRowWithId(rows, id, q) :: r == rows[q := SetTextInRow(rows[q], id, text)]
    decreases |rows|
  {
    if rows == [] then []
    else if HasId(rows[0], id) then [SetTextInRow(rows[0], id, text)] + rows[1..]
    else
      var rest := SetText(rows[1..], id, text);
      PrependUntouchedRow(rows, id, text, rest);
      [rows[0]] + rest
  }

  /** Putting back in front a first row without the id keeps the first matching row the
      one that is updated. */
  lemma PrependUntouchedRow(rows: seq<seq<Cell>>, id: string, text: string, rest: seq<seq<Cell>>)
    requires rows != [] && !HasId(rows[0], id)
    requires forall q | FirstRowWithId(rows[1..], id, q) :: rest == rows[1..][q := SetTextInRow(rows[1..][q], id, text)]
    ensures forall q | FirstRowWithId(rows, id, q) :: [rows[0]] + rest == rows[q := SetTextInRow(rows[q], id, text)]
  {
    forall q | FirstRowWithId(rows, id, q) ensures [rows[0]] + rest == rows[q := SetTextInRow(rows[q], id, text)] {
      assert FirstRowWithId(rows[1..], id, q - 1);
      assert rows[1..][q - 1] == rows[q];
      assert [rows[0]] + rows[1..][q - 1 := rows[q]] == rows;
    }
  }

  /** The grid `fillTable` lays out: `NUM_CLUES_PER_CAT` rows of `NUM_CATEGORIES` cells,
      the cell in row `q`, column `c` carrying the id of category `c`, clue `q`. */
  ghost predicate LaidOut(body: seq<seq<Cell>>) {
    && |body| == NUM_CLUES_PER_CAT
    && forall q | 0 <= q < |body| ::
         |body[q]| == NUM_CATEGORIES && forall c | 0 <= c < |body[q]| :: body[q][c].id == CellId(c, q)
  }

  /** No two cells of the laid-out grid share an id. */
  lemma GridIdsDistinct(body: seq<seq<Cell>>)
    requires LaidOut(body)
    ensures forall q1, c1, q2, c2 |
      0 <= q1 < |body| && 0 <= c1 < |body[q1]| && 0 <= q2 < |body| && 0 <= c2 < |body[q2]| &&
      (q1 != q2 || c1 != c2) :: body[q1][c1].id != body[q2][c2].id
  {
    forall q1, c1, q2, c2 |
      0 <= q1 < |body| && 0 <= c1 < |body[q1]| && 0 <= q2 < |body| && 0 <= c2 < |body[q2]| &&
      (q1 != q2 || c1 != c2)
      ensures body[q1][c1].id != body[q2][c2].id
    {
      CellIdInjective(c1, q1, c2, q2);
    }
  }

  /** On the laid-out grid, writing to the id of cell `(c, q)` changes exactly the cell in
      row `q`, column `c`, and writing to the id of a cell outside the grid changes nothing. */
  lemma SetTextOnGrid(body: seq<seq<Cell>>, c: nat, q: nat, text: string)
    requires LaidOut(body)
    ensures c < NUM_CATEGORIES && q < NUM_CLUES_PER_CAT ==>
      SetText(body, CellId(c, q), text) == body[q := body[q][c := Cell(CellId(c, q), text)]]
    ensures !(c < NUM_CATEGORIES && q < NUM_CLUES_PER_CAT) ==> SetText(body, CellId(c, q), text) == body
  {
    var id := CellId(c, q);
    forall j, k | 0 <= j < |body| && 0 <= k < |body[j]| ensures body[j][k].id == id <==> j == q && k == c {
      CellIdInjective(k, j, c, q);
    }
    if c < NUM_CATEGORIES && q < NUM_CLUES_PER_CAT {
      assert FirstWithId(body[q], id, c);
      assert FirstRowWithId(body, id, q);
    }
  }
}
