/**
 * Commit lists shared by both trackers: a committed cell pairs a pool row with a candidate,
 * and a list of them is exclusive when no row and no candidate occurs twice.
 */
module Pairing {
  import opened Results
  import opened Faces

  /** A matrix cell: its value and the pool row and candidate it pairs. */
  datatype Cell = Cell(dist: real, row: nat, cand: nat)

  function RowSet(cells: seq<Cell>): set<nat> {
    set c | c in cells :: c.row
  }

  function CandSet(cells: seq<Cell>): set<nat> {
    set c | c in cells :: c.cand
  }

  /** No pool row and no candidate is committed twice. */
  ghost predicate Exclusive(cells: seq<Cell>) {
    forall i, j :: 0 <= i < j < |cells| ==> cells[i].row != cells[j].row && cells[i].cand != cells[j].cand
  }

  /** The committed cell of pool row r, if any. */
  function RowCell(cells: seq<Cell>, r: nat): (c: Option<Cell>)
    ensures c.None? <==> forall k :: 0 <= k < |cells| ==> cells[k].row != r
    ensures c.Some? ==> c.value in cells && c.value.row == r
  {
    if |cells| == 0 then None
    else if cells[0].row == r then Some(cells[0])
    else RowCell(cells[1..], r)
  }

  /** The committed cell of candidate j, if any. */
  function CandCell(cells: seq<Cell>, j: nat): (c: Option<Cell>)
    ensures c.None? <==> forall k :: 0 <= k < |cells| ==> cells[k].cand != j
    ensures c.Some? ==> c.value in cells && c.value.cand == j
  {
    if |cells| == 0 then None
    else if cells[0].cand == j then Some(cells[0])
    else CandCell(cells[1..], j)
  }

  /** A candidate outside the commit list has no cell; in an exclusive list each cell is its candidate's. */
  lemma CandCells(cells: seq<Cell>)
    ensures forall j :: j !in CandSet(cells) ==> CandCell(cells, j).None?
    ensures Exclusive(cells) ==> forall c :: c in cells ==> CandCell(cells, c.cand) == Some(c)
  {
    forall j | CandCell(cells, j).Some? ensures j in CandSet(cells) {
      assert CandCell(cells, j).value in cells;
    }
    if Exclusive(cells) {
      forall c | c in cells ensures CandCell(cells, c.cand) == Some(c) {
        var k :| 0 <= k < |cells| && cells[k] == c;
        ExclusiveCells(cells, k);
      }
    }
  }

  /** A row outside the commit list has no cell; in an exclusive list each cell is its row's. */
  lemma RowCells(cells: seq<Cell>)
    ensures forall r :: r !in RowSet(cells) ==> RowCell(cells, r).None?
    ensures Exclusive(cells) ==> forall c :: c in cells ==> RowCell(cells, c.row) == Some(c)
  {
    forall r | RowCell(cells, r).Some? ensures r in RowSet(cells) {
      assert RowCell(cells, r).value in cells;
    }
    if Exclusive(cells) {
      forall c | c in cells ensures RowCell(cells, c.row) == Some(c) {
        var k :| 0 <= k < |cells| && cells[k] == c;
        ExclusiveCells(cells, k);
      }
    }
  }

  /**
   * The faces with every committed candidate's face labelled with the id of the pool row it
   * was paired with; `ids` lists the pool's ids by row. Only ids change, a face whose
   * candidate was not committed keeps its own, and under an exclusive commit list each
   * committed candidate's face carries exactly its row's id.
   */
  function Label(faces: seq<Face>, ids: seq<int>, ms: seq<Cell>): (faces': seq<Face>)
    requires forall c :: c in ms ==> c.row < |ids|
    ensures |faces'| == |faces| && OnlyIdsChanged(faces, faces')
    ensures forall j :: 0 <= j < |faces| && j !in CandSet(ms) ==> faces'[j] == faces[j]
    ensures forall j :: 0 <= j < |faces| && CandCell(ms, j).Some? ==>
      faces'[j].id == ids[CandCell(ms, j).value.row]
    ensures Exclusive(ms) ==> forall c :: c in ms && c.cand < |faces| ==> faces'[c.cand].id == ids[c.row]
  {
    CandCells(ms);
    seq(|faces|, j requires 0 <= j < |faces| =>
      match CandCell(ms, j)
      case None => faces[j]
      case Some(c) => faces[j].(id := ids[c.row]))
  }

  /** In an exclusive commit list a row or a candidate identifies its cell. */
  lemma ExclusiveCells(cells: seq<Cell>, k: nat)
    requires Exclusive(cells) && k < |cells|
    ensures RowCell(cells, cells[k].row) == Some(cells[k])
    ensures CandCell(cells, cells[k].cand) == Some(cells[k])
  {
    var a := RowCell(cells, cells[k].row).value;
    var i :| 0 <= i < |cells| && cells[i] == a;
    var b := CandCell(cells, cells[k].cand).value;
    var i' :| 0 <= i' < |cells| && cells[i'] == b;
  }

  lemma CandCellSet(ms: seq<Cell>, j: nat)
    ensures CandCell(ms, j).Some? <==> j in CandSet(ms)
  {
    if CandCell(ms, j).Some? {
      assert CandCell(ms, j).value in ms;
    }
  }

  lemma SetsAppend(cells: seq<Cell>, c: Cell)
    ensures RowSet(cells + [c]) == RowSet(cells) + {c.row}
    ensures CandSet(cells + [c]) == CandSet(cells) + {c.cand}
  {
    assert forall x :: x in cells + [c] <==> x in cells || x == c;
  }

  /** Appending a cell whose row and candidate are both free keeps a commit list exclusive. */
  lemma ExclusiveAppend(cells: seq<Cell>, c: Cell)
    requires Exclusive(cells) && c.row !in RowSet(cells) && c.cand !in CandSet(cells)
    ensures Exclusive(cells + [c])
  {
    var cs := cells + [c];
    forall i, j | 0 <= i < j < |cs| ensures cs[i].row != cs[j].row && cs[i].cand != cs[j].cand {
      if j == |cells| {
        assert cs[i] == cells[i] && cells[i] in cells;
      } else {
        assert cs[i] == cells[i] && cs[j] == cells[j];
      }
    }
  }
}
