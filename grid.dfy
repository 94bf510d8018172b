/**
 * extract_grid_cells of collect.py: the header texts of a grid and, for each body
 * row, the dict that pairs header names with that row's cells by position.
 */
module Grid {
  import opened Wrappers
  import Text

  /** A td element: its raw text content and the href of the first link inside it, if any. */
  datatype Cell = Cell(text: string, link: Option<string>)

  /** What a rendered grid shows: the raw texts of its header cells and each body row's cells. */
  datatype Table = Table(headerTexts: seq<string>, rows: seq<seq<Cell>>)

  function Min(a: nat, b: nat): nat {
    if a <= b then a else b
  }

  /** The dict after the first n rounds of `for header, cell in zip(headers, cells): d[header] = cell`. */
  function ZipPrefix(headers: seq<string>, cells: seq<Cell>, n: nat): map<string, Cell>
    requires n <= |headers| && n <= |cells|
  {
    if n == 0 then map[] else ZipPrefix(headers, cells, n - 1)[headers[n - 1] := cells[n - 1]]
  }

  /** The dict of one row: zip stops at the shorter of the two lists. */
  function RowMap(headers: seq<string>, cells: seq<Cell>): map<string, Cell> {
    ZipPrefix(headers, cells, Min(|headers|, |cells|))
  }

  /** extract_grid_cells: the header texts, and one positional dict per body row, in row order. */
  method ExtractGridCells(table: Table) returns (headers: seq<string>, rows: seq<map<string, Cell>>)
    ensures headers == Text.Texts(table.headerTexts)
    ensures |rows| == |table.rows|
    ensures forall i :: 0 <= i < |rows| ==> rows[i] == RowMap(headers, table.rows[i])
  {
    headers := Text.Texts(table.headerTexts);
    rows := ZipRows(headers, table.rows);
  }

  /** The row loop of extract_grid_cells: one dict per row, built by zipping headers with cells. */
  method ZipRows(headers: seq<string>, bodyRows: seq<seq<Cell>>) returns (rows: seq<map<string, Cell>>)
    ensures |rows| == |bodyRows|
    ensures forall i :: 0 <= i < |rows| ==> rows[i] == RowMap(headers, bodyRows[i])
  {
    rows := [];
    for i := 0 to |bodyRows|
      invariant |rows| == i
      invariant forall k :: 0 <= k < i ==> rows[k] == RowMap(headers, bodyRows[k])
    {
      var tds := bodyRows[i];
      var cells := map[];
      for j := 0 to Min(|headers|, |tds|)
        invariant cells == ZipPrefix(headers, tds, j)
      {
        cells := cells[headers[j] := tds[j]];
      }
      rows := rows + [cells];
    }
  }

  /** Every value of the dict after n rounds is one of the row's cells. */
  lemma {:induction false} ZipPrefixValues(headers: seq<string>, cells: seq<Cell>, n: nat)
    requires n <= |headers| && n <= |cells|
    ensures forall k :: k in ZipPrefix(headers, cells, n) ==> ZipPrefix(headers, cells, n)[k] in cells
  {
    if n > 0 {
      ZipPrefixValues(headers, cells, n - 1);
      assert cells[n - 1] in cells;
    }
  }

  /** The keys of a row's dict are exactly the header names zip reached. */
  lemma {:induction false} ZipPrefixKeys(headers: seq<string>, cells: seq<Cell>, n: nat)
    requires n <= |headers| && n <= |cells|
    ensures ZipPrefix(headers, cells, n).Keys == set i | 0 <= i < n :: headers[i]
  {
    if n > 0 {
      ZipPrefixKeys(headers, cells, n - 1);
      var before := set i | 0 <= i < n - 1 :: headers[i];
      assert (set i | 0 <= i < n :: headers[i]) == before + {headers[n - 1]};
    }
  }

  /** A header that does not occur again later (within reach) maps to its own cell. */
  lemma {:induction false} ZipPrefixLastWins(headers: seq<string>, cells: seq<Cell>, n: nat, i: nat)
    requires n <= |headers| && n <= |cells| && i < n
    requires forall j :: i < j < n ==> headers[j] != headers[i]
    ensures headers[i] in ZipPrefix(headers, cells, n)
    ensures ZipPrefix(headers, cells, n)[headers[i]] == cells[i]
  {
    if i < n - 1 {
      ZipPrefixLastWins(headers, cells, n - 1, i);
    }
  }

  /** Position i is the last one within zip's reach that carries its header name. */
  predicate IsLastBinding(headers: seq<string>, cells: seq<Cell>, i: nat)
    requires i < |headers|
  {
    forall j :: i < j < Min(|headers|, |cells|) ==> headers[j] != headers[i]
  }

  /**
   * The dict of a row binds exactly headers[0..m) with m = min(|headers|, |cells|);
   * surplus cells or headers are dropped, and for a repeated header the later cell wins.
   */
  lemma RowMapByPosition(headers: seq<string>, cells: seq<Cell>)
    ensures RowMap(headers, cells).Keys == set i | 0 <= i < Min(|headers|, |cells|) :: headers[i]
    ensures forall i :: 0 <= i < Min(|headers|, |cells|) && IsLastBinding(headers, cells, i) ==>
      RowMap(headers, cells)[headers[i]] == cells[i]
  {
    var m := Min(|headers|, |cells|);
    ZipPrefixKeys(headers, cells, m);
    forall i | 0 <= i < m && IsLastBinding(headers, cells, i)
      ensures RowMap(headers, cells)[headers[i]] == cells[i]
    {
      ZipPrefixLastWins(headers, cells, m, i);
    }
  }
}
