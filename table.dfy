/**
 * The column layout of `table_of_content`: one width per header, widened
 * by every longer cell in that column, and the padding that brings a cell
 * up to its column's width.  A string's length is its number of
 * characters.
 */
module Table {

  /** The width of column `i`: the longest of its header and of the cells the rows have in that column. */
  function ColumnWidth(header: string, rows: seq<seq<string>>, i: nat): int
    decreases |rows|
  {
    if rows == [] then |header|
    else
      var w := ColumnWidth(header, rows[..|rows| - 1], i);
      var last := rows[|rows| - 1];
      if i < |last| && w < |last[i]| then |last[i]| else w
  }

  /** The width is at least the header and every cell of the column, and equals one of them. */
  lemma {:induction false} ColumnWidthIsMax(header: string, rows: seq<seq<string>>, i: nat)
    ensures |header| <= ColumnWidth(header, rows, i)
    ensures forall r :: 0 <= r < |rows| && i < |rows[r]| ==> |rows[r][i]| <= ColumnWidth(header, rows, i)
    ensures ColumnWidth(header, rows, i) == |header|
         || exists r :: 0 <= r < |rows| && i < |rows[r]| && ColumnWidth(header, rows, i) == |rows[r][i]|
    decreases |rows|
  {
    if rows != [] {
      var init := rows[..|rows| - 1];
      ColumnWidthIsMax(header, init, i);
      assert forall r :: 0 <= r < |init| ==> init[r] == rows[r];
    }
  }

  /** A row of `rows` that fits under the headers. */
  predicate RowsFit(headers: seq<string>, rows: seq<seq<string>>)
  {
    forall r :: 0 <= r < |rows| ==> |rows[r]| <= |headers|
  }

  /**
   * The width computation at the top of `table_of_content`: `counts`
   * starts as the header lengths and each cell widens its column.  A row
   * with more cells than there are headers indexes past `counts`, which
   * traps (`ok` is false).
   */
  method ColumnWidths(headers: seq<string>, rows: seq<seq<string>>) returns (counts: seq<int>, ok: bool)
    ensures ok <==> RowsFit(headers, rows)
    ensures ok ==> |counts| == |headers|
    ensures ok ==> forall i :: 0 <= i < |headers| ==> counts[i] == ColumnWidth(headers[i], rows, i)
  {
    var widths := new int[|headers|](i requires 0 <= i < |headers| => |headers[i]|);
    var r := 0;
    while r < |rows|
      invariant 0 <= r <= |rows|
      invariant RowsFit(headers, rows[..r])
      invariant forall j :: 0 <= j < widths.Length ==> widths[j] == ColumnWidth(headers[j], rows[..r], j)
    {
      var row := rows[r];
      assert rows[..r + 1][..r] == rows[..r];
      var i := 0;
      while i < |row|
        invariant 0 <= i <= |row|
        invariant i <= widths.Length
        invariant forall j :: 0 <= j < i ==> widths[j] == ColumnWidth(headers[j], rows[..r + 1], j)
        invariant forall j :: i <= j < widths.Length ==> widths[j] == ColumnWidth(headers[j], rows[..r], j)
      {
        if i >= widths.Length {
          assert !RowsFit(headers, rows) by {
            assert |rows[r]| > |headers|;
          }
          return widths[..], false;
        }
        if widths[i] < |row[i]| {
          widths[i] := |row[i]|;
        }
        i := i + 1;
      }
      r := r + 1;
    }
    assert rows[..r] == rows;
    return widths[..], true;
  }

  /** `spacer` repeated `n` times. */
  function Repeat(spacer: string, n: nat): (s: string)
    ensures |s| == n * |spacer|
  {
    if n == 0 then "" else Repeat(spacer, n - 1) + spacer
  }

  /** The padding after `value` in a column of width `width`: one spacer per missing character, none when the value is as wide or wider. */
  function Pad(width: int, value: string, spacer: string): string
  {
    if width - |value| > 0 then Repeat(spacer, width - |value|) else ""
  }

  /** `spacing`: prints the spacer `counts[index] - value.count` times when that is positive. */
  method Spacing(counts: seq<int>, index: int, value: string, spacer: string) returns (out: string)
    requires 0 <= index < |counts|
    ensures out == Pad(counts[index], value, spacer)
  {
    out := "";
    var valueSpacer := counts[index] - |value|;
    if valueSpacer > 0 {
      var k := 1;
      while k <= valueSpacer
        invariant 1 <= k <= valueSpacer + 1
        invariant out == Repeat(spacer, k - 1)
      {
        out := out + spacer;
        k := k + 1;
      }
    }
  }

  /** With a one-character spacer, a value and its padding together are exactly as wide as the wider of the two. */
  lemma PadAligns(width: int, value: string, spacer: string)
    requires |spacer| == 1
    ensures |value + Pad(width, value, spacer)| == if width > |value| then width else |value|
  {
  }

  /**
   * Once the widths are computed, every header and every cell of a row
   * that fits, followed by its padding, is exactly as wide as its column:
   * the columns line up.  Row -1 stands for the header line.
   */
  lemma CellsAligned(headers: seq<string>, rows: seq<seq<string>>, r: int, i: nat)
    requires RowsFit(headers, rows)
    requires i < |headers|
    requires -1 <= r < |rows| && (r >= 0 ==> i < |rows[r]|)
    ensures var w := ColumnWidth(headers[i], rows, i);
      var cell := if r < 0 then headers[i] else rows[r][i];
      |cell + Pad(w, cell, " ")| == w
  {
    ColumnWidthIsMax(headers[i], rows, i);
  }
}
