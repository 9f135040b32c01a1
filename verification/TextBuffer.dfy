/** kern/console.cc, VGABuffer: a screen of 25 rows of 80 characters that wraps and scrolls lazily, when the
    next character needs the room. */
module TextBuffer {

  const WIDTH: nat := 80
  const HEIGHT: nat := 25

  // ----- the rows that an output makes

  type Rows = r: seq<seq<char>> | |r| > 0 witness [[]]

  function Last(rows: Rows): seq<char> {
    rows[|rows| - 1]
  }

  function Wrapped(rows: Rows): Rows {
    if |Last(rows)| >= WIDTH then rows + [[]] else rows
  }

  function Put(rows: Rows, ch: char): Rows {
    var r := Wrapped(rows);
    if ch == '\n' then r + [[]] else r[|r| - 1 := Last(r) + [ch]]
  }

  function Layout(output: string): Rows {
    if output == [] then [[]] else Put(Layout(output[..|output| - 1]), output[|output| - 1])
  }

  /** The text that rows stand for: a row that is not full ended with a newline. */
  function Text(rows: Rows): string {
    if |rows| == 1 then rows[0]
    else Text(rows[..|rows| - 1]) + (if |rows[|rows| - 2]| < WIDTH then "\n" else "") + Last(rows)
  }

  lemma TextOfAppend(rows: Rows, row: seq<char>)
    ensures Text(rows + [row]) == Text(rows) + (if |Last(rows)| < WIDTH then "\n" else "") + row
  {
    assert (rows + [row])[..|rows|] == rows;
  }

  lemma TextOfExtend(rows: Rows, ch: char)
    ensures Text(rows[|rows| - 1 := Last(rows) + [ch]]) == Text(rows) + [ch]
  {
    var r := rows[|rows| - 1 := Last(rows) + [ch]];
    if |rows| > 1 {
      assert r[..|rows| - 1] == rows[..|rows| - 1];
    }
  }

  lemma TextOfPut(rows: Rows, ch: char)
    ensures Text(Put(rows, ch)) == Text(rows) + [ch]
  {
    hide Text;
    var r := Wrapped(rows);
    TextOfAppend(rows, []);
    assert Text(r) == Text(rows);
    if ch == '\n' {
      TextOfAppend(r, []);
    } else {
      TextOfExtend(r, ch);
    }
  }

  lemma TextOfNothing()
    ensures Text([[]]) == []
  {
  }

  /** Nothing is lost or moved to another place: the rows read back as the output, none wider than the screen. */
  lemma {:induction false} LayoutReadsBack(output: string)
    ensures Text(Layout(output)) == output
    ensures forall i :: 0 <= i < |Layout(output)| ==> |Layout(output)[i]| <= WIDTH
  {
    hide Text;
    if output == [] {
      TextOfNothing();
    } else {
      var before := output[..|output| - 1];
      LayoutReadsBack(before);
      TextOfPut(Layout(before), output[|output| - 1]);
      assert output == before + [output[|output| - 1]];
    }
  }

  lemma LayoutOfAppend(output: string, ch: char)
    ensures Layout(output + [ch]) == Put(Layout(output), ch)
  {
    assert (output + [ch])[..|output|] == output;
  }

  /** The first row still on the screen: the last 25 are, not counting a row just begun and still empty. */
  function Top(rows: Rows): nat {
    var shown := if Last(rows) == [] then HEIGHT + 1 else HEIGHT;
    if |rows| <= shown then 0 else |rows| - shown
  }

  function Cell(rows: Rows, i: nat, j: nat): char {
    if i < |rows| && j < |rows[i]| then rows[i][j] else '\0'
  }

  /** The screen always shows the last row with anything in it, nothing scrolls off while 25 rows suffice, and only
      what does not fit scrolls off. */
  lemma TopIs(rows: Rows)
    ensures Top(rows) <= |rows| - 1
    ensures Last(rows) != [] ==> (if |rows| <= 25 then Top(rows) == 0 else Top(rows) + 25 == |rows|)
    ensures Last(rows) == [] ==> (if |rows| <= 26 then Top(rows) == 0 else Top(rows) + 25 == |rows| - 1)
  {
  }

  /** Scrolling happens exactly when the cursor's row, after any wrap, lies below the screen. */
  lemma TopOfPut(rows: Rows, ch: char)
    ensures |Wrapped(rows)| - 1 - Top(rows) <= HEIGHT
    ensures Top(Put(rows, ch)) == if |Wrapped(rows)| - 1 - Top(rows) == HEIGHT then Top(rows) + 1 else Top(rows)
  {
  }

  /** A wrap shows nothing new; a character shows in one cell; a newline in none. */
  lemma CellOfPut(rows: Rows, ch: char, i: nat, j: nat)
    ensures Cell(Wrapped(rows), i, j) == Cell(rows, i, j)
    ensures Cell(Put(rows, ch), i, j) ==
            if ch != '\n' && i == |Wrapped(rows)| - 1 && j == |Last(Wrapped(rows))| then ch else Cell(rows, i, j)
  {
  }

  class VGABuffer {
    var x: nat
    var y: nat
    const cells: array2<char>
    ghost var output: string

    ghost predicate Shows(rows: Rows, top: nat)
      reads this, cells
    {
      && cells.Length0 == HEIGHT && cells.Length1 == WIDTH
      && (forall i, j :: 0 <= i < HEIGHT && 0 <= j < WIDTH ==> cells[i, j] == Cell(rows, top + i, j))
      && x == |Last(rows)| && y == |rows| - 1 - top
    }

    /** The screen shows the last rows of what has been written. */
    ghost predicate Valid()
      reads this, cells
    {
      Shows(Layout(output), Top(Layout(output)))
    }

    constructor ()
      ensures Valid() && output == [] && fresh(cells)
    {
      x, y, output := 0, 0, [];
      cells := new char[HEIGHT, WIDTH]((i, j) => '\0');
    }

    method Scroll()
      requires cells.Length0 == HEIGHT && cells.Length1 == WIDTH
      modifies cells
      ensures forall i, j :: 0 <= i < HEIGHT && 0 <= j < WIDTH ==>
                cells[i, j] == if i == HEIGHT - 1 then '\0' else old(cells[i + 1, j])
    {
      for i := 0 to HEIGHT - 1
        invariant forall p, q :: 0 <= p < i && 0 <= q < WIDTH ==> cells[p, q] == old(cells[p + 1, q])
        invariant forall p, q :: i <= p < HEIGHT && 0 <= q < WIDTH ==> cells[p, q] == old(cells[p, q])
      {
        for j := 0 to WIDTH
          invariant forall p, q :: 0 <= p < i && 0 <= q < WIDTH ==> cells[p, q] == old(cells[p + 1, q])
          invariant forall q :: 0 <= q < j ==> cells[i, q] == old(cells[i + 1, q])
          invariant forall p, q :: i < p < HEIGHT && 0 <= q < WIDTH ==> cells[p, q] == old(cells[p, q])
        {
          cells[i, j] := cells[i + 1, j];
        }
      }
      var bottom := HEIGHT - 1;
      for j := 0 to WIDTH
        invariant forall p, q :: 0 <= p < bottom && 0 <= q < WIDTH ==> cells[p, q] == old(cells[p + 1, q])
        invariant forall q :: 0 <= q < j ==> cells[bottom, q] == '\0'
      {
        cells[bottom, j] := '\0';
      }
    }

    /** The wrap and the scroll that come before the character. */
    method MakeRoom(ghost rows: Rows) returns (ghost first: nat)
      requires Shows(rows, Top(rows)) && |Last(rows)| <= WIDTH && |Wrapped(rows)| - 1 - Top(rows) <= HEIGHT
      modifies `x, `y, cells
      ensures first == if |Wrapped(rows)| - 1 - Top(rows) == HEIGHT then Top(rows) + 1 else Top(rows)
      ensures Shows(Wrapped(rows), first) && y < HEIGHT
    {
      if x >= WIDTH {
        x := 0;
        y := y + 1;
      }
      forall i: nat, j: nat ensures Cell(Wrapped(rows), i, j) == Cell(rows, i, j) {
        CellOfPut(rows, '\n', i, j);
      }
      first := Top(rows);
      if y >= HEIGHT {
        Scroll();
        y := HEIGHT - 1;
        first := first + 1;
        assert Last(Wrapped(rows)) == [];
      }
    }

    method WriteByte(ch: char)
      requires Valid()
      modifies this, cells
      ensures Valid() && output == old(output) + [ch]
    {
      hide Layout, Cell;
      ghost var rows := Layout(output);
      LayoutReadsBack(output);
      TopOfPut(rows, ch);
      ghost var top := MakeRoom(rows);
      output := output + [ch];
      LayoutOfAppend(old(output), ch);
      forall i: nat, j: nat
        ensures Cell(Put(rows, ch), i, j) ==
                if ch != '\n' && i == |Wrapped(rows)| - 1 && j == |Last(Wrapped(rows))| then ch
                else Cell(Wrapped(rows), i, j)
      {
        CellOfPut(rows, ch, i, j);
      }
      if ch == '\n' {
        x := 0;
        y := y + 1;
        return;
      }
      cells[y, x] := ch;
      x := x + 1;
    }
  }
}
