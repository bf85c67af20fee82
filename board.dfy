/** The board of the game: its cells, the eight winning lines, and the
    search for a winner that both components run after every board change. */
module Board {

  /** The mark a player writes into a cell: 'X' or 'O'. */
  datatype Mark = X | O

  /** A value that may be absent; `None` plays the part of `null`. */
  datatype Option<T> = None | Some(value: T)

  /** A cell is empty (`null`) or holds a mark. */
  type Cell = Option<Mark>

  /** A cell position on the nine-cell board; the component only ever passes these. */
  type Index = i: int | 0 <= i < 9

  /** A line is three cell positions, row-major, 0 being the top-left cell. */
  datatype Line = Line(a: nat, b: nat, c: nat)

  /** The eight winning lines in the order the search visits them:
      the three rows, the three columns, then the two diagonals. */
  const Lines: seq<Line> := [
    Line(0, 1, 2), Line(3, 4, 5), Line(6, 7, 8),
    Line(0, 3, 6), Line(1, 4, 7), Line(2, 5, 8),
    Line(0, 4, 8), Line(2, 4, 6)
  ]

  /** The nine empty cells a game starts from. */
  function EmptyBoard(): (s: seq<Cell>)
    ensures |s| == 9
    ensures forall i :: 0 <= i < |s| ==> s[i] == None
  {
    seq(9, _ => None)
  }

  /** The mark of the player whose turn it is. */
  function Turn(xNext: bool): Mark
  {
    if xNext then X else O
  }

  /** All three cells of `l` hold the same mark. A position past the end of
      the board reads as absent, so it never completes a line. */
  predicate Complete(s: seq<Cell>, l: Line)
  {
    l.a < |s| && s[l.a].Some? &&
    l.b < |s| && s[l.b] == s[l.a] &&
    l.c < |s| && s[l.c] == s[l.a]
  }

  /** Line number `k` is the first line of `Lines` that is complete. */
  ghost predicate FirstComplete(s: seq<Cell>, k: int)
  {
    0 <= k < |Lines| && Complete(s, Lines[k]) &&
    forall j :: 0 <= j < k ==> !Complete(s, Lines[j])
  }

  /** The winner as found by looking at lines `k`, `k + 1`, ... in order. */
  function WinnerFrom(s: seq<Cell>, k: nat): Option<Mark>
    decreases |Lines| - k
  {
    if k >= |Lines| then None
    else if Complete(s, Lines[k]) then s[Lines[k].a]
    else WinnerFrom(s, k + 1)
  }

  /** The winner of board `s`: the mark of its first complete line, if any. */
  function Winner(s: seq<Cell>): Option<Mark>
  {
    WinnerFrom(s, 0)
  }

  /** The components' `calculateWinner`, loop for loop: visit the lines in order
      and return the mark of the first complete one, or `None`. */
  method CalculateWinner(squares: seq<Cell>) returns (w: Option<Mark>)
    ensures w == Winner(squares)
    ensures w == None <==> forall k :: 0 <= k < |Lines| ==> !Complete(squares, Lines[k])
    ensures w != None ==> exists k :: FirstComplete(squares, k) && w == squares[Lines[k].a]
  {
    var i := 0;
    while i < |Lines|
      invariant 0 <= i <= |Lines|
      invariant forall j :: 0 <= j < i ==> !Complete(squares, Lines[j])
      invariant WinnerFrom(squares, i) == Winner(squares)
    {
      var line := Lines[i];
      if Complete(squares, line) {
        assert FirstComplete(squares, i);
        return squares[line.a];
      }
      i := i + 1;
    }
    return None;
  }

  /** Searching from line `k` on finds nothing exactly when none of those
      lines is complete, and otherwise finds the mark of the first one. */
  lemma {:induction false} WinnerFromMeaning(s: seq<Cell>, k: nat)
    requires k <= |Lines|
    ensures WinnerFrom(s, k) == None <==> forall j :: k <= j < |Lines| ==> !Complete(s, Lines[j])
    ensures forall j :: k <= j < |Lines| && Complete(s, Lines[j]) &&
                        (forall i :: k <= i < j ==> !Complete(s, Lines[i])) ==>
                        WinnerFrom(s, k) == s[Lines[j].a]
    ensures WinnerFrom(s, k) != None ==>
              exists j :: k <= j < |Lines| && Complete(s, Lines[j]) &&
                          (forall i :: k <= i < j ==> !Complete(s, Lines[i])) &&
                          WinnerFrom(s, k) == s[Lines[j].a]
    decreases |Lines| - k
  {
    if k < |Lines| {
      WinnerFromMeaning(s, k + 1);
      if !Complete(s, Lines[k]) && WinnerFrom(s, k) != None {
        var j :| k + 1 <= j < |Lines| && Complete(s, Lines[j]) &&
                 (forall i :: k + 1 <= i < j ==> !Complete(s, Lines[i])) &&
                 WinnerFrom(s, k + 1) == s[Lines[j].a];
        assert forall i :: k <= i < j ==> !Complete(s, Lines[i]);
      }
    }
  }

  /** `Winner` returns the mark of the first complete line in the listed
      order, and `None` exactly when no line is complete. */
  lemma WinnerIsFirstCompleteLine(s: seq<Cell>)
    ensures Winner(s) == None <==> forall k :: 0 <= k < |Lines| ==> !Complete(s, Lines[k])
    ensures forall k :: FirstComplete(s, k) ==> Winner(s) == s[Lines[k].a]
    ensures Winner(s) != None ==> exists k :: FirstComplete(s, k) && Winner(s) == s[Lines[k].a]
  {
    WinnerFromMeaning(s, 0);
  }

  /** Number of cells of `s` that hold mark `m`. */
  function Count(s: seq<Cell>, m: Mark): nat
  {
    if s == [] then 0
    else (if s[0] == Some(m) then 1 else 0) + Count(s[1..], m)
  }

  /** Writing `m` into an empty cell adds one `m` and leaves the number of
      every other mark as it was. */
  lemma {:induction false} CountWrite(s: seq<Cell>, i: nat, m: Mark)
    requires i < |s| && s[i] == None
    ensures Count(s[i := Some(m)], m) == Count(s, m) + 1
    ensures forall o :: o != m ==> Count(s[i := Some(m)], o) == Count(s, o)
  {
    if i == 0 {
      assert s[i := Some(m)][1..] == s[1..];
    } else {
      assert s[i := Some(m)][1..] == s[1..][i - 1 := Some(m)];
      CountWrite(s[1..], i - 1, m);
    }
  }

  /** A board without marks holds no mark of either player. */
  lemma {:induction false} CountNone(s: seq<Cell>, m: Mark)
    requires forall i :: 0 <= i < |s| ==> s[i] == None
    ensures Count(s, m) == 0
  {
    if s != [] {
      CountNone(s[1..], m);
    }
  }

  /** The empty board has no winner and no marks. */
  lemma EmptyBoardHasNoWinner()
    ensures Winner(EmptyBoard()) == None
    ensures Count(EmptyBoard(), X) == 0 && Count(EmptyBoard(), O) == 0
  {
    WinnerIsFirstCompleteLine(EmptyBoard());
    CountNone(EmptyBoard(), X);
    CountNone(EmptyBoard(), O);
  }
}
