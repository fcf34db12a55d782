/** The second draft of the game, game.js. Here the board is abstract: a `Board`
    object holds one `Square` object per square, row after row, and each square
    keeps its own flags (`isOpen`, `isMine`, `isFlagged`, `isQuestioned`) and its
    count of neighbouring mines (`surroundings`), which `layMines` keeps up to date
    as it lays each mine. A square's neighbours are the squares around it, the
    square itself excluded. The top-level handlers `reveal` and `flag` work on the
    global game object; here they are methods of the class `Minesweeper`.

    The pure part below states what each handler does to the whole game as a
    function of a `State` value; the classes further down run the handlers on the
    square objects and are proved to agree with those functions. */
module Game {

  import Grid
  import Text
  import Sampling
  import Flood

  /** What `Square.open` answers: 'explode', 'blank', 'numbered', or `undefined`. */
  datatype Opening = Explode | Blank | Numbered | Nothing

  /** The fields of a `Square` besides its position. */
  datatype Sq = Sq(isOpen: bool, isMine: bool, isFlagged: bool, isQuestioned: bool, surroundings: int)

  /** A square as `new Square(row, col)` makes it. */
  const Unused := Sq(false, false, false, false, 0)

  /** The whole game: grid size, the squares row after row, and whether the board
      still answers clicks. */
  datatype State = State(height: nat, width: nat, squares: seq<Sq>, isPlaying: bool)

  predicate WellFormed(s: State)
  {
    |s.squares| == s.height * s.width
  }

  predicate OnBoard(s: State, k: int)
  {
    WellFormed(s) && 0 <= k < |s.squares|
  }

  /** Two states of the same game: same grid, and on every square the same mine
      and the same count. */
  predicate SameBoard(s: State, r: State)
  {
    r.height == s.height && r.width == s.width && |r.squares| == |s.squares|
    && forall k :: 0 <= k < |s.squares| ==>
         r.squares[k].isMine == s.squares[k].isMine && r.squares[k].surroundings == s.squares[k].surroundings
  }

  /** `Square.open`: what a left click on a square means. A square with either
      mark answers nothing; otherwise a mine explodes, a square with count 0
      is blank unless it is already open, and any other square is numbered. */
  function OpenOf(q: Sq): (r: Opening)
    ensures r == Explode <==> !q.isFlagged && !q.isQuestioned && q.isMine
    ensures r == Blank <==> !q.isFlagged && !q.isQuestioned && !q.isMine && q.surroundings == 0 && !q.isOpen
    ensures r == Numbered <==> !q.isFlagged && !q.isQuestioned && !q.isMine && q.surroundings != 0
  {
    if !q.isFlagged && !q.isQuestioned then
      if q.isMine then Explode
      else if q.surroundings == 0 then (if !q.isOpen then Blank else Nothing)
      else Numbered
    else Nothing
  }

  /** The squares around square `k`, in the order `getNeighbors` lists them. */
  function Nbrs(s: State, k: nat): (nbrs: seq<int>)
    requires OnBoard(s, k)
    ensures Grid.IndicesIn(nbrs, |s.squares|) && Grid.Increasing(nbrs) && |nbrs| <= 8
  {
    Grid.WidthPositive(k, s.height, s.width);
    Grid.NeighboursFacts(k, s.height, s.width, false);
    Grid.Neighbours(k, s.height, s.width, false)
  }

  /** The sum of the zero-one `marks` over the squares around square `k`. */
  function CountNear(k: nat, height: nat, width: nat, marks: seq<int>): (r: int)
    requires k < height * width && |marks| == height * width && Grid.ZeroOne(marks)
    ensures 0 <= r <= 8
  {
    Grid.WidthPositive(k, height, width);
    Grid.NeighboursFacts(k, height, width, false);
    Grid.SumBound(Grid.Neighbours(k, height, width, false), marks);
    Grid.Sum(Grid.Neighbours(k, height, width, false), marks)
  }

  /** One for each square holding a mine. */
  function MineMarks(squares: seq<Sq>): (marks: seq<int>)
    ensures |marks| == |squares| && Grid.ZeroOne(marks)
    ensures forall k :: 0 <= k < |squares| ==> (marks[k] == 1 <==> squares[k].isMine)
  {
    seq(|squares|, k requires 0 <= k < |squares| => if squares[k].isMine then 1 else 0)
  }

  /** One for each square with `isFlagged` set. */
  function FlagMarks(squares: seq<Sq>): (marks: seq<int>)
    ensures |marks| == |squares| && Grid.ZeroOne(marks)
    ensures forall k :: 0 <= k < |squares| ==> (marks[k] == 1 <==> squares[k].isFlagged)
  {
    seq(|squares|, k requires 0 <= k < |squares| => if squares[k].isFlagged then 1 else 0)
  }

  /** The number of mines around square `k`. */
  function MinesAround(s: State, k: nat): int
    requires OnBoard(s, k)
  {
    CountNear(k, s.height, s.width, MineMarks(s.squares))
  }

  /** `getFlags`: the number of squares around square `k` with `isFlagged` set. */
  function FlagCount(s: State, k: nat): int
    requires OnBoard(s, k)
  {
    CountNear(k, s.height, s.width, FlagMarks(s.squares))
  }

  /** Every square's count is the number of mines around it. */
  predicate Consistent(s: State)
  {
    WellFormed(s) && forall k {:trigger MinesAround(s, k)} :: 0 <= k < |s.squares| ==> s.squares[k].surroundings == MinesAround(s, k)
  }

  /** A game with the same mines and counts as a consistent one is consistent. */
  lemma SameBoardConsistent(s: State, r: State)
    requires Consistent(s) && SameBoard(s, r)
    ensures Consistent(r)
  {
    assert MineMarks(r.squares) == MineMarks(s.squares);
    forall k | 0 <= k < |r.squares|
      ensures r.squares[k].surroundings == MinesAround(r, k)
    {
      assert r.squares[k].surroundings == s.squares[k].surroundings == MinesAround(s, k);
    }
  }

  // ---------------------------------------------------------------------------
  // Laying the mines.

  /** A pair (`Math.floor(Math.random() * height)`, `Math.floor(Math.random() * width)`). */
  predicate Drawn(d: (int, int), height: nat, width: nat)
  {
    (if height > 0 then 0 <= d.0 < height else d.0 == 0)
    && (if width > 0 then 0 <= d.1 < width else d.1 == 0)
  }

  /** The board index of each drawn (row, col). */
  function DrawnIndices(draws: seq<(int, int)>, width: nat): (idx: seq<int>)
    ensures |idx| == |draws|
    ensures forall t :: 0 <= t < |draws| ==> idx[t] == Grid.Index(draws[t].0, draws[t].1, width)
  {
    seq(|draws|, t requires 0 <= t < |draws| => Grid.Index(draws[t].0, draws[t].1, width))
  }

  /** One on each square of `laid`, zero elsewhere. */
  function Marks(n: nat, laid: seq<int>): (marks: seq<int>)
    ensures |marks| == n && Grid.ZeroOne(marks)
    ensures forall k :: 0 <= k < n ==> (marks[k] == 1 <==> k in laid)
  {
    seq(n, k => if k in laid then 1 else 0)
  }

  /** The squares once mines lie on the squares of `laid`, each square counting
      the mines around it, and nothing opened or marked. */
  function Laid(height: nat, width: nat, laid: seq<int>): (squares: seq<Sq>)
    ensures |squares| == height * width
  {
    seq(height * width, k requires 0 <= k < height * width =>
      Sq(false, k in laid, false, false, CountNear(k, height, width, Marks(height * width, laid))))
  }

  /** Each count of a laid board is the number of mines around its square. */
  lemma LaidConsistent(height: nat, width: nat, laid: seq<int>, isPlaying: bool)
    ensures Consistent(State(height, width, Laid(height, width, laid), isPlaying))
  {
    var s := State(height, width, Laid(height, width, laid), isPlaying);
    assert MineMarks(s.squares) == Marks(height * width, laid);
  }

  /** Before any mine is laid every square is as its constructor made it. */
  lemma LaidNone(height: nat, width: nat)
    ensures Laid(height, width, []) == seq(height * width, _ => Unused)
  {
    var n := height * width;
    forall k | 0 <= k < n
      ensures Laid(height, width, [])[k] == Unused
    {
      Grid.WidthPositive(k, height, width);
      Grid.NeighboursFacts(k, height, width, false);
      Grid.SumZero(Grid.Neighbours(k, height, width, false), Marks(n, []));
    }
  }

  /** Every count raised by one on the squares of `ks`. */
  function Bumped(squares: seq<Sq>, ks: seq<int>): (r: seq<Sq>)
    ensures |r| == |squares|
    ensures forall k :: 0 <= k < |squares| ==>
              r[k] == squares[k].(surroundings := squares[k].surroundings + if k in ks then 1 else 0)
  {
    seq(|squares|, k requires 0 <= k < |squares| =>
      squares[k].(surroundings := squares[k].surroundings + if k in ks then 1 else 0))
  }

  /** Laying one more mine on square `x`: its square becomes a mine and the count
      of every square around it goes up by one, which is exactly the board laid
      with `x` added. */
  lemma LaidStep(height: nat, width: nat, laid: seq<int>, x: int)
    requires width > 0 && 0 <= x < height * width && x !in laid
    ensures var before := Laid(height, width, laid);
      Laid(height, width, laid + [x])
      == Bumped(before[x := before[x].(isMine := true)], Grid.Neighbours(x, height, width, false))
  {
    var n := height * width;
    var before := Laid(height, width, laid);
    var after := Laid(height, width, laid + [x]);
    var bumped := Bumped(before[x := before[x].(isMine := true)], Grid.Neighbours(x, height, width, false));
    forall k | 0 <= k < n
      ensures after[k] == bumped[k]
    {
      CountNearStep(k, height, width, laid, x);
    }
  }

  /** The count of square `k` goes up by one when the new mine `x` lies around it. */
  lemma CountNearStep(k: nat, height: nat, width: nat, laid: seq<int>, x: int)
    requires width > 0 && k < height * width && 0 <= x < height * width && x !in laid
    ensures var n := height * width;
      CountNear(k, height, width, Marks(n, laid + [x]))
      == CountNear(k, height, width, Marks(n, laid)) + if k in Grid.Neighbours(x, height, width, false) then 1 else 0
  {
    var n := height * width;
    var marks := Marks(n, laid);
    assert Marks(n, laid + [x]) == marks[x := marks[x] + 1];
    Grid.NeighboursFacts(k, height, width, false);
    Grid.SumBump(Grid.Neighbours(k, height, width, false), marks, x);
    Grid.WindowSymmetric(k, x, height, width, false);
  }

  /** With enough draws exactly `numMines` squares hold a mine. */
  lemma LaidMineCount(height: nat, width: nat, draws: seq<(int, int)>, numMines: nat)
    requires forall t :: 0 <= t < |draws| ==> Drawn(draws[t], height, width)
    requires height * width > 0 && Sampling.Enough(DrawnIndices(draws, width), numMines)
    ensures var chosen := Sampling.Chosen(DrawnIndices(draws, width), numMines);
      |set k | 0 <= k < height * width && Laid(height, width, chosen)[k].isMine| == numMines
  {
    var idx := DrawnIndices(draws, width);
    var chosen := Sampling.Chosen(idx, numMines);
    forall t | 0 <= t < |draws|
      ensures 0 <= idx[t] < height * width
    {
      Grid.IndexRoundTrip(draws[t].0, draws[t].1, height, width);
    }
    Sampling.ChosenSize(idx, numMines);
    assert (set k | 0 <= k < height * width && Laid(height, width, chosen)[k].isMine) == set x | x in chosen;
  }

  // ---------------------------------------------------------------------------
  // The handlers.

  /** Which squares the flood fill spreads from: those whose count is 0. */
  function Spreads(s: State): (spreads: seq<bool>)
    ensures |spreads| == |s.squares|
    ensures forall k :: 0 <= k < |s.squares| ==> (spreads[k] <==> s.squares[k].surroundings == 0)
  {
    seq(|s.squares|, k requires 0 <= k < |s.squares| => s.squares[k].surroundings == 0)
  }

  /** The squares `openBlanks(row, col)` dequeues, starting from square `start`. */
  ghost function Region(s: State, start: nat): set<int>
    requires OnBoard(s, start)
  {
    Grid.WidthPositive(start, s.height, s.width);
    Flood.Region(start, Spreads(s), s.height, s.width, false)
  }

  /** `explode`, as it is evidently meant to act on the game's state: the board
      stops answering clicks. */
  function Exploded(s: State): (r: State)
    ensures r.isPlaying == false
  {
    s.(isPlaying := false)
  }

  /** The square `k` with `isOpen` set. */
  function Opened(s: State, k: nat): (r: State)
    requires OnBoard(s, k)
  {
    s.(squares := s.squares[k := s.squares[k].(isOpen := true)])
  }

  /** What `reveal(false, false)` does to each square of `squares` while the game
      goes on, provided none of them holds a mine: a numbered square gets
      `isOpen` set; a blank, marked or open square keeps its fields. On a mine
      `reveal` would explode instead, which this function leaves out; the flood
      fill only uses it on its region, which holds no mine while every count is
      right (`RegionMineFree`). */
  function BlanksRevealed(s: State, squares: set<int>): (r: State)
    requires WellFormed(s)
    ensures WellFormed(r) && SameBoard(s, r) && r.isPlaying == s.isPlaying
    ensures forall k :: 0 <= k < |s.squares| ==>
              r.squares[k] == if s.isPlaying && k in squares && OpenOf(s.squares[k]) == Numbered
                              then s.squares[k].(isOpen := true) else s.squares[k]
  {
    if !s.isPlaying then s
    else
      s.(squares := seq(|s.squares|, k requires 0 <= k < |s.squares| =>
                          if k in squares && OpenOf(s.squares[k]) == Numbered
                          then s.squares[k].(isOpen := true) else s.squares[k]))
  }

  /** `openBlanks(row, col)`, from the square `start` that holds no mine: every
      square the search dequeues is revealed as `reveal(false, false)` does. */
  ghost function BlanksOpened(s: State, start: nat): State
    requires OnBoard(s, start)
  {
    BlanksRevealed(s, Region(s, start))
  }

  /** `reveal(doOpenBlanks, doOpenNumbered)` on square `k`, with `explode` acting
      as evidently meant. */
  ghost function Click(s: State, k: nat, doOpenBlanks: bool, doOpenNumbered: bool): (r: State)
    requires OnBoard(s, k)
    ensures WellFormed(r) && SameBoard(s, r)
    ensures !s.isPlaying ==> r == s
    ensures s.isPlaying && OpenOf(s.squares[k]) == Explode ==> !r.isPlaying
    decreases if doOpenNumbered then 2 else 0, 0, 0
  {
    if !s.isPlaying then s
    else match OpenOf(s.squares[k])
      case Blank => if doOpenBlanks then BlanksOpened(s, k) else s
      case Numbered =>
        if !s.squares[k].isOpen then Opened(s, k)
        else if doOpenNumbered then Chord(s, k)
        else s
      case Explode => Exploded(s)
      case Nothing => s
  }

  /** `openNumbered(row, col)`: when the flags around square `k` match its count,
      reveal each square around it that is neither open nor flagged. */
  ghost function Chord(s: State, k: nat): (r: State)
    requires OnBoard(s, k)
    ensures WellFormed(r) && SameBoard(s, r)
    decreases 1, 1, 0
  {
    if FlagCount(s, k) == s.squares[k].surroundings then ChordOver(s, Nbrs(s, k)) else s
  }

  /** The `forEach` of `openNumbered` over the squares `nbrs`, front to back:
      each one neither open nor flagged at its turn is revealed with
      `reveal(true, false)`. */
  ghost function ChordOver(s: State, nbrs: seq<int>): (r: State)
    requires WellFormed(s) && Grid.IndicesIn(nbrs, |s.squares|)
    ensures WellFormed(r) && SameBoard(s, r)
    decreases 1, 0, |nbrs|
  {
    if nbrs == [] then s
    else
      var s' := ChordOver(s, nbrs[..|nbrs| - 1]);
      var n := nbrs[|nbrs| - 1];
      if !s'.squares[n].isOpen && !s'.squares[n].isFlagged then Click(s', n, true, false) else s'
  }

  /** What one right click does to a square: a flag becomes a question mark, a
      question mark becomes a flag, and a square with neither gets a flag. */
  function NextMark(q: Sq): Sq
  {
    if q.isFlagged then q.(isFlagged := false, isQuestioned := true)
    else if q.isQuestioned then q.(isQuestioned := false, isFlagged := true)
    else q.(isFlagged := true)
  }

  /** `flag`, the right-click handler of square `k`. */
  function FlagAt(s: State, k: nat): (r: State)
    requires OnBoard(s, k)
  {
    if s.isPlaying then s.(squares := s.squares[k := NextMark(s.squares[k])]) else s
  }

  // ---------------------------------------------------------------------------
  // Properties of the pure model.

  /** The squares around a square are the squares of the grid at most one row
      and one column away, the square itself excluded, with no wrap-around
      across the grid's edges: at most eight, listed once each. */
  lemma NbrsFacts(s: State, k: nat)
    requires OnBoard(s, k)
    ensures k !in Nbrs(s, k) && |Nbrs(s, k)| <= 8 && Grid.Increasing(Nbrs(s, k))
    ensures forall x: nat :: x in Nbrs(s, k) <==>
              x < |s.squares| && x != k
              && Grid.Near(Grid.RowOf(x, s.width), Grid.ColOf(x, s.width), Grid.RowOf(k, s.width), Grid.ColOf(k, s.width))
  {
    Grid.WidthPositive(k, s.height, s.width);
    Grid.WindowCentre(k, s.height, s.width, false);
    Grid.WindowMembership(Grid.RowOf(k, s.width), Grid.ColOf(k, s.width), s.height, s.width, false);
    forall x: nat | x < |s.squares| && x != k
      ensures Grid.RowOf(x, s.width) != Grid.RowOf(k, s.width) || Grid.ColOf(x, s.width) != Grid.ColOf(k, s.width)
    {
      Grid.CoordsRoundTrip(x, s.height, s.width);
      Grid.CoordsRoundTrip(k, s.height, s.width);
    }
  }

  /** In a consistent game no square the flood fill from a square without a mine
      reaches holds one: it spreads only from squares with no mine around them. */
  lemma RegionMineFree(s: State, start: nat)
    requires OnBoard(s, start) && Consistent(s) && !s.squares[start].isMine
    ensures forall k :: k in Region(s, start) ==> 0 <= k < |s.squares| && !s.squares[k].isMine
  {
    Grid.WidthPositive(start, s.height, s.width);
    var safe := set k | 0 <= k < |s.squares| && !s.squares[k].isMine;
    forall k: nat | k in safe && Flood.SpreadsFrom(k, Spreads(s))
      ensures forall j :: j in Grid.Neighbours(k, s.height, s.width, false) ==> j in safe
    {
      assert s.squares[k].surroundings == MinesAround(s, k) == 0;
      Grid.NeighboursFacts(k, s.height, s.width, false);
      Grid.SumZero(Grid.Neighbours(k, s.height, s.width, false), MineMarks(s.squares));
    }
    Flood.RegionLeast(start, safe, Spreads(s), s.height, s.width, false);
  }

  /** A click never touches a mark and never closes an open square. */
  predicate Advances(s: State, r: State)
    requires WellFormed(s) && SameBoard(s, r)
  {
    forall k :: 0 <= k < |s.squares| ==>
      r.squares[k].isFlagged == s.squares[k].isFlagged
      && r.squares[k].isQuestioned == s.squares[k].isQuestioned
      && (s.squares[k].isOpen ==> r.squares[k].isOpen)
  }

  /** `reveal` leaves every mark as it was and every open square open, and keeps
      each count the number of mines around its square. */
  lemma {:induction false} ClickAdvances(s: State, k: nat, doOpenBlanks: bool, doOpenNumbered: bool)
    requires OnBoard(s, k)
    ensures Advances(s, Click(s, k, doOpenBlanks, doOpenNumbered))
    ensures Consistent(s) ==> Consistent(Click(s, k, doOpenBlanks, doOpenNumbered))
    decreases if doOpenNumbered then 2 else 0, 0, 0
  {
    var r := Click(s, k, doOpenBlanks, doOpenNumbered);
    if s.isPlaying && OpenOf(s.squares[k]) == Numbered && s.squares[k].isOpen && doOpenNumbered
       && FlagCount(s, k) == s.squares[k].surroundings {
      ChordAdvances(s, Nbrs(s, k));
    }
    if Consistent(s) {
      SameBoardConsistent(s, r);
    }
  }

  lemma {:induction false} ChordAdvances(s: State, nbrs: seq<int>)
    requires WellFormed(s) && Grid.IndicesIn(nbrs, |s.squares|)
    ensures Advances(s, ChordOver(s, nbrs))
    decreases 1, 0, |nbrs|
  {
    if nbrs != [] {
      var init := nbrs[..|nbrs| - 1];
      ChordAdvances(s, init);
      var s' := ChordOver(s, init);
      var n := nbrs[|nbrs| - 1];
      if !s'.squares[n].isOpen && !s'.squares[n].isFlagged {
        ClickAdvances(s', n, true, false);
      }
    }
  }

  /** The 'blank' case never sets `isOpen`: after a click, every square whose
      count is 0 is open exactly when it was open before. */
  lemma {:induction false} ClickLeavesBlanksClosed(s: State, k: nat, doOpenBlanks: bool, doOpenNumbered: bool)
    requires OnBoard(s, k)
    ensures forall j :: 0 <= j < |s.squares| && s.squares[j].surroundings == 0 ==>
              Click(s, k, doOpenBlanks, doOpenNumbered).squares[j].isOpen == s.squares[j].isOpen
    decreases if doOpenNumbered then 2 else 0, 0, 0
  {
    if s.isPlaying && OpenOf(s.squares[k]) == Numbered && s.squares[k].isOpen && doOpenNumbered
       && FlagCount(s, k) == s.squares[k].surroundings {
      ChordLeavesBlanksClosed(s, Nbrs(s, k));
    }
  }

  lemma {:induction false} ChordLeavesBlanksClosed(s: State, nbrs: seq<int>)
    requires WellFormed(s) && Grid.IndicesIn(nbrs, |s.squares|)
    ensures forall j :: 0 <= j < |s.squares| && s.squares[j].surroundings == 0 ==>
              ChordOver(s, nbrs).squares[j].isOpen == s.squares[j].isOpen
    decreases 1, 0, |nbrs|
  {
    if nbrs != [] {
      var init := nbrs[..|nbrs| - 1];
      ChordLeavesBlanksClosed(s, init);
      var s' := ChordOver(s, init);
      var n := nbrs[|nbrs| - 1];
      if !s'.squares[n].isOpen && !s'.squares[n].isFlagged {
        ClickLeavesBlanksClosed(s', n, true, false);
      }
    }
  }

  /** A chord never starts another chord: `reveal(_, false)` on an open numbered
      square changes nothing. */
  lemma NoNestedChord(s: State, k: nat, doOpenBlanks: bool)
    requires OnBoard(s, k) && OpenOf(s.squares[k]) == Numbered && s.squares[k].isOpen
    ensures Click(s, k, doOpenBlanks, false) == s
  {
  }

  /** Clicking a square whose count is 0 and that holds no mine opens every
      numbered square the flood fill reaches that carries no mark. */
  lemma BlankClickOpensRim(s: State, k: nat)
    requires OnBoard(s, k) && s.isPlaying && OpenOf(s.squares[k]) == Blank
    ensures forall j :: j in Region(s, k) && OpenOf(s.squares[j]) == Numbered ==>
              0 <= j < |s.squares| && Click(s, k, true, true).squares[j].isOpen
  {
  }

  /** Right clicks on a square with neither mark go flag, question mark, flag,
      question mark, ... and never back to neither; the other fields stay. */
  lemma FlagCycle(q: Sq)
    requires !q.isFlagged && !q.isQuestioned
    ensures NextMark(q) == q.(isFlagged := true)
    ensures NextMark(NextMark(q)) == q.(isQuestioned := true)
    ensures NextMark(NextMark(NextMark(q))) == NextMark(q)
  {
  }

  /** A right click never leaves both marks set unless they were, and always
      leaves one of them set. */
  lemma NextMarkOneMark(q: Sq)
    ensures !(q.isFlagged && q.isQuestioned) ==> !(NextMark(q).isFlagged && NextMark(q).isQuestioned)
    ensures NextMark(q).isFlagged || NextMark(q).isQuestioned
    ensures NextMark(q).isOpen == q.isOpen && NextMark(q).isMine == q.isMine
    ensures NextMark(q).surroundings == q.surroundings
  {
  }

  /** `flag` changes only the marks of the clicked square, whether it is open or
      not, and nothing once the game is over. */
  lemma FlagOnlyMarks(s: State, k: nat)
    requires OnBoard(s, k)
    ensures SameBoard(s, FlagAt(s, k)) && FlagAt(s, k).isPlaying == s.isPlaying
    ensures forall j :: 0 <= j < |s.squares| && j != k ==> FlagAt(s, k).squares[j] == s.squares[j]
    ensures FlagAt(s, k).squares[k].isOpen == s.squares[k].isOpen
    ensures !s.isPlaying ==> FlagAt(s, k) == s
  {
  }

  // ---------------------------------------------------------------------------
  // `explode` as written.

  /** How a handler ends as written: it returns, or a TypeError is thrown part-way
      and the game is left as it was at the throw. */
  datatype Outcome = Returned(state: State) | Threw(state: State)

  /** `explode` as written. The class defines no `game` field, so the loop bound
      `this.game.length` reads a property of `undefined` and throws a TypeError
      before `isPlaying` is cleared. */
  function ExplodeAsWritten(s: State): (r: Outcome)
    ensures r.Threw? && r.state.isPlaying == s.isPlaying && r.state.squares == s.squares
  {
    Threw(s)
  }

  /** On a 1x1 board whose only square is an unmarked mine, clicking that square
      runs `explode`: as written the board goes on answering clicks, while the
      evidently intended `explode` ends the game. */
  lemma MineClickKeepsPlaying()
    ensures var s := State(1, 1, [Sq(false, true, false, false, 0)], true);
      && OpenOf(s.squares[0]) == Explode
      && ExplodeAsWritten(s).state.isPlaying
      && !Click(s, 0, true, true).isPlaying
  {
  }

  // ---------------------------------------------------------------------------
  // The classes.

  /** A square of the board. */
  class Square {
    const row: int
    const col: int
    var isOpen: bool
    var isMine: bool
    var isFlagged: bool
    var isQuestioned: bool
    /** The number of mines around the square, raised by `layMines` as it lays them. */
    var surroundings: int

    /** The square's fields as a value. */
    ghost function Value(): Sq
      reads this
    {
      Sq(isOpen, isMine, isFlagged, isQuestioned, surroundings)
    }

    constructor(row: int, col: int)
      ensures this.row == row && this.col == col && Value() == Unused
    {
      this.row := row;
      this.col := col;
      this.isOpen := false;
      this.isMine := false;
      this.isFlagged := false;
      this.isQuestioned := false;
      this.surroundings := 0;
    }

    /** `open`: reads the square's fields and changes nothing. */
    function Open(): (r: Opening)
      reads this
      ensures r == OpenOf(Value())
    {
      if !isFlagged && !isQuestioned then
        if isMine then Explode
        else if surroundings == 0 then (if !isOpen then Blank else Nothing)
        else Numbered
      else Nothing
    }
  }

  /** `neighbors` is what `getNeighbors` returns for the squares `idxs` of `board`:
      the nine holes of `new Array(9)`, which `forEach` skips, then those squares
      in order. */
  ghost predicate Lists(neighbors: seq<Square?>, board: seq<Square>, idxs: seq<int>)
  {
    |neighbors| == 9 + |idxs|
    && (forall t :: 0 <= t < 9 ==> neighbors[t] == null)
    && (forall t :: 0 <= t < |idxs| ==> 0 <= idxs[t] < |board| && neighbors[9 + t] == board[idxs[t]])
  }

  /** Pushing one more square of the board onto such a list. */
  lemma ListsSnoc(neighbors: seq<Square?>, board: seq<Square>, idxs: seq<int>, x: int)
    requires Lists(neighbors, board, idxs) && 0 <= x < |board|
    ensures Lists(neighbors + [board[x]], board, idxs + [x])
  {
    var longer, more := neighbors + [board[x]], idxs + [x];
    forall t | 0 <= t < 9
      ensures longer[t] == null
    {
      assert longer[t] == neighbors[t];
    }
    forall t | 0 <= t < |more|
      ensures 0 <= more[t] < |board| && longer[9 + t] == board[more[t]]
    {
      if t < |idxs| {
        assert more[t] == idxs[t] && longer[9 + t] == neighbors[9 + t];
      }
    }
  }

  /** How many squares of a `getNeighbors` list `forEach` has visited once it has
      gone past its first `ii` entries. */
  function Seen(ii: nat): nat
  {
    if ii < 9 then 0 else ii - 9
  }

  /** The squares of the game, through which everything finds a square by its
      row and column. */
  class Board {
    const height: nat
    const width: nat
    /** `this.board`: the squares, row after row. */
    const board: seq<Square>

    /** One square object per square, each at the index of its row and column. */
    ghost predicate Valid()
    {
      |board| == height * width
      && (forall i, j :: 0 <= i < j < |board| ==> board[i] != board[j])
      && (forall k :: 0 <= k < |board| ==>
            width > 0 && board[k].row == Grid.RowOf(k, width) && board[k].col == Grid.ColOf(k, width))
    }

    constructor(height: nat, width: nat)
      ensures this.height == height && this.width == width && Valid()
      ensures forall k :: 0 <= k < |board| ==> fresh(board[k]) && board[k].Value() == Unused
    {
      var squares := BuildBoard(height, width);
      this.height := height;
      this.width := width;
      this.board := squares;
    }

    /** `buildBoard`: a new square for every (row, col), stored at its board index.
        The loops visit the squares in the order of their indices, so each new
        square goes into the next slot. */
    static method BuildBoard(height: nat, width: nat) returns (board: seq<Square>)
      ensures |board| == height * width
      ensures forall i, j :: 0 <= i < j < |board| ==> board[i] != board[j]
      ensures forall k :: 0 <= k < |board| ==>
                width > 0 && board[k].row == Grid.RowOf(k, width) && board[k].col == Grid.ColOf(k, width)
      ensures forall k :: 0 <= k < |board| ==> fresh(board[k]) && board[k].Value() == Unused
    {
      board := [];
      var i := 0;
      while i < height
        invariant 0 <= i <= height && |board| == i * width
        invariant forall i, j :: 0 <= i < j < |board| ==> board[i] != board[j]
        invariant forall k :: 0 <= k < |board| ==>
                    width > 0 && board[k].row == Grid.RowOf(k, width) && board[k].col == Grid.ColOf(k, width)
        invariant forall k :: 0 <= k < |board| ==> fresh(board[k]) && board[k].Value() == Unused
      {
        var j := 0;
        while j < width
          invariant 0 <= j <= width && |board| == i * width + j
          invariant forall i, j :: 0 <= i < j < |board| ==> board[i] != board[j]
          invariant forall k :: 0 <= k < |board| ==>
                      width > 0 && board[k].row == Grid.RowOf(k, width) && board[k].col == Grid.ColOf(k, width)
          invariant forall k :: 0 <= k < |board| ==> fresh(board[k]) && board[k].Value() == Unused
        {
          Grid.IndexRoundTrip(i, j, height, width);
          assert Grid.Index(i, j, width) == |board|;
          var square := new Square(i, j);
          board := board + [square];
          j := j + 1;
        }
        i := i + 1;
      }
    }

    /** `boardIndex`: the index in `board` of the square at `row`, `col`; for a
        square on the board it lies in [0, height*width) and names that row and
        column again. */
    function BoardIndex(row: int, col: int): (k: int)
      ensures Grid.InBounds(row, col, height, width) ==>
                0 <= k < height * width && Grid.RowOf(k, width) == row && Grid.ColOf(k, width) == col
    {
      if Grid.InBounds(row, col, height, width) then
        Grid.IndexRoundTrip(row, col, height, width);
        Grid.Index(row, col, width)
      else
        Grid.Index(row, col, width)
    }

    /** `get`: the square at `row`, `col`. */
    function Get(row: int, col: int): (square: Square)
      requires Valid() && Grid.InBounds(row, col, height, width)
      ensures square.row == row && square.col == col
    {
      board[BoardIndex(row, col)]
    }

    /** `getNeighbors`: nine holes, then the squares around (`row`, `col`) in the
        order of the nested loops, the square itself skipped. */
    method GetNeighbors(row: int, col: int) returns (neighbors: seq<Square?>)
      requires Valid()
      ensures Lists(neighbors, board, Grid.Window(row, col, height, width, false))
    {
      neighbors := seq(9, _ => null);
      ghost var idxs: seq<int> := [];
      var i := -1;
      while i <= 1
        invariant -1 <= i <= 2
        invariant idxs == Grid.WindowPrefix(row, col, i, height, width, false)
        invariant Lists(neighbors, board, idxs)
      {
        var j := -1;
        while j <= 1
          invariant -1 <= j <= 2
          invariant idxs == Grid.WindowPrefix(row, col, i, height, width, false)
                            + Grid.RowPrefix(row, col, i, j, height, width, false)
          invariant Lists(neighbors, board, idxs)
        {
          neighbors, idxs := PushNear(row, col, i, j, neighbors, idxs);
          assert Grid.RowPrefix(row, col, i, j + 1, height, width, false)
              == Grid.RowPrefix(row, col, i, j, height, width, false) + Grid.Cell(row, col, i, j, height, width, false);
          j := j + 1;
        }
        assert Grid.WindowPrefix(row, col, i + 1, height, width, false)
            == Grid.WindowPrefix(row, col, i, height, width, false) + Grid.RowPrefix(row, col, i, 2, height, width, false);
        i := i + 1;
      }
    }

    /** One pass of the inner loop of `getNeighbors`: push the square at offset
        (`i`, `j`) from (`row`, `col`) when it is not the square itself and lies
        on the board. */
    method PushNear(row: int, col: int, i: int, j: int, neighbors: seq<Square?>, ghost idxs: seq<int>)
      returns (neighbors': seq<Square?>, ghost idxs': seq<int>)
      requires Valid() && Lists(neighbors, board, idxs)
      ensures idxs' == idxs + Grid.Cell(row, col, i, j, height, width, false)
      ensures Lists(neighbors', board, idxs')
    {
      neighbors', idxs' := neighbors, idxs;
      if !(i == 0 && j == 0) {
        var neighborRow := row + i;
        var neighborCol := col + j;
        if neighborRow >= 0 && neighborCol >= 0 && neighborRow < height && neighborCol < width {
          ListsSnoc(neighbors, board, idxs, BoardIndex(neighborRow, neighborCol));
          neighbors' := neighbors + [board[BoardIndex(neighborRow, neighborCol)]];
          idxs' := idxs + [Grid.Index(neighborRow, neighborCol, width)];
        }
      }
    }
  }

  /** The squares of `board` at the indices of `v`. */
  ghost function Objs(board: seq<Square>, v: set<int>): set<Square>
  {
    set k | k in v && 0 <= k < |board| :: board[k]
  }

  /** With no square object listed twice, a square is among the objects of `v`
      exactly when its index is in `v`. */
  lemma ObjsHas(board: seq<Square>, v: set<int>, k: int)
    requires (forall i, j :: 0 <= i < j < |board| ==> board[i] != board[j]) && 0 <= k < |board|
    ensures board[k] in Objs(board, v) <==> k in v
  {
    if board[k] in Objs(board, v) {
      var j :| j in v && 0 <= j < |board| && board[j] == board[k];
      assert j == k;
    }
  }

  /** The queue of square objects `objs` holds the squares of `board` at the
      indices of `q`, in the same order. */
  ghost predicate Mirrors(objs: seq<Square>, board: seq<Square>, q: seq<int>)
  {
    |objs| == |q| && forall t :: 0 <= t < |q| ==> 0 <= q[t] < |board| && objs[t] == board[q[t]]
  }

  /** Going past one more entry of a `getNeighbors` list: a hole adds no square,
      and entry `9 + t` adds the square `idxs[t]`. */
  lemma SeenStep(idxs: seq<int>, ii: nat)
    requires ii < 9 + |idxs|
    ensures ii < 9 ==> idxs[..Seen(ii + 1)] == idxs[..Seen(ii)]
    ensures ii >= 9 ==> idxs[..Seen(ii + 1)] == idxs[..Seen(ii)] + [idxs[ii - 9]]
  {
  }

  /** Adding up `vals` over the squares of a `getNeighbors` list one more entry
      further: a hole adds nothing, entry `9 + t` adds the value of square `idxs[t]`. */
  lemma SumSeen(idxs: seq<int>, ii: nat, vals: seq<int>)
    requires Grid.IndicesIn(idxs, |vals|) && ii < 9 + |idxs|
    ensures Grid.IndicesIn(idxs[..Seen(ii)], |vals|) && Grid.IndicesIn(idxs[..Seen(ii + 1)], |vals|)
    ensures Grid.Sum(idxs[..Seen(ii + 1)], vals)
         == Grid.Sum(idxs[..Seen(ii)], vals) + if ii < 9 then 0 else vals[idxs[ii - 9]]
  {
    if ii >= 9 {
      assert idxs[..Seen(ii + 1)] == idxs[..Seen(ii)] + [idxs[ii - 9]];
      Grid.SumSnoc(idxs[..Seen(ii)], idxs[ii - 9], vals);
    } else {
      assert idxs[..Seen(ii + 1)] == idxs[..Seen(ii)];
    }
  }

  /** Raising the counts over a `getNeighbors` list one more entry further: a
      hole raises nothing, entry `9 + t` raises the count of square `idxs[t]`,
      which the entries before did not raise. */
  lemma BumpedSeen(squares: seq<Sq>, idxs: seq<int>, ii: nat)
    requires Grid.IndicesIn(idxs, |squares|) && Grid.Increasing(idxs) && ii < 9 + |idxs|
    ensures ii < 9 ==> Bumped(squares, idxs[..Seen(ii + 1)]) == Bumped(squares, idxs[..Seen(ii)])
    ensures ii >= 9 ==>
      var before, x := Bumped(squares, idxs[..Seen(ii)]), idxs[ii - 9];
      Bumped(squares, idxs[..Seen(ii + 1)]) == before[x := before[x].(surroundings := before[x].surroundings + 1)]
  {
    if ii >= 9 {
      var x := idxs[ii - 9];
      assert idxs[..Seen(ii + 1)] == idxs[..Seen(ii)] + [x];
      assert x !in idxs[..Seen(ii)];
      BumpedSnoc(squares, idxs[..Seen(ii)], x);
    } else {
      assert idxs[..Seen(ii + 1)] == idxs[..Seen(ii)];
    }
  }

  /** Raising the counts on one more square, not raised before. */
  lemma BumpedSnoc(squares: seq<Sq>, ks: seq<int>, x: int)
    requires 0 <= x < |squares| && x !in ks
    ensures Bumped(squares, ks + [x]) == Bumped(squares, ks)[x := squares[x].(surroundings := squares[x].surroundings + 1)]
  {
  }

  /** The squares once the draws before `pos` have laid `count` mines, each on
      the first draw of its square. */
  ghost predicate LaidSoFar(squares: seq<Sq>, height: nat, width: nat, idx: seq<int>, pos: nat, count: nat)
    requires pos <= |idx|
  {
    |Sampling.Dedup(idx[..pos])| == count && squares == Laid(height, width, Sampling.Dedup(idx[..pos]))
  }

  /** While the mines laid are those of the draws before `pos`, a square holds
      a mine exactly when one of those draws names it. */
  lemma MinedIffDrawn(squares: seq<Sq>, height: nat, width: nat, idx: seq<int>, pos: nat, count: nat)
    requires pos < |idx| && 0 <= idx[pos] < height * width
    requires LaidSoFar(squares, height, width, idx, pos, count)
    ensures squares[idx[pos]].isMine <==> idx[pos] in idx[..pos]
  {
  }

  /** One draw of `layMines` at (`row`, `col`), the square `x`: if no mine lies
      there yet, a mine is laid and the counts around it raised, which is the
      board laid with the distinct draws so far plus this one; if a mine lies
      there, nothing changes and neither do the distinct draws. */
  lemma DrawKeepsLaid(height: nat, width: nat, idx: seq<int>, pos: nat, count: nat, row: int, col: int,
                      before: seq<Sq>, after: seq<Sq>, layed: bool)
    requires pos < |idx| && Grid.InBounds(row, col, height, width) && idx[pos] == Grid.Index(row, col, width)
    requires 0 <= idx[pos] < height * width
    requires LaidSoFar(before, height, width, idx, pos, count)
    requires var x := idx[pos];
      (layed <==> !before[x].isMine)
      && after == if before[x].isMine then before
                  else Bumped(before[x := before[x].(isMine := true)], Grid.Window(row, col, height, width, false))
    ensures LaidSoFar(after, height, width, idx, pos + 1, count + if layed then 1 else 0)
  {
    var x := idx[pos];
    var laid := Sampling.Dedup(idx[..pos]);
    Grid.IndexRoundTrip(row, col, height, width);
    assert idx[..pos + 1] == idx[..pos] + [x];
    Sampling.DedupSnoc(idx[..pos], x);
    assert before[x].isMine <==> x in laid;
    if !before[x].isMine {
      assert Grid.Neighbours(x, height, width, false) == Grid.Window(row, col, height, width, false);
      LaidStep(height, width, laid, x);
    }
  }

  /** Revealing one more dequeued square of the flood fill, one without a mine,
      with `reveal(false, false)`. */
  lemma BlanksRevealedAdd(s0: State, done: set<int>, k: nat)
    requires OnBoard(s0, k) && !s0.squares[k].isMine
    ensures OnBoard(BlanksRevealed(s0, done), k)
    ensures Click(BlanksRevealed(s0, done), k, false, false) == BlanksRevealed(s0, done + {k})
  {
  }

  /** One more square of the chord's `forEach`. */
  lemma ChordSnoc(s: State, nbrs: seq<int>, i: nat)
    requires WellFormed(s) && Grid.IndicesIn(nbrs, |s.squares|) && i < |nbrs|
    ensures Grid.IndicesIn(nbrs[..i], |s.squares|) && Grid.IndicesIn(nbrs[..i + 1], |s.squares|)
    ensures var s' := ChordOver(s, nbrs[..i]);
      ChordOver(s, nbrs[..i + 1])
      == if !s'.squares[nbrs[i]].isOpen && !s'.squares[nbrs[i]].isFlagged then Click(s', nbrs[i], true, false) else s'
  {
    assert nbrs[..i + 1][..i] == nbrs[..i];
  }

  /** The game object of game.js. */
  class Minesweeper {
    const width: nat
    const height: nat
    const numMines: nat
    /** The abstract board, through which every square is found. */
    const board: Board
    /** While true the board answers clicks. */
    var isPlaying: bool

    /** The squares' fields, row after row. */
    ghost function Squares(): (squares: seq<Sq>)
      reads board.board
      ensures |squares| == |board.board|
      ensures forall k :: 0 <= k < |board.board| ==> squares[k] == board.board[k].Value()
    {
      seq(|board.board|, k requires 0 <= k < |board.board| reads board.board => board.board[k].Value())
    }

    /** The game as a value. */
    ghost function Model(): (s: State)
      reads this, board.board
    {
      State(height, width, Squares(), isPlaying)
    }

    /** The board has this game's size. */
    ghost predicate Shaped()
    {
      board.Valid() && board.height == height && board.width == width
    }

    /** The board has this game's size and every count is the number of mines
        around its square. */
    ghost predicate Valid()
      reads this, board.board
    {
      Shaped() && Consistent(Model())
    }

    /** The board is built square by square, the mines are laid by `layMines`
        from the random (row, col) pairs `draws`, and the game starts. */
    constructor(width: nat, height: nat, numMines: nat, draws: seq<(int, int)>)
      requires height * width > 0 || numMines == 0
      requires forall t :: 0 <= t < |draws| ==> Drawn(draws[t], height, width)
      ensures Valid() && this.width == width && this.height == height && this.numMines == numMines
      ensures Model() == State(height, width, Laid(height, width, Sampling.Chosen(DrawnIndices(draws, width), numMines)), true)
    {
      this.isPlaying := false;
      this.width := width;
      this.height := height;
      this.numMines := numMines;
      this.board := new Board(height, width);
      new;
      ghost var chosen := Sampling.Chosen(DrawnIndices(draws, width), numMines);
      LaidNone(height, width);
      assert Squares() == Laid(height, width, []);
      var complete := LayMines(draws);
      isPlaying := true;
      assert Model() == State(height, width, Laid(height, width, chosen), true);
      LaidConsistent(height, width, chosen, true);
    }

    /** `layMines`: `numMines` times, draw squares until one holds no mine, lay
        a mine there and raise the count of every square around it. `complete`
        is false when the draws run out first, where the source would go on
        drawing. */
    method LayMines(draws: seq<(int, int)>) returns (complete: bool)
      requires Shaped() && (height * width > 0 || numMines == 0)
      requires forall t :: 0 <= t < |draws| ==> Drawn(draws[t], height, width)
      requires Squares() == Laid(height, width, [])
      modifies board.board
      ensures Squares() == Laid(height, width, Sampling.Chosen(DrawnIndices(draws, width), numMines))
      ensures complete <==> Sampling.Enough(DrawnIndices(draws, width), numMines)
    {
      ghost var idx := DrawnIndices(draws, width);
      var pos := 0;
      complete := true;
      var i := 0;
      while i < numMines
        invariant 0 <= i <= numMines && 0 <= pos <= |draws|
        invariant LaidSoFar(Squares(), height, width, idx, pos, i)
      {
        var layed;
        pos, layed := DrawUntilLaid(draws, pos, i);
        if !layed {
          complete := false;
          break;
        }
        i := i + 1;
      }
      Sampling.StopsAt(idx, pos, numMines, complete);
    }

    /** The inner loop of `layMines`: draw from position `pos` on until a draw
        finds its square without a mine, and lay one there. `layed` is false
        when the draws run out first. */
    method DrawUntilLaid(draws: seq<(int, int)>, pos: nat, ghost count: nat) returns (pos': nat, layed: bool)
      requires Shaped() && height * width > 0 && pos <= |draws|
      requires forall t :: 0 <= t < |draws| ==> Drawn(draws[t], height, width)
      requires LaidSoFar(Squares(), height, width, DrawnIndices(draws, width), pos, count)
      modifies board.board
      ensures pos <= pos' <= |draws| && (!layed ==> pos' == |draws|)
      ensures LaidSoFar(Squares(), height, width, DrawnIndices(draws, width), pos', count + if layed then 1 else 0)
      ensures !layed ==> Sampling.Repeats(DrawnIndices(draws, width), pos, pos')
      ensures layed ==> pos < pos' && Sampling.Repeats(DrawnIndices(draws, width), pos, pos' - 1)
                        && DrawnIndices(draws, width)[pos' - 1] !in DrawnIndices(draws, width)[..pos' - 1]
    {
      ghost var idx := DrawnIndices(draws, width);
      pos' := pos;
      layed := false;
      while !layed && pos' < |draws|
        invariant pos <= pos' <= |draws|
        invariant LaidSoFar(Squares(), height, width, idx, pos', count + if layed then 1 else 0)
        invariant !layed ==> Sampling.Repeats(idx, pos, pos')
        invariant layed ==> pos < pos' && Sampling.Repeats(idx, pos, pos' - 1) && idx[pos' - 1] !in idx[..pos' - 1]
      {
        layed := DrawOnce(draws, pos', count);
        pos' := pos' + 1;
      }
    }

    /** One pass of that loop, on the draw at `pos`: lay a mine on its square
        unless one lies there already, which is when the draw repeats an
        earlier one. */
    method DrawOnce(draws: seq<(int, int)>, pos: nat, ghost count: nat) returns (layed: bool)
      requires Shaped() && pos < |draws| && Drawn(draws[pos], height, width) && height * width > 0
      requires LaidSoFar(Squares(), height, width, DrawnIndices(draws, width), pos, count)
      modifies board.board
      ensures layed <==> DrawnIndices(draws, width)[pos] !in DrawnIndices(draws, width)[..pos]
      ensures LaidSoFar(Squares(), height, width, DrawnIndices(draws, width), pos + 1, count + if layed then 1 else 0)
    {
      ghost var idx := DrawnIndices(draws, width);
      var (row, col) := draws[pos];
      assert idx[pos] == Grid.Index(row, col, width);
      ghost var before := Squares();
      Grid.IndexRoundTrip(row, col, height, width);
      MinedIffDrawn(before, height, width, idx, pos, count);
      layed := LayAt(row, col);
      DrawKeepsLaid(height, width, idx, pos, count, row, col, before, Squares(), layed);
    }

    /** One draw of `layMines` that finds the square at `row`, `col`: if it holds
        no mine, lay one there and raise the count of every square around it.
        `layed` tells whether a mine was laid. */
    method LayAt(row: int, col: int) returns (layed: bool)
      requires Shaped() && Grid.InBounds(row, col, height, width)
      modifies board.board
      ensures var before, x := old(Squares()), Grid.Index(row, col, width);
        0 <= x < |before| && (layed <==> !before[x].isMine)
        && Squares() == if before[x].isMine then before
                        else Bumped(before[x := before[x].(isMine := true)], Grid.Window(row, col, height, width, false))
    {
      ghost var before := Squares();
      var thisSquare := board.Get(row, col);
      Grid.IndexRoundTrip(row, col, height, width);
      ghost var x := Grid.Index(row, col, width);
      assert thisSquare == board.board[x];
      layed := false;
      if !thisSquare.isMine {
        thisSquare.isMine := true;
        ghost var laying := before[x := before[x].(isMine := true)];
        assert Squares() == laying;
        var neighbors := board.GetNeighbors(row, col);
        assert Squares() == laying;
        Grid.WindowFacts(row, col, height, width, false);
        IncrementAll(neighbors, Grid.Window(row, col, height, width, false));
        layed := true;
      }
    }

    /** The `forEach` of `layMines` over a neighbour list: every listed square's
        count goes up by one; the holes are skipped. */
    method IncrementAll(neighbors: seq<Square?>, ghost idxs: seq<int>)
      requires Shaped() && Lists(neighbors, board.board, idxs) && Grid.Increasing(idxs)
      modifies board.board
      ensures Squares() == Bumped(old(Squares()), idxs)
    {
      ghost var s0 := Squares();
      assert Grid.IndicesIn(idxs, |board.board|);
      var ii := 0;
      while ii < |neighbors|
        invariant 0 <= ii <= |neighbors|
        invariant Squares() == Bumped(s0, idxs[..Seen(ii)])
      {
        BumpedSeen(s0, idxs, ii);
        var neighbor := neighbors[ii];
        if neighbor != null {
          ghost var x := idxs[ii - 9];
          ghost var before := Squares();
          ghost var after := before[x := before[x].(surroundings := before[x].surroundings + 1)];
          neighbor.surroundings := neighbor.surroundings + 1;
          assert Squares() == after by {
            forall j | 0 <= j < |board.board|
              ensures Squares()[j] == after[j]
            {
              if j != x {
                assert board.board[j] != neighbor;
              }
            }
          }
        }
        ii := ii + 1;
      }
      assert idxs[..Seen(ii)] == idxs;
    }

    /** `idFromBoard`: the element id of the square at `row`, `col`; a click
        handler reading it gets that square's index back. */
    function IdFromBoard(row: nat, col: nat): (id: string)
      requires Grid.InBounds(row, col, height, width)
      ensures Text.IsSquareId(id, height, width) && IdIndex(id) == Grid.Index(row, col, width)
    {
      Text.IdRoundTrip(row, col);
      Grid.IndexRoundTrip(row, col, height, width);
      Text.Id(row, col)
    }

    /** What a click handler computes from `this.id`: `parseInt` of both halves,
        then the board index of that row and column. */
    function IdIndex(id: string): (idx: nat)
      requires Text.IsSquareId(id, height, width)
      ensures idx < height * width
    {
      var (row, col) := Text.ParseId(id);
      Grid.IndexRoundTrip(row, col, height, width);
      Grid.Index(row, col, width)
    }

    /** `getFlags`: the number of squares of the neighbour list with `isFlagged` set. */
    method GetFlags(row: int, col: int) returns (nFlags: int)
      requires Shaped() && Grid.InBounds(row, col, height, width)
      ensures nFlags == FlagCount(Model(), board.BoardIndex(row, col))
    {
      Grid.IndexRoundTrip(row, col, height, width);
      ghost var k := Grid.Index(row, col, width);
      ghost var idxs := Grid.Window(row, col, height, width, false);
      ghost var marks := FlagMarks(Squares());
      assert idxs == Nbrs(Model(), k);
      Grid.NeighboursFacts(k, height, width, false);
      var neighbors := board.GetNeighbors(row, col);
      nFlags := 0;
      var ii := 0;
      while ii < |neighbors|
        invariant 0 <= ii <= |neighbors|
        invariant Grid.IndicesIn(idxs[..Seen(ii)], |marks|)
        invariant nFlags == Grid.Sum(idxs[..Seen(ii)], marks)
      {
        SumSeen(idxs, ii, marks);
        var neighbor := neighbors[ii];
        assert neighbor != null <==> ii >= 9;
        assert neighbor != null ==> (neighbor.isFlagged <==> marks[idxs[ii - 9]] == 1);
        if neighbor != null && neighbor.isFlagged {
          nFlags := nFlags + 1;
        }
        ii := ii + 1;
      }
      assert idxs[..Seen(ii)] == idxs;
    }

    /** `explode`, as evidently meant: the board stops answering clicks. */
    method Explode()
      requires Valid()
      modifies this
      ensures Valid() && Model() == Exploded(old(Model()))
    {
      ghost var s0 := Model();
      isPlaying := false;
      SameBoardConsistent(s0, Model());
    }

    /** `openBlanks`: a breadth-first search from the square at `row`, `col`
        over the FIFO queue `toVisit` and the set `visited` of square objects.
        Each dequeued square is revealed with `reveal(false, false)`, and a
        dequeued square whose count is 0 enqueues its neighbours not yet in
        `visited`. `dequeues` counts the squares taken off the queue. */
    method OpenBlanks(row: int, col: int) returns (ghost dequeues: nat)
      requires Valid() && Grid.InBounds(row, col, height, width) && !board.Get(row, col).isMine
      modifies this, board.board
      ensures Valid() && Model() == BlanksOpened(old(Model()), board.BoardIndex(row, col))
      ensures dequeues <= height * width + 1
      decreases 1, 0
    {
      Grid.IndexRoundTrip(row, col, height, width);
      ghost var start := Grid.Index(row, col, width);
      ghost var s0 := Model();
      ghost var n := height * width;
      var toVisit := [board.Get(row, col)];
      var visited: set<Square> := {};
      ghost var q := [start];
      ghost var v: set<int> := {};
      ghost var done: set<int> := {};
      dequeues := 0;
      Flood.SearchStart(start, Spreads(s0), height, width, false);
      assert Model() == BlanksRevealed(s0, done);
      while |toVisit| > 0
        invariant Valid() && Model() == BlanksRevealed(s0, done)
        invariant Flood.Searching(start, q, v, done, dequeues, Spreads(s0), height, width, false)
        invariant v <= Grid.Cells(n)
        invariant Mirrors(toVisit, board.board, q) && visited == Objs(board.board, v)
        decreases Grid.Cells(n) - v, |q|
      {
        ghost var v0 := v;
        toVisit, visited, q, v, done := Visit(s0, start, toVisit, visited, q, v, done, dequeues);
        dequeues := dequeues + 1;
        assert v != v0 ==> Grid.Cells(n) - v < Grid.Cells(n) - v0;
      }
      Flood.SearchEnd(start, v, done, dequeues, Spreads(s0), height, width, false);
    }

    /** One turn of the `openBlanks` loop: take the head of the queue, reveal it
        with `reveal(false, false)`, then push its neighbours not in `visited`
        when its count is 0. In terms of square indices, the head joins the
        dequeued squares `done`, and the bookkeeping of the search is kept. */
    method Visit(ghost s0: State, ghost start: nat, toVisit: seq<Square>, visited: set<Square>,
                 ghost q: seq<int>, ghost v: set<int>, ghost done: set<int>, ghost dequeues: nat)
      returns (toVisit': seq<Square>, visited': set<Square>, ghost q': seq<int>, ghost v': set<int>, ghost done': set<int>)
      requires Valid() && s0.height == height && s0.width == width && width > 0
      requires Consistent(s0) && OnBoard(s0, start) && !s0.squares[start].isMine
      requires Model() == BlanksRevealed(s0, done)
      requires Flood.Searching(start, q, v, done, dequeues, Spreads(s0), height, width, false)
      requires Mirrors(toVisit, board.board, q) && visited == Objs(board.board, v) && q != []
      modifies this, board.board
      ensures Valid() && Model() == BlanksRevealed(s0, done')
      ensures Flood.Searching(start, q', v', done', dequeues + 1, Spreads(s0), height, width, false)
      ensures Mirrors(toVisit', board.board, q') && visited' == Objs(board.board, v')
      ensures v <= v' <= Grid.Cells(height * width)
      ensures v' == v ==> |q'| < |q|
      decreases 0, 5
    {
      ghost var spreads := Spreads(s0);
      Flood.SearchOnGrid(start, q, v, done, dequeues, spreads, height, width, false);
      var thisSquare := toVisit[0];
      ghost var curr := q[0];
      RevealHead(s0, start, done, thisSquare, curr);
      done' := done + {curr};
      ghost var after := Model();
      toVisit', visited', q', v' := Expand(s0, thisSquare, curr, toVisit[1..], visited, q[1..], v);
      Flood.SearchStep(start, q, v, done, dequeues, spreads, height, width, false);
      Flood.EnqueueFacts(q[1..], v, Grid.Neighbours(curr, height, width, false));
      Flood.SearchOnGrid(start, q', v', done', dequeues + 1, spreads, height, width, false);
      assert Model() == after;
    }

    /** The head of the `openBlanks` queue, the square `curr` of the flood fill,
        revealed with `reveal(false, false)` on its element. */
    method RevealHead(ghost s0: State, ghost start: nat, ghost done: set<int>, thisSquare: Square, ghost curr: nat)
      requires Valid() && s0.height == height && s0.width == width && width > 0
      requires Consistent(s0) && OnBoard(s0, start) && !s0.squares[start].isMine
      requires curr in Flood.Region(start, Spreads(s0), height, width, false)
      requires curr < |board.board| && thisSquare == board.board[curr]
      requires Model() == BlanksRevealed(s0, done)
      modifies this, board.board
      ensures Valid() && Model() == BlanksRevealed(s0, done + {curr})
      decreases 0, 4
    {
      Grid.CoordsRoundTrip(curr, height, width);
      RegionMineFree(s0, start);
      BlanksRevealedAdd(s0, done, curr);
      // `reveal.bind(squareElement, false, false)()` on the square's element
      var id := IdFromBoard(thisSquare.row, thisSquare.col);
      Reveal(id, false, false);
      SameBoardConsistent(s0, Model());
    }

    /** The neighbour list of the dequeued square `curr` and the `forEach` over
        it: its squares not yet in `visited` are enqueued when `curr` spreads. */
    method Expand(ghost s0: State, thisSquare: Square, ghost curr: nat, toVisit: seq<Square>, visited: set<Square>,
                  ghost q: seq<int>, ghost v: set<int>)
      returns (toVisit': seq<Square>, visited': set<Square>, ghost q': seq<int>, ghost v': set<int>)
      requires Shaped() && SameBoard(s0, Model()) && WellFormed(s0) && s0.width == width
      requires curr < |board.board| && thisSquare == board.board[curr]
      requires Mirrors(toVisit, board.board, q) && visited == Objs(board.board, v)
      ensures Mirrors(toVisit', board.board, q') && visited' == Objs(board.board, v')
      ensures width > 0 && (q', v') == if Flood.SpreadsFrom(curr, Spreads(s0))
                                      then Flood.Enqueue(q, v, Grid.Neighbours(curr, height, width, false))
                                      else (q, v)
    {
      Grid.CoordsRoundTrip(curr, height, width);
      assert thisSquare.surroundings == 0 <==> Flood.SpreadsFrom(curr, Spreads(s0));
      var neighbors := board.GetNeighbors(thisSquare.row, thisSquare.col);
      assert Grid.Window(thisSquare.row, thisSquare.col, height, width, false) == Grid.Neighbours(curr, height, width, false);
      toVisit', visited', q', v' := PushNeighbours(thisSquare, neighbors, toVisit, visited, q, v,
                                                   Grid.Neighbours(curr, height, width, false));
    }

    /** The `forEach` of `openBlanks` over the neighbour list of `thisSquare`:
        each listed square not in `visited` is pushed on the queue and recorded,
        as long as `thisSquare` has count 0; the holes are skipped. */
    method PushNeighbours(thisSquare: Square, neighbors: seq<Square?>, toVisit: seq<Square>, visited: set<Square>,
                          ghost q: seq<int>, ghost v: set<int>, ghost idxs: seq<int>)
      returns (toVisit': seq<Square>, visited': set<Square>, ghost q': seq<int>, ghost v': set<int>)
      requires Shaped() && Lists(neighbors, board.board, idxs)
      requires Mirrors(toVisit, board.board, q) && visited == Objs(board.board, v)
      ensures Mirrors(toVisit', board.board, q') && visited' == Objs(board.board, v')
      ensures thisSquare.surroundings == 0 ==> (q', v') == Flood.Enqueue(q, v, idxs)
      ensures thisSquare.surroundings != 0 ==> q' == q && v' == v
    {
      toVisit', visited', q', v' := toVisit, visited, q, v;
      var ii := 0;
      while ii < |neighbors|
        invariant 0 <= ii <= |neighbors|
        invariant Mirrors(toVisit', board.board, q') && visited' == Objs(board.board, v')
        invariant thisSquare.surroundings == 0 ==> (q', v') == Flood.Enqueue(q, v, idxs[..Seen(ii)])
        invariant thisSquare.surroundings != 0 ==> q' == q && v' == v
      {
        SeenStep(idxs, ii);
        var neighbor := neighbors[ii];
        if neighbor != null {
          ghost var x := idxs[ii - 9];
          Flood.EnqueueSnoc(q, v, idxs, ii - 9);
          ObjsHas(board.board, v', x);
          if neighbor !in visited' && thisSquare.surroundings == 0 {
            toVisit' := toVisit' + [neighbor];
            visited' := visited' + {neighbor};
            q' := q' + [x];
            v' := v' + {x};
          }
        }
        ii := ii + 1;
      }
      assert idxs[..Seen(ii)] == idxs;
    }

    /** `openNumbered`: when the flags around the square at `row`, `col` match
        its count, reveal with `reveal(true, false)` each square of its
        neighbour list that is neither open nor flagged at its turn. */
    method OpenNumbered(row: int, col: int)
      requires Valid() && Grid.InBounds(row, col, height, width)
      modifies this, board.board
      ensures Valid() && Model() == Chord(old(Model()), board.BoardIndex(row, col))
      decreases 2, 0
    {
      Grid.IndexRoundTrip(row, col, height, width);
      ghost var k := Grid.Index(row, col, width);
      ghost var s0 := Model();
      var square := board.Get(row, col);
      var nFlags := GetFlags(row, col);
      if nFlags == square.surroundings {
        ChordAll(row, col);
      }
    }

    /** The `forEach` of `openNumbered` over the neighbour list of the square at
        `row`, `col`, front to back. */
    method ChordAll(row: int, col: int)
      requires Valid() && Grid.InBounds(row, col, height, width)
      modifies this, board.board
      ensures Valid() && Model() == ChordOver(old(Model()), Nbrs(old(Model()), board.BoardIndex(row, col)))
      decreases 1, 5
    {
      Grid.IndexRoundTrip(row, col, height, width);
      ghost var k := Grid.Index(row, col, width);
      ghost var s0 := Model();
      ghost var idxs := Grid.Window(row, col, height, width, false);
      assert idxs == Nbrs(s0, k);
      var neighbors := board.GetNeighbors(row, col);
      var ii := 0;
      while ii < |neighbors|
        invariant 0 <= ii <= |neighbors|
        invariant Grid.IndicesIn(idxs[..Seen(ii)], |s0.squares|)
        invariant Valid() && Model() == ChordOver(s0, idxs[..Seen(ii)])
      {
        SeenStep(idxs, ii);
        var neighbor := neighbors[ii];
        if neighbor != null {
          ChordSnoc(s0, idxs, ii - 9);
          ChordStep(neighbor, idxs[ii - 9]);
        }
        ii := ii + 1;
      }
      assert idxs[..Seen(ii)] == idxs;
    }

    /** The body of the `forEach` of `openNumbered` for the square `x` of the
        neighbour list: if it is neither open nor flagged, `reveal(true, false)`
        on its element. */
    method ChordStep(neighbor: Square, ghost x: nat)
      requires Valid() && x < |board.board| && neighbor == board.board[x]
      modifies this, board.board
      ensures Valid()
      ensures var s := old(Model());
        Model() == if !s.squares[x].isOpen && !s.squares[x].isFlagged then Click(s, x, true, false) else s
      decreases 1, 4
    {
      if !neighbor.isOpen && !neighbor.isFlagged {
        Grid.CoordsRoundTrip(x, height, width);
        // the element with id `neighbor.row + ',' + neighbor.col`
        var id := IdFromBoard(neighbor.row, neighbor.col);
        Reveal(id, true, false);
      }
    }

    /** `reveal(doOpenBlanks, doOpenNumbered)`, the click handler of the square
        whose element id is `id`. */
    method Reveal(id: string, doOpenBlanks: bool, doOpenNumbered: bool)
      requires Valid() && Text.IsSquareId(id, height, width)
      modifies this, board.board
      ensures Valid() && Model() == Click(old(Model()), IdIndex(id), doOpenBlanks, doOpenNumbered)
      decreases (if doOpenNumbered then 2 else 0) + (if doOpenBlanks then 1 else 0), 3
    {
      if isPlaying {
        var (row, col) := Text.ParseId(id);
        ghost var s0 := Model();
        ghost var k := IdIndex(id);
        Grid.IndexRoundTrip(row, col, height, width);
        var square := board.Get(row, col);
        assert square == board.board[k];
        var result := square.Open();
        match result {
          case Blank =>
            if doOpenBlanks {
              ghost var dequeues := OpenBlanks(row, col);
            }
          case Numbered =>
            if !square.isOpen {
              OpenSquare(square, k);
            } else if doOpenNumbered {
              OpenNumbered(row, col);
            }
          case Explode =>
            Explode();
          case Nothing =>
        }
      }
    }

    /** The 'numbered' case of `reveal` on a closed square: `isOpen` is set. */
    method OpenSquare(square: Square, ghost k: nat)
      requires Valid() && k < |board.board| && square == board.board[k]
      modifies square
      ensures Valid() && Model() == Opened(old(Model()), k)
    {
      ghost var s0 := Model();
      square.isOpen := true;
      assert Squares() == s0.squares[k := s0.squares[k].(isOpen := true)];
      SameBoardConsistent(s0, Model());
    }

    /** `flag`, the right-click handler of the square whose element id is `id`. */
    method Flag(id: string)
      requires Valid() && Text.IsSquareId(id, height, width)
      modifies board.board
      ensures Valid() && Model() == FlagAt(old(Model()), IdIndex(id))
    {
      if isPlaying {
        var (row, col) := Text.ParseId(id);
        ghost var s0 := Model();
        ghost var k := IdIndex(id);
        Grid.IndexRoundTrip(row, col, height, width);
        var squareOnBoard := board.Get(row, col);
        assert squareOnBoard == board.board[k];
        if squareOnBoard.isFlagged {
          squareOnBoard.isFlagged := false;
          squareOnBoard.isQuestioned := true;
        } else if squareOnBoard.isQuestioned {
          squareOnBoard.isQuestioned := false;
          squareOnBoard.isFlagged := true;
        } else {
          squareOnBoard.isFlagged := true;
        }
        assert Squares() == s0.squares[k := NextMark(s0.squares[k])];
        SameBoardConsistent(s0, Model());
      }
    }
  }
}
