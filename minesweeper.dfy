/** The first draft of the game, minesweeper.js. The mines live in a
    `Uint8Array` of the grid's squares (1 for a mine, 0 otherwise) and everything
    else a square shows lives in its DOM element: its `className` ('default',
    'flagged' or 'revealed') and, for a flagged square, whether its `innerHTML` is
    the flag character or '?'. Here those elements become the array `cells` of
    `Cell` values. A square's neighbour list includes the square itself.

    The pure part below states what each handler does to the whole game as a
    function of a `State` value; the class `Minesweeper` further down runs the
    handlers' loops on arrays and is proved to agree with those functions. */
module Minesweeper {

  import Grid
  import Text
  import Sampling
  import Flood

  /** An element of a `Uint8Array`. */
  newtype uint8 = x: int | 0 <= x < 256

  /** What a square's DOM element shows: class 'default'; class 'flagged' with the
      flag character; class 'flagged' with '?'; class 'revealed'. */
  datatype Cell = Default | Flagged | Questioned | Revealed

  /** The handlers test `className == 'flagged'`, which both marks carry. */
  predicate HasFlagClass(c: Cell)
  {
    c == Flagged || c == Questioned
  }

  /** The whole game: grid size, the mine array, the squares' elements, and
      whether the board still answers clicks. */
  datatype State = State(width: nat, height: nat, mines: seq<int>, cells: seq<Cell>, isPlaying: bool)

  predicate WellFormed(s: State)
  {
    |s.mines| == s.height * s.width && |s.cells| == s.height * s.width && Grid.ZeroOne(s.mines)
  }

  predicate OnBoard(s: State, idx: int)
  {
    WellFormed(s) && 0 <= idx < |s.cells|
  }

  /** Two states of the same game: same grid, same mines. */
  predicate SameBoard(s: State, r: State)
  {
    r.width == s.width && r.height == s.height && r.mines == s.mines && |r.cells| == |s.cells|
  }

  /** The neighbour list `getNeighborIndices` builds: the in-bounds squares of the
      3x3 window around `idx`, `idx` itself included. */
  function NeighborIndices(s: State, idx: nat): (nbrs: seq<int>)
    requires OnBoard(s, idx)
    ensures Grid.IndicesIn(nbrs, |s.cells|) && |nbrs| <= 9
  {
    Grid.WidthPositive(idx, s.height, s.width);
    Grid.NeighboursFacts(idx, s.height, s.width, true);
    Grid.Neighbours(idx, s.height, s.width, true)
  }

  /** `getSurroundings`: the mine array summed over the neighbour list. */
  function Surroundings(s: State, idx: nat): (r: int)
    requires OnBoard(s, idx)
    ensures 0 <= r <= 9
  {
    Grid.SumBound(NeighborIndices(s, idx), s.mines);
    Grid.Sum(NeighborIndices(s, idx), s.mines)
  }

  /** The count of a square depends on the grid and the mines only. */
  lemma SurroundingsSameBoard(s: State, r: State, idx: nat)
    requires OnBoard(s, idx) && OnBoard(r, idx) && SameBoard(s, r)
    ensures Surroundings(s, idx) == Surroundings(r, idx)
  {
  }

  /** One for each square whose element has class 'flagged'. */
  function FlagMarks(cells: seq<Cell>): (marks: seq<int>)
    ensures |marks| == |cells| && Grid.ZeroOne(marks)
    ensures forall k :: 0 <= k < |cells| ==> (marks[k] == 1 <==> HasFlagClass(cells[k]))
  {
    seq(|cells|, k requires 0 <= k < |cells| => if HasFlagClass(cells[k]) then 1 else 0)
  }

  /** `getFlags`: how many squares of the neighbour list have class 'flagged'. */
  function FlagCount(s: State, idx: nat): (r: int)
    requires OnBoard(s, idx)
    ensures 0 <= r <= 9
  {
    Grid.SumBound(NeighborIndices(s, idx), FlagMarks(s.cells));
    Grid.Sum(NeighborIndices(s, idx), FlagMarks(s.cells))
  }

  /** The text `revealNumbered` writes into a square and returns: the count in
      decimal, or the empty string for a count of 0. */
  function NumberText(surroundings: nat): (text: string)
    ensures text == "" <==> surroundings == 0
    ensures surroundings > 0 ==> Text.IsDigits(text) && Text.ParseDecimal(text) == surroundings
  {
    Text.DecimalRoundTrip(surroundings);
    if surroundings > 0 then Text.Decimal(surroundings) else ""
  }

  /** Which squares the flood fill spreads from: those whose count is 0. */
  function Spreads(s: State): (spreads: seq<bool>)
    requires WellFormed(s)
    ensures |spreads| == |s.cells|
    ensures forall k :: 0 <= k < |s.cells| ==> (spreads[k] <==> Surroundings(s, k) == 0)
  {
    seq(|s.cells|, k requires 0 <= k < |s.cells| => Surroundings(s, k) == 0)
  }

  /** The squares `openBlanks(start)` dequeues. */
  ghost function Region(s: State, start: nat): set<int>
    requires OnBoard(s, start)
  {
    Grid.WidthPositive(start, s.height, s.width);
    Flood.Region(start, Spreads(s), s.height, s.width, true)
  }

  /** `explode`, as far as the game's state goes: the board stops answering clicks. */
  function Exploded(s: State): (r: State)
    ensures r.isPlaying == false
  {
    s.(isPlaying := false)
  }

  /** `revealSquare`: the square's class becomes 'revealed', and a mine explodes. */
  function SquareRevealed(s: State, idx: nat): (r: State)
    requires OnBoard(s, idx)
  {
    var s' := s.(cells := s.cells[idx := Revealed]);
    if s.mines[idx] != 0 then Exploded(s') else s'
  }

  /** Every square of `squares` that holds no mine is revealed, whatever its
      class was before; nothing else changes. */
  function BlanksRevealed(s: State, squares: set<int>): (r: State)
    requires WellFormed(s)
    ensures WellFormed(r) && SameBoard(s, r) && r.isPlaying == s.isPlaying
    ensures forall k :: 0 <= k < |s.cells| ==>
              r.cells[k] == if k in squares && s.mines[k] == 0 then Revealed else s.cells[k]
  {
    s.(cells := seq(|s.cells|, k requires 0 <= k < |s.cells| =>
                      if k in squares && s.mines[k] == 0 then Revealed else s.cells[k]))
  }

  /** Revealing one more square of the search: the class of that square becomes
      'revealed' when it holds no mine. */
  lemma BlanksRevealedAdd(s: State, squares: set<int>, idx: nat)
    requires OnBoard(s, idx)
    ensures BlanksRevealed(s, squares + {idx})
         == if s.mines[idx] == 0 then SquareRevealed(BlanksRevealed(s, squares), idx) else BlanksRevealed(s, squares)
  {
    var r := BlanksRevealed(s, squares);
    if s.mines[idx] == 0 {
      assert BlanksRevealed(s, squares + {idx}).cells == r.cells[idx := Revealed];
    } else {
      assert BlanksRevealed(s, squares + {idx}).cells == r.cells;
    }
  }

  /** `openBlanks(start)`: every square the search dequeues that holds no mine is
      revealed, whatever its class was before. */
  ghost function BlanksOpened(s: State, start: nat): (r: State)
    requires OnBoard(s, start)
  {
    BlanksRevealed(s, Region(s, start))
  }

  /** The 'default' branch of `reveal`: reveal the square; a mine explodes, and a
      square whose count is 0 starts the flood fill. */
  ghost function Opened(s: State, idx: nat): State
    requires OnBoard(s, idx)
  {
    var s' := s.(cells := s.cells[idx := Revealed]);
    if s.mines[idx] != 0 then Exploded(s')
    else if NumberText(Surroundings(s', idx)) == "" then BlanksOpened(s', idx)
    else s'
  }

  /** `reveal`, the click handler of the square `idx`. */
  ghost function Click(s: State, idx: nat): (r: State)
    requires OnBoard(s, idx)
    ensures WellFormed(r) && SameBoard(s, r)
    ensures !s.isPlaying || HasFlagClass(s.cells[idx]) ==> r == s
    ensures s.isPlaying && s.cells[idx] == Default && s.mines[idx] != 0 ==> !r.isPlaying
    decreases if s.cells[idx] == Revealed then 2 else 0, 0
  {
    if !s.isPlaying then s
    else if s.cells[idx] == Revealed then
      if FlagCount(s, idx) == Surroundings(s, idx) then Chord(s, NeighborIndices(s, idx)) else s
    else if HasFlagClass(s.cells[idx]) then s
    else Opened(s, idx)
  }

  /** `openNumbered` over the neighbour list `nbrs`: front to back, click each
      square whose class is still 'default' at its turn. */
  ghost function Chord(s: State, nbrs: seq<int>): (r: State)
    requires WellFormed(s) && Grid.IndicesIn(nbrs, |s.cells|)
    ensures WellFormed(r) && SameBoard(s, r)
    decreases 1, |nbrs|
  {
    if nbrs == [] then s
    else
      var s' := Chord(s, nbrs[..|nbrs| - 1]);
      var n := nbrs[|nbrs| - 1];
      if s'.cells[n] == Default then Click(s', n) else s'
  }

  /** Chording over one more square of the list. */
  lemma ChordSnoc(s: State, nbrs: seq<int>, i: nat)
    requires WellFormed(s) && Grid.IndicesIn(nbrs, |s.cells|) && i < |nbrs|
    ensures Grid.IndicesIn(nbrs[..i], |s.cells|) && Grid.IndicesIn(nbrs[..i + 1], |s.cells|)
    ensures Chord(s, nbrs[..i + 1])
         == var s' := Chord(s, nbrs[..i]);
            if s'.cells[nbrs[i]] == Default then Click(s', nbrs[i]) else s'
  {
    assert nbrs[..i + 1][..i] == nbrs[..i];
  }

  /** What one right click does to a square's element. */
  function NextMark(c: Cell): Cell
  {
    match c
    case Default => Flagged
    case Flagged => Questioned
    case Questioned => Default
    case Revealed => Revealed
  }

  /** `flag`, the right-click handler of the square `idx`. */
  function FlagCell(s: State, idx: nat): (r: State)
    requires OnBoard(s, idx)
  {
    if s.isPlaying then s.(cells := s.cells[idx := NextMark(s.cells[idx])]) else s
  }

  // ---------------------------------------------------------------------------
  // Properties of the pure model.

  /** The neighbour list of a square holds exactly the squares of the grid at
      most one row and one column away, with no wrap-around across the grid's
      edges; it lists them once each, at most nine, and the square itself is one
      of them. */
  lemma NeighborIndicesFacts(s: State, idx: nat)
    requires OnBoard(s, idx)
    ensures Grid.Increasing(NeighborIndices(s, idx)) && |NeighborIndices(s, idx)| <= 9
    ensures idx in NeighborIndices(s, idx)
    ensures forall x: nat :: x in NeighborIndices(s, idx) <==>
              x < |s.cells| && Grid.Near(Grid.RowOf(x, s.width), Grid.ColOf(x, s.width),
                                         Grid.RowOf(idx, s.width), Grid.ColOf(idx, s.width))
  {
    Grid.WidthPositive(idx, s.height, s.width);
    Grid.NeighboursFacts(idx, s.height, s.width, true);
    Grid.WindowCentre(idx, s.height, s.width, true);
    Grid.WindowMembership(Grid.RowOf(idx, s.width), Grid.ColOf(idx, s.width), s.height, s.width, true);
  }

  /** The count of a square is the number of mines among its true neighbours
      (at most eight squares) plus the square's own mine; for a square without a
      mine it is just the number of neighbouring mines. */
  lemma SurroundingsCountsNeighbours(s: State, idx: nat)
    requires OnBoard(s, idx)
    ensures var trueNbrs := Grid.Neighbours(idx, s.height, s.width, false);
      && Grid.IndicesIn(trueNbrs, |s.mines|) && |trueNbrs| <= 8
      && Surroundings(s, idx) == Grid.Sum(trueNbrs, s.mines) + s.mines[idx]
      && 0 <= Grid.Sum(trueNbrs, s.mines) <= 8
      && (s.mines[idx] == 0 ==> Surroundings(s, idx) == Grid.Sum(trueNbrs, s.mines))
  {
    Grid.WidthPositive(idx, s.height, s.width);
    Grid.NeighboursFacts(idx, s.height, s.width, false);
    Grid.SumWithCentre(idx, s.height, s.width, s.mines);
    Grid.SumBound(Grid.Neighbours(idx, s.height, s.width, false), s.mines);
  }

  /** No square that holds a mine is ever reached by a flood fill that starts on
      a square without one: the search spreads only from squares whose
      neighbourhood is free of mines. */
  lemma RegionMineFree(s: State, start: nat)
    requires OnBoard(s, start) && s.mines[start] == 0
    ensures forall k :: k in Region(s, start) ==> 0 <= k < |s.mines| && s.mines[k] == 0
  {
    Grid.WidthPositive(start, s.height, s.width);
    var safe := set k | 0 <= k < |s.mines| && s.mines[k] == 0;
    forall k: nat | k in safe && Flood.SpreadsFrom(k, Spreads(s))
      ensures forall j :: j in Grid.Neighbours(k, s.height, s.width, true) ==> j in safe
    {
      Grid.NeighboursFacts(k, s.height, s.width, true);
      Grid.SumZero(NeighborIndices(s, k), s.mines);
    }
    Flood.RegionLeast(start, safe, Spreads(s), s.height, s.width, true);
  }

  /** The flood fill depends on the mines only, so running it twice from the same
      square changes nothing the first run did not. */
  lemma OpenBlanksIdempotent(s: State, start: nat)
    requires OnBoard(s, start)
    ensures BlanksOpened(BlanksOpened(s, start), start) == BlanksOpened(s, start)
  {
    var once := BlanksOpened(s, start);
    assert Spreads(once) == Spreads(s);
    assert Region(once, start) == Region(s, start);
  }

  /** Whether a mine is showing: some revealed square holds a mine. */
  predicate MineShowing(s: State)
    requires WellFormed(s)
  {
    exists k :: 0 <= k < |s.cells| && s.cells[k] == Revealed && s.mines[k] != 0
  }

  /** The game goes on exactly as long as no mine is showing. */
  predicate Sound(s: State)
  {
    WellFormed(s) && (s.isPlaying <==> !MineShowing(s))
  }

  /** Every click keeps the game sound: the board stops answering clicks exactly
      when the click shows a mine, and a square the flood fill reveals never
      holds one. */
  lemma {:induction false} ClickKeepsSound(s: State, idx: nat)
    requires OnBoard(s, idx) && Sound(s)
    ensures Sound(Click(s, idx))
    decreases if s.cells[idx] == Revealed then 2 else 0, 0
  {
    if s.isPlaying {
      if s.cells[idx] == Revealed {
        if FlagCount(s, idx) == Surroundings(s, idx) {
          ChordKeepsSound(s, NeighborIndices(s, idx));
        }
      } else if !HasFlagClass(s.cells[idx]) {
        var s' := s.(cells := s.cells[idx := Revealed]);
        if s.mines[idx] != 0 {
          assert s'.cells[idx] == Revealed;
        } else {
          assert !MineShowing(s');
          if NumberText(Surroundings(s', idx)) == "" {
            var r := BlanksOpened(s', idx);
            assert !MineShowing(r);
          }
        }
      }
    }
  }

  lemma {:induction false} ChordKeepsSound(s: State, nbrs: seq<int>)
    requires WellFormed(s) && Grid.IndicesIn(nbrs, |s.cells|) && Sound(s)
    ensures Sound(Chord(s, nbrs))
    decreases 1, |nbrs|
  {
    if nbrs != [] {
      var init := nbrs[..|nbrs| - 1];
      ChordKeepsSound(s, init);
      var s' := Chord(s, init);
      var n := nbrs[|nbrs| - 1];
      if s'.cells[n] == Default {
        ClickKeepsSound(s', n);
      }
    }
  }

  /** A click never hides a square again: every revealed square stays revealed. */
  lemma {:induction false} ClickKeepsRevealed(s: State, idx: nat)
    requires OnBoard(s, idx)
    ensures forall k :: 0 <= k < |s.cells| && s.cells[k] == Revealed ==> Click(s, idx).cells[k] == Revealed
    decreases if s.cells[idx] == Revealed then 2 else 0, 0
  {
    if s.isPlaying && s.cells[idx] == Revealed && FlagCount(s, idx) == Surroundings(s, idx) {
      ChordKeepsRevealed(s, NeighborIndices(s, idx));
    }
  }

  lemma {:induction false} ChordKeepsRevealed(s: State, nbrs: seq<int>)
    requires WellFormed(s) && Grid.IndicesIn(nbrs, |s.cells|)
    ensures forall k :: 0 <= k < |s.cells| && s.cells[k] == Revealed ==> Chord(s, nbrs).cells[k] == Revealed
    decreases 1, |nbrs|
  {
    if nbrs != [] {
      var init := nbrs[..|nbrs| - 1];
      ChordKeepsRevealed(s, init);
      var s' := Chord(s, init);
      var n := nbrs[|nbrs| - 1];
      if s'.cells[n] == Default {
        ClickKeepsRevealed(s', n);
      }
    }
  }

  /** Clicking a square whose count is 0 and that holds no mine reveals every
      mine-free square the flood fill from it reaches. */
  lemma ClickOnBlankOpensRegion(s: State, idx: nat)
    requires OnBoard(s, idx) && s.isPlaying && s.cells[idx] == Default
    requires s.mines[idx] == 0 && Surroundings(s, idx) == 0
    ensures forall k :: k in Region(s, idx) ==> 0 <= k < |s.cells| && Click(s, idx).cells[k] == Revealed
  {
    RegionMineFree(s, idx);
    var s' := s.(cells := s.cells[idx := Revealed]);
    forall k | 0 <= k < |s.cells|
      ensures Spreads(s')[k] == Spreads(s)[k]
    {
      SurroundingsSameBoard(s, s', k);
    }
    assert Spreads(s') == Spreads(s);
    assert Region(s', idx) == Region(s, idx);
    SurroundingsSameBoard(s, s', idx);
    assert Click(s, idx) == BlanksOpened(s', idx);
  }

  /** On a revealed square of a game still going, the chord test of `reveal`
      compares the flags among the square's true neighbours with the mines among
      them: the square itself, revealed and mine-free, adds nothing to either count. */
  lemma ChordTest(s: State, idx: nat)
    requires OnBoard(s, idx) && Sound(s) && s.isPlaying && s.cells[idx] == Revealed
    ensures var trueNbrs := Grid.Neighbours(idx, s.height, s.width, false);
      && Grid.IndicesIn(trueNbrs, |s.cells|)
      && FlagCount(s, idx) == Grid.Sum(trueNbrs, FlagMarks(s.cells))
      && Surroundings(s, idx) == Grid.Sum(trueNbrs, s.mines)
  {
    Grid.WidthPositive(idx, s.height, s.width);
    Grid.SumWithCentre(idx, s.height, s.width, s.mines);
    Grid.SumWithCentre(idx, s.height, s.width, FlagMarks(s.cells));
  }

  /** Three right clicks bring a square that is not revealed back to its first
      state, through both marks. */
  lemma FlagCycle(s: State, idx: nat)
    requires OnBoard(s, idx) && s.isPlaying && s.cells[idx] != Revealed
    ensures FlagCell(s, idx).cells[idx] != s.cells[idx]
    ensures FlagCell(FlagCell(s, idx), idx).cells[idx] != s.cells[idx]
    ensures FlagCell(FlagCell(FlagCell(s, idx), idx), idx) == s
  {
    assert s.cells[idx := s.cells[idx]] == s.cells;
  }

  /** A right click changes nothing but the clicked square's mark: it never
      reveals a square or hides a revealed one, and does nothing once the game
      is over. */
  lemma FlagOnlyMarks(s: State, idx: nat)
    requires OnBoard(s, idx)
    ensures SameBoard(s, FlagCell(s, idx)) && FlagCell(s, idx).isPlaying == s.isPlaying
    ensures forall k :: 0 <= k < |s.cells| ==>
              (FlagCell(s, idx).cells[k] == Revealed <==> s.cells[k] == Revealed)
    ensures forall k :: 0 <= k < |s.cells| && k != idx ==> FlagCell(s, idx).cells[k] == s.cells[k]
    ensures !s.isPlaying ==> FlagCell(s, idx) == s
  {
  }

  /** Flagging keeps the game sound: it neither reveals nor hides a cell and
      leaves `isPlaying` alone. */
  lemma FlagKeepsSound(s: State, idx: nat)
    requires OnBoard(s, idx) && Sound(s)
    ensures Sound(FlagCell(s, idx))
  {
  }

  /** The game the constructor starts is sound: nothing is revealed yet and the
      game is playing. */
  lemma InitialSound(width: nat, height: nat, numMines: nat, draws: seq<int>)
    ensures var n := height * width;
      Sound(State(width, height, Values(Layout(n, MinesLaid(draws, numMines, n))), seq(n, _ => Default), true))
  {
  }

  // ---------------------------------------------------------------------------
  // Laying the mines.

  /** A value `Math.floor(Math.random() * n)` can take. */
  predicate Drawn(d: int, n: nat)
  {
    if n > 0 then 0 <= d < n else d == 0
  }

  /** Where `constructBoard` puts its mines, given the random indices it draws.
      On an empty grid every draw reads `undefined` past the end of the
      zero-length array, counts as laid, and its write is dropped. */
  function MinesLaid(draws: seq<int>, nMines: nat, n: nat): seq<int>
  {
    if n == 0 then [] else Sampling.Chosen(draws, nMines)
  }

  /** The draws suffice for `constructBoard` to lay all `nMines` mines. */
  predicate Completes(draws: seq<int>, nMines: nat, n: nat)
  {
    if n == 0 then nMines <= |draws| else Sampling.Enough(draws, nMines)
  }

  /** The mine array with a 1 on each square of `laid` and a 0 everywhere else. */
  function Layout(n: nat, laid: seq<int>): (board: seq<uint8>)
    ensures |board| == n
    ensures forall k :: 0 <= k < n ==> (board[k] == 1 <==> k in laid) && (board[k] == 0 <==> k !in laid)
  {
    seq(n, k => if k in laid then 1 else 0)
  }

  /** When every mine gets laid and there is room for them, exactly `nMines`
      entries of the mine array are 1. */
  lemma LayoutHoldsAllMines(draws: seq<int>, nMines: nat, n: nat)
    requires forall t :: 0 <= t < |draws| ==> Drawn(draws[t], n)
    requires Completes(draws, nMines, n) && nMines <= n
    ensures |set k | 0 <= k < n && Layout(n, MinesLaid(draws, nMines, n))[k] == 1| == nMines
  {
    var laid := MinesLaid(draws, nMines, n);
    var ones := set k | 0 <= k < n && Layout(n, laid)[k] == 1;
    if n > 0 {
      Sampling.ChosenSize(draws, nMines);
      assert ones == set x | x in laid;
    } else {
      assert ones == {};
    }
  }

  /** Asking for more mines than squares on a non-empty grid never finishes,
      whatever the draws: `constructBoard` would keep drawing forever. */
  lemma OverfullNeverCompletes(draws: seq<int>, nMines: nat, n: nat)
    requires forall t :: 0 <= t < |draws| ==> Drawn(draws[t], n)
    requires 0 < n < nMines
    ensures !Completes(draws, nMines, n)
  {
    Sampling.NeverEnoughWhenOverfull(draws, nMines, n);
  }

  /** One more draw on a non-empty grid: it lays a mine exactly when its square
      is still 0 in the mine array, and then the array gets a 1 there. */
  lemma DrawStep(draws: seq<int>, pos: nat, n: nat)
    requires pos < |draws| && 0 <= draws[pos] < n
    ensures var before, x := Sampling.Dedup(draws[..pos]), draws[pos];
      && Sampling.Dedup(draws[..pos + 1]) == (if x in before then before else before + [x])
      && (x !in before ==> Layout(n, before + [x]) == Layout(n, before)[x := 1])
  {
    var x := draws[pos];
    assert draws[..pos + 1] == draws[..pos] + [x];
    Sampling.DedupSnoc(draws[..pos], x);
  }

  /** The mine array after the draws before `pos` have laid `laid` mines. On an
      empty grid every draw lays a mine that goes nowhere. */
  predicate LaidSoFar(board: seq<uint8>, draws: seq<int>, pos: nat, laid: nat)
    requires pos <= |draws|
  {
    if |board| == 0 then pos == laid
    else |Sampling.Dedup(draws[..pos])| == laid && board == Layout(|board|, Sampling.Dedup(draws[..pos]))
  }

  /** While the mines laid are those of the draws before `pos`, the square of
      the next draw holds a mine exactly when that draw repeats an earlier one. */
  lemma TakenIffDrawn(board: seq<uint8>, draws: seq<int>, pos: nat, laid: nat)
    requires pos < |draws| && |board| > 0 && Drawn(draws[pos], |board|)
    requires LaidSoFar(board, draws, pos, laid)
    ensures board[draws[pos]] == 1 <==> draws[pos] in draws[..pos]
    ensures board[draws[pos]] == 0 <==> draws[pos] !in draws[..pos]
  {
  }

  /** One draw of the inner loop of `constructBoard`: it lays a mine exactly when
      its square reads 0 or lies past the end of the array, and writes a 1 there
      when it lies inside. */
  lemma DrawKeepsLaid(board: seq<uint8>, draws: seq<int>, pos: nat, laid: nat, board': seq<uint8>)
    requires pos < |draws| && Drawn(draws[pos], |board|)
    requires LaidSoFar(board, draws, pos, laid)
    requires var x := draws[pos];
      board' == if x < |board| && board[x] == 0 then board[x := 1] else board
    ensures var x := draws[pos];
      LaidSoFar(board', draws, pos + 1, laid + (if x >= |board| || board[x] == 0 then 1 else 0))
  {
    if |board| > 0 {
      DrawStep(draws, pos, |board|);
    }
  }

  /** The entries of a `Uint8Array` as numbers. */
  function Values(a: seq<uint8>): (v: seq<int>)
    ensures |v| == |a| && forall k :: 0 <= k < |a| ==> v[k] == a[k] as int
  {
    seq(|a|, k requires 0 <= k < |a| => a[k] as int)
  }

  // ---------------------------------------------------------------------------
  // The class.

  /** The game object of minesweeper.js. */
  class Minesweeper {
    const width: nat
    const height: nat
    const numMines: nat
    /** `this.game`: 1 on each square holding a mine, 0 elsewhere. */
    const game: array<uint8>
    /** The squares' DOM elements, row after row. */
    const cells: array<Cell>
    var isPlaying: bool

    ghost predicate Valid()
      reads this, game, cells
    {
      game.Length == height * width && cells.Length == height * width
      && forall k :: 0 <= k < game.Length ==> game[k] <= 1
    }

    /** The game as a value. */
    ghost function Model(): (s: State)
      reads this, game, cells
      ensures Valid() ==> WellFormed(s)
    {
      State(width, height, Values(game[..]), cells[..], isPlaying)
    }

    /** The mines are laid by `constructBoard` from the random indices `draws`; every
        square starts with class 'default' and the game starts. */
    constructor(width: nat, height: nat, numMines: nat, draws: seq<int>)
      requires forall t :: 0 <= t < |draws| ==> Drawn(draws[t], height * width)
      ensures Valid() && fresh(game) && fresh(cells)
      ensures Model() == State(width, height, Values(Layout(height * width, MinesLaid(draws, numMines, height * width))),
                               seq(height * width, _ => Default), true)
    {
      this.isPlaying := true;
      this.width := width;
      this.height := height;
      this.numMines := numMines;
      var board, complete := ConstructBoard(height, width, numMines, draws);
      this.game := board;
      this.cells := new Cell[height * width](_ => Default);
    }

    /** `constructBoard`: lay `nMines` mines, each at the first drawn index that
        holds none yet. `complete` is false when the draws run out first, where
        the source would go on drawing. */
    static method ConstructBoard(height: nat, width: nat, nMines: nat, draws: seq<int>)
      returns (board: array<uint8>, complete: bool)
      requires forall t :: 0 <= t < |draws| ==> Drawn(draws[t], height * width)
      ensures fresh(board)
      ensures board[..] == Layout(height * width, MinesLaid(draws, nMines, height * width))
      ensures complete <==> Completes(draws, nMines, height * width)
    {
      board := new uint8[height * width](_ => 0);
      ghost var n := height * width;
      var pos := 0;
      complete := true;
      var i := 0;
      while i < nMines
        invariant 0 <= i <= nMines && 0 <= pos <= |draws|
        invariant board.Length == n
        invariant LaidSoFar(board[..], draws, pos, i)
      {
        var layed;
        pos, layed := DrawUntilLaid(board, draws, pos, i);
        if !layed {
          complete := false;
          break;
        }
        i := i + 1;
      }
      if n > 0 {
        Sampling.StopsAt(draws, pos, nMines, complete);
      }
    }
  
    /** The inner loop of `constructBoard`: draw from position `pos` on until a
        draw finds its square without a mine, and lay one there. `layed` is false
        when the draws run out first. Every draw before the one that lays a mine
        repeats an earlier draw, and the one that lays it is new, unless the
        array is empty and every draw lands past its end. */
    static method DrawUntilLaid(board: array<uint8>, draws: seq<int>, pos: nat, ghost laid: nat)
      returns (pos': nat, layed: bool)
      requires pos <= |draws| && forall t :: 0 <= t < |draws| ==> Drawn(draws[t], board.Length)
      requires LaidSoFar(board[..], draws, pos, laid)
      modifies board
      ensures pos <= pos' <= |draws| && (!layed ==> pos' == |draws|)
      ensures LaidSoFar(board[..], draws, pos', laid + (if layed then 1 else 0))
      ensures !layed ==> Sampling.Repeats(draws, pos, pos')
      ensures layed ==> pos < pos' && Sampling.Repeats(draws, pos, pos' - 1)
                        && (board.Length == 0 || draws[pos' - 1] !in draws[..pos' - 1])
    {
      pos' := pos;
      layed := false;
      while !layed && pos' < |draws|
        invariant pos <= pos' <= |draws|
        invariant LaidSoFar(board[..], draws, pos', laid + (if layed then 1 else 0))
        invariant !layed ==> Sampling.Repeats(draws, pos, pos')
        invariant layed ==> pos < pos' && Sampling.Repeats(draws, pos, pos' - 1)
                            && (board.Length == 0 || draws[pos' - 1] !in draws[..pos' - 1])
      {
        layed := DrawOnce(board, draws, pos', laid);
        pos' := pos' + 1;
      }
    }

    /** One pass of that loop, on the draw at `pos`: lay a mine on its square
        when the square reads 0 or lies past the end of the array (an index
        there reads `undefined`, and the write is dropped). */
    static method DrawOnce(board: array<uint8>, draws: seq<int>, pos: nat, ghost laid: nat) returns (layed: bool)
      requires pos < |draws| && Drawn(draws[pos], board.Length)
      requires LaidSoFar(board[..], draws, pos, laid)
      modifies board
      ensures layed <==> board.Length == 0 || draws[pos] !in draws[..pos]
      ensures LaidSoFar(board[..], draws, pos + 1, laid + (if layed then 1 else 0))
    {
      var mineIndex := draws[pos];
      ghost var before := board[..];
      if board.Length > 0 {
        TakenIffDrawn(before, draws, pos, laid);
      }
      layed := false;
      if mineIndex >= board.Length || board[mineIndex] == 0 {
        if mineIndex < board.Length {
          board[mineIndex] := 1;
        }
        layed := true;
      }
      DrawKeepsLaid(before, draws, pos, laid, board[..]);
    }

    /** `gameIndex`: the index in `game` of the square at `row`, `col`. */
    function GameIndex(row: int, col: int): int
    {
      Grid.Index(row, col, width)
    }

    /** What a click handler computes from `this.id`: the square's index. */
    function IdIndex(id: string): (idx: nat)
      requires Text.IsSquareId(id, height, width)
      ensures idx < height * width
    {
      var (row, col) := Text.ParseId(id);
      Grid.IndexRoundTrip(row, col, height, width);
      GameIndex(row, col)
    }

    /** `idFromIndex`: the element id of the square with index `gameIndex`; a
        click handler reading it gets `gameIndex` back. */
    function IdFromIndex(gameIndex: nat): (id: string)
      requires gameIndex < height * width
      ensures Text.IsSquareId(id, height, width) && IdIndex(id) == gameIndex
    {
      Grid.WidthPositive(gameIndex, height, width);
      Grid.CoordsRoundTrip(gameIndex, height, width);
      Text.IdRoundTrip(gameIndex / width, gameIndex % width);
      Text.Id(gameIndex / width, gameIndex % width)
    }

    /** For a square on the board, `gameIndex` lies in [0, width*height), and
        `idFromIndex` of it is the square's element id, which parses back to its
        row and column. */
    lemma IdOfGameIndex(row: int, col: int)
      requires Grid.InBounds(row, col, height, width)
      ensures 0 <= GameIndex(row, col) < height * width
      ensures IdFromIndex(GameIndex(row, col)) == Text.Id(row, col)
      ensures Text.ParseId(IdFromIndex(GameIndex(row, col))) == (row, col)
    {
      Grid.IndexRoundTrip(row, col, height, width);
      Text.IdRoundTrip(row, col);
    }

    /** `getNeighborIndices`: the in-bounds squares of the 3x3 window around
        `startIndex`, itself included, in the order of the nested loops. */
    method GetNeighborIndices(startIndex: nat) returns (neighbors: seq<int>)
      requires width > 0
      ensures neighbors == Grid.Neighbours(startIndex, height, width, true)
    {
      neighbors := [];
      var row := Grid.RowOf(startIndex, width);
      var col := Grid.ColOf(startIndex, width);
      var i := -1;
      while i <= 1
        invariant -1 <= i <= 2
        invariant neighbors == Grid.WindowPrefix(row, col, i, height, width, true)
      {
        var j := -1;
        while j <= 1
          invariant -1 <= j <= 2
          invariant neighbors == Grid.WindowPrefix(row, col, i, height, width, true)
                                 + Grid.RowPrefix(row, col, i, j, height, width, true)
        {
          var checkRow := row + i;
          var checkCol := col + j;
          ghost var before := neighbors;
          if checkRow >= 0 && checkRow < height && checkCol >= 0 && checkCol < width {
            neighbors := neighbors + [GameIndex(checkRow, checkCol)];
          }
          assert neighbors == before + Grid.Cell(row, col, i, j, height, width, true);
          assert Grid.RowPrefix(row, col, i, j + 1, height, width, true)
              == Grid.RowPrefix(row, col, i, j, height, width, true) + Grid.Cell(row, col, i, j, height, width, true);
          j := j + 1;
        }
        assert Grid.WindowPrefix(row, col, i + 1, height, width, true)
            == Grid.WindowPrefix(row, col, i, height, width, true) + Grid.RowPrefix(row, col, i, 2, height, width, true);
        i := i + 1;
      }
    }

    /** `getSurroundings`: adds up `game` over the neighbour list. */
    method GetSurroundings(squareIndex: nat) returns (surroundings: int)
      requires Valid() && squareIndex < height * width
      ensures surroundings == Surroundings(Model(), squareIndex)
    {
      Grid.WidthPositive(squareIndex, height, width);
      var neighbors := GetNeighborIndices(squareIndex);
      ghost var mines := Model().mines;
      assert neighbors == NeighborIndices(Model(), squareIndex);
      surroundings := 0;
      var ii := 0;
      while ii < |neighbors|
        invariant 0 <= ii <= |neighbors|
        invariant surroundings == Grid.Sum(neighbors[..ii], mines)
      {
        assert neighbors[..ii + 1][..ii] == neighbors[..ii];
        surroundings := surroundings + game[neighbors[ii]] as int;
        ii := ii + 1;
      }
      assert neighbors[..ii] == neighbors;
    }

    /** `getFlags`: counts the squares of the neighbour list whose class is 'flagged'. */
    method GetFlags(index: nat) returns (nFlags: int)
      requires Valid() && index < height * width
      ensures nFlags == FlagCount(Model(), index)
    {
      Grid.WidthPositive(index, height, width);
      var neighbors := GetNeighborIndices(index);
      ghost var marks := FlagMarks(cells[..]);
      assert neighbors == NeighborIndices(Model(), index);
      nFlags := 0;
      var ii := 0;
      while ii < |neighbors|
        invariant 0 <= ii <= |neighbors|
        invariant nFlags == Grid.Sum(neighbors[..ii], marks)
      {
        assert neighbors[..ii + 1][..ii] == neighbors[..ii];
        var neighbor := neighbors[ii];
        if HasFlagClass(cells[neighbor]) {
          nFlags := nFlags + 1;
        }
        ii := ii + 1;
      }
      assert neighbors[..ii] == neighbors;
    }

    /** `revealNumbered`: the text shown on a revealed square without a mine. */
    method RevealNumbered(index: nat) returns (text: string)
      requires Valid() && index < height * width
      ensures text == NumberText(Surroundings(Model(), index))
    {
      var surroundings := GetSurroundings(index);
      text := if surroundings > 0 then Text.Decimal(surroundings) else "";
    }

    /** `explode`: the board stops answering clicks. */
    method Explode()
      requires Valid()
      modifies this
      ensures Valid() && Model() == Exploded(old(Model()))
    {
      isPlaying := false;
    }

    /** `revealSquare`, the flood fill's narrower reveal. */
    method RevealSquare(index: nat)
      requires Valid() && index < height * width
      modifies this, cells
      ensures Valid() && Model() == SquareRevealed(old(Model()), index)
    {
      cells[index] := Revealed;
      var isMine := game[index];
      if isMine != 0 {
        Explode();
      } else {
        var text := RevealNumbered(index);
      }
    }

    /** `flag`, the right-click handler of the square whose element id is `id`. */
    method Flag(id: string)
      requires Valid() && Text.IsSquareId(id, height, width)
      modifies cells
      ensures Valid() && Model() == FlagCell(old(Model()), IdIndex(id))
    {
      if isPlaying {
        // `parseInt` of the two halves of `this.id`, then `gameIndex`
        var index := IdIndex(id);
        if cells[index] == Default {
          cells[index] := Flagged;
        } else if HasFlagClass(cells[index]) {
          if cells[index] == Flagged {
            cells[index] := Questioned;
          } else {
            cells[index] := Default;
          }
        }
      }
    }
  
    /** `openBlanks`: a breadth-first search from `startIndex` over the FIFO queue
        `toVisit` and the set `visited`. Each dequeued square without a mine is
        revealed, and a dequeued square enqueues its neighbours not yet in
        `visited` only when its count is 0. `dequeues` counts the squares taken
        off the queue. */
    method OpenBlanks(startIndex: nat) returns (ghost dequeues: nat)
      requires Valid() && startIndex < height * width
      modifies this, cells
      ensures Valid() && Model() == BlanksOpened(old(Model()), startIndex)
      ensures dequeues <= height * width + 1
    {
      Grid.WidthPositive(startIndex, height, width);
      ghost var s0 := Model();
      ghost var n := height * width;
      var toVisit := [startIndex];
      var visited: set<int> := {};
      ghost var done: set<int> := {};
      dequeues := 0;
      Flood.SearchStart(startIndex, Spreads(s0), height, width, true);
      while |toVisit| > 0
        invariant Valid() && Model() == BlanksRevealed(s0, done)
        invariant Flood.Searching(startIndex, toVisit, visited, done, dequeues, Spreads(s0), height, width, true)
        invariant visited <= Grid.Cells(n)
        decreases Grid.Cells(n) - visited, |toVisit|
      {
        ghost var visited0 := visited;
        toVisit, visited, done := Visit(s0, startIndex, toVisit, visited, done, dequeues);
        dequeues := dequeues + 1;
        assert visited != visited0 ==> Grid.Cells(n) - visited < Grid.Cells(n) - visited0;
      }
      Flood.SearchEnd(startIndex, visited, done, dequeues, Spreads(s0), height, width, true);
    }

    /** One turn of the `openBlanks` loop: take the head of the queue, reveal it
        when it holds no mine, then push its neighbours not in `visited` when its
        count is 0. In terms of the search, the head joins the dequeued squares
        `done`, and the bookkeeping of the search is kept. */
    method Visit(ghost s0: State, startIndex: nat, toVisit: seq<int>, visited: set<int>,
                 ghost done: set<int>, ghost dequeues: nat)
      returns (toVisit': seq<int>, visited': set<int>, ghost done': set<int>)
      requires Valid() && WellFormed(s0) && startIndex < height * width && toVisit != []
      requires s0.width == width && s0.height == height
      requires Model() == BlanksRevealed(s0, done)
      requires Flood.Searching(startIndex, toVisit, visited, done, dequeues, Spreads(s0), height, width, true)
      modifies this, cells
      ensures Valid() && Model() == BlanksRevealed(s0, done')
      ensures Flood.Searching(startIndex, toVisit', visited', done', dequeues + 1, Spreads(s0), height, width, true)
      ensures visited <= visited' <= Grid.Cells(height * width)
      ensures visited' == visited ==> |toVisit'| < |toVisit|
    {
      Grid.WidthPositive(startIndex, height, width);
      ghost var spreads := Spreads(s0);
      Flood.SearchOnGrid(startIndex, toVisit, visited, done, dequeues, spreads, height, width, true);
      var currIndex := toVisit[0];
      toVisit' := toVisit[1..];
      BlanksRevealedAdd(s0, done, currIndex);
      if game[currIndex] == 0 {
        RevealSquare(currIndex);
      }
      done' := done + {currIndex};
      var neighbors := GetNeighborIndices(currIndex);
      SurroundingsSameBoard(s0, Model(), currIndex);
      toVisit', visited' := PushNeighbours(currIndex, neighbors, toVisit', visited);
      Flood.SearchStep(startIndex, toVisit, visited, done, dequeues, spreads, height, width, true);
      Flood.EnqueueFacts(toVisit[1..], visited, neighbors);
      Flood.SearchOnGrid(startIndex, toVisit', visited', done', dequeues + 1, spreads, height, width, true);
    }

    /** The inner loop of `openBlanks`: each square of `neighbors` not in `visited`
        is pushed on the queue and recorded, as long as the dequeued square
        `currIndex` has count 0; otherwise nothing is pushed. */
    method PushNeighbours(currIndex: nat, neighbors: seq<int>, queue: seq<int>, visited: set<int>)
      returns (queue': seq<int>, visited': set<int>)
      requires Valid() && currIndex < height * width
      ensures Surroundings(Model(), currIndex) == 0 ==> (queue', visited') == Flood.Enqueue(queue, visited, neighbors)
      ensures Surroundings(Model(), currIndex) != 0 ==> queue' == queue && visited' == visited
    {
      queue', visited' := queue, visited;
      var ii := 0;
      while ii < |neighbors|
        invariant 0 <= ii <= |neighbors|
        invariant Surroundings(Model(), currIndex) == 0 ==> (queue', visited') == Flood.Enqueue(queue, visited, neighbors[..ii])
        invariant Surroundings(Model(), currIndex) != 0 ==> queue' == queue && visited' == visited
      {
        Flood.EnqueueSnoc(queue, visited, neighbors, ii);
        var neighbor := neighbors[ii];
        if neighbor !in visited' {
          var surroundings := GetSurroundings(currIndex);
          if surroundings == 0 {
            queue' := queue' + [neighbor];
            visited' := visited' + {neighbor};
          }
        }
        ii := ii + 1;
      }
      assert neighbors[..ii] == neighbors;
    }

    /** `openNumbered`: clicks, front to back, every square of the neighbour list
        whose class is 'default' at its turn. */
    method OpenNumbered(squareIndex: nat)
      requires Valid() && squareIndex < height * width
      modifies this, cells
      ensures Valid() && Model() == Chord(old(Model()), NeighborIndices(old(Model()), squareIndex))
      decreases 1
    {
      Grid.WidthPositive(squareIndex, height, width);
      ghost var s0 := Model();
      var neighbors := GetNeighborIndices(squareIndex);
      assert neighbors == NeighborIndices(s0, squareIndex);
      var ii := 0;
      while ii < |neighbors|
        invariant 0 <= ii <= |neighbors|
        invariant Valid() && Model() == Chord(s0, neighbors[..ii])
      {
        ChordSnoc(s0, neighbors, ii);
        var neighbor := neighbors[ii];
        if cells[neighbor] == Default {
          // `click()` on the neighbour's element runs `reveal` with that element's id
          var id := IdFromIndex(neighbor);
          Reveal(id);
        }
        ii := ii + 1;
      }
      assert neighbors[..ii] == neighbors;
    }

    /** `reveal`, the click handler of the square whose element id is `id`. */
    method Reveal(id: string)
      requires Valid() && Text.IsSquareId(id, height, width)
      modifies this, cells
      ensures Valid() && Model() == Click(old(Model()), IdIndex(id))
      decreases if cells[IdIndex(id)] == Revealed then 2 else 0
    {
      if isPlaying {
        // `parseInt` of the two halves of `this.id`, then `gameIndex`
        var thisIndex := IdIndex(id);
        if cells[thisIndex] == Revealed {
          var numFlags := GetFlags(thisIndex);
          var surroundings := GetSurroundings(thisIndex);
          if numFlags == surroundings {
            OpenNumbered(thisIndex);
          }
        } else if !HasFlagClass(cells[thisIndex]) {
          cells[thisIndex] := Revealed;
          var isMine := game[thisIndex];
          if isMine != 0 {
            Explode();
          } else {
            var surroundings := RevealNumbered(thisIndex);
            if surroundings == "" {
              ghost var dequeues := OpenBlanks(thisIndex);
            }
          }
        }
      }
    }
  }
}
