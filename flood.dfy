/** The squares a breadth-first flood fill over the grid opens. Both drafts run
    the same search: start from one square, and from every dequeued square whose
    neighbourhood holds no mine ("spreads") enqueue each neighbour not enqueued
    before. Whatever the order of the queue, the squares dequeued are exactly the
    least set that holds the start and every neighbour of each of its spreading
    squares; `Region` is that set. */
module Flood {

  import Grid

  /** The search spreads from square `k`. */
  predicate SpreadsFrom(k: int, spreads: seq<bool>)
  {
    0 <= k < |spreads| && spreads[k]
  }

  /** `F` holds every neighbour of each of its spreading squares. */
  ghost predicate Closed(F: set<int>, spreads: seq<bool>, height: nat, width: nat, withCentre: bool)
    requires width > 0
  {
    forall k: nat :: k in F && SpreadsFrom(k, spreads) ==>
      forall j :: j in Grid.Neighbours(k, height, width, withCentre) ==> j in F
  }

  /** One round of spreading: `F` together with the neighbours of its spreading squares. */
  ghost function Step(F: set<int>, spreads: seq<bool>, height: nat, width: nat, withCentre: bool): (r: set<int>)
    requires width > 0
    ensures F <= r
  {
    F + (set k: nat, j | k in F && SpreadsFrom(k, spreads) && j in Grid.Neighbours(k, height, width, withCentre) :: j)
  }

  /** A round of spreading stays on the grid. */
  lemma StepInCells(F: set<int>, spreads: seq<bool>, height: nat, width: nat, withCentre: bool)
    requires width > 0 && F <= Grid.Cells(height * width)
    ensures Step(F, spreads, height, width, withCentre) <= Grid.Cells(height * width)
  {
    forall k: nat | k in F && SpreadsFrom(k, spreads)
      ensures forall j :: j in Grid.Neighbours(k, height, width, withCentre) ==> j in Grid.Cells(height * width)
    {
      Grid.NeighboursFacts(k, height, width, withCentre);
    }
  }

  /** A set that one round of spreading does not grow is closed. */
  lemma FixedIsClosed(F: set<int>, spreads: seq<bool>, height: nat, width: nat, withCentre: bool)
    requires width > 0 && Step(F, spreads, height, width, withCentre) == F
    ensures Closed(F, spreads, height, width, withCentre)
  {
    forall k: nat, j | k in F && SpreadsFrom(k, spreads) && j in Grid.Neighbours(k, height, width, withCentre)
      ensures j in F
    {
      assert j in Step(F, spreads, height, width, withCentre);
    }
  }

  /** Spreading from `F` until nothing new is reached. */
  ghost function Closure(F: set<int>, spreads: seq<bool>, height: nat, width: nat, withCentre: bool): (c: set<int>)
    requires width > 0 && F <= Grid.Cells(height * width)
    ensures F <= c <= Grid.Cells(height * width)
    ensures Closed(c, spreads, height, width, withCentre)
    decreases Grid.Cells(height * width) - F
  {
    var next := Step(F, spreads, height, width, withCentre);
    StepInCells(F, spreads, height, width, withCentre);
    if next == F then
      FixedIsClosed(F, spreads, height, width, withCentre);
      F
    else
      Closure(next, spreads, height, width, withCentre)
  }

  /** Spreading from `F` never leaves a closed set that holds `F`. */
  lemma {:induction false} ClosureLeast(F: set<int>, G: set<int>, spreads: seq<bool>, height: nat, width: nat, withCentre: bool)
    requires width > 0 && F <= Grid.Cells(height * width)
    requires F <= G && Closed(G, spreads, height, width, withCentre)
    ensures Closure(F, spreads, height, width, withCentre) <= G
    decreases Grid.Cells(height * width) - F
  {
    var next := Step(F, spreads, height, width, withCentre);
    StepInCells(F, spreads, height, width, withCentre);
    if next != F {
      assert next <= G;
      ClosureLeast(next, G, spreads, height, width, withCentre);
    }
  }

  /** The squares a flood fill from `start` dequeues. */
  ghost function Region(start: nat, spreads: seq<bool>, height: nat, width: nat, withCentre: bool): (r: set<int>)
    requires width > 0 && start < height * width
    ensures start in r && r <= Grid.Cells(height * width)
    ensures Closed(r, spreads, height, width, withCentre)
  {
    Closure({start}, spreads, height, width, withCentre)
  }

  /** The region is the least closed set holding the start: any closed set that
      holds the start holds the whole region. */
  lemma RegionLeast(start: nat, G: set<int>, spreads: seq<bool>, height: nat, width: nat, withCentre: bool)
    requires width > 0 && start < height * width
    requires start in G && Closed(G, spreads, height, width, withCentre)
    ensures Region(start, spreads, height, width, withCentre) <= G
  {
    ClosureLeast({start}, G, spreads, height, width, withCentre);
  }

  // ---------------------------------------------------------------------------
  // The search itself: a FIFO queue and the set of squares ever enqueued.

  /** The inner loop of a dequeue: each square of `nbrs`, in order, that is not
      in `visited` yet is pushed on the queue and recorded in `visited`. */
  function Enqueue(queue: seq<int>, visited: set<int>, nbrs: seq<int>): (seq<int>, set<int>)
  {
    if nbrs == [] then (queue, visited)
    else
      var (q, v) := Enqueue(queue, visited, nbrs[..|nbrs| - 1]);
      var x := nbrs[|nbrs| - 1];
      if x in v then (q, v) else (q + [x], v + {x})
  }

  /** Enqueueing one more square of the list. */
  lemma EnqueueSnoc(queue: seq<int>, visited: set<int>, nbrs: seq<int>, i: nat)
    requires i < |nbrs|
    ensures Enqueue(queue, visited, nbrs[..i + 1])
         == var (q, v) := Enqueue(queue, visited, nbrs[..i]);
            if nbrs[i] in v then (q, v) else (q + [nbrs[i]], v + {nbrs[i]})
  {
    assert nbrs[..i + 1][..i] == nbrs[..i];
  }

  /** Enqueueing records exactly the listed squares, pushes only listed squares,
      pushes every listed square that was not recorded before, and pushes as many
      squares as it records. */
  lemma {:induction false} EnqueueFacts(queue: seq<int>, visited: set<int>, nbrs: seq<int>)
    ensures Enqueue(queue, visited, nbrs).1 == visited + (set x | x in nbrs)
    ensures forall x :: x in Enqueue(queue, visited, nbrs).0 ==> x in queue || x in nbrs
    ensures forall x :: x in queue ==> x in Enqueue(queue, visited, nbrs).0
    ensures forall x :: x in nbrs && x !in visited ==> x in Enqueue(queue, visited, nbrs).0
    ensures |Enqueue(queue, visited, nbrs).0| + |visited| == |queue| + |Enqueue(queue, visited, nbrs).1|
  {
    if nbrs != [] {
      var init := nbrs[..|nbrs| - 1];
      EnqueueFacts(queue, visited, init);
      assert nbrs == init + [nbrs[|nbrs| - 1]];
    }
  }

  /** The bookkeeping of a search from `start` after `dequeues` squares came off
      the queue, `done` being the set of those squares: everything recorded lies
      in the region; the queue holds the start or recorded squares; every
      recorded square is dequeued or still queued; every spreading square dequeued
      has had all its neighbours recorded; and each recorded square was pushed once. */
  ghost predicate Searching(start: nat, queue: seq<int>, visited: set<int>, done: set<int>, dequeues: nat,
                            spreads: seq<bool>, height: nat, width: nat, withCentre: bool)
    requires width > 0 && start < height * width
  {
    visited <= Region(start, spreads, height, width, withCentre)
    && (forall x :: x in queue ==> x == start || x in visited)
    && done <= visited + {start}
    && (forall x :: x in visited + {start} ==> x in done || x in queue)
    && (forall x: nat :: x in done && SpreadsFrom(x, spreads) ==>
          forall j :: j in Grid.Neighbours(x, height, width, withCentre) ==> j in visited)
    && dequeues + |queue| == 1 + |visited|
  }

  /** The search starts with the start square queued and nothing recorded. */
  lemma SearchStart(start: nat, spreads: seq<bool>, height: nat, width: nat, withCentre: bool)
    requires width > 0 && start < height * width
    ensures Searching(start, [start], {}, {}, 0, spreads, height, width, withCentre)
  {
  }

  /** Every queued or recorded square is on the grid. */
  lemma SearchOnGrid(start: nat, queue: seq<int>, visited: set<int>, done: set<int>, dequeues: nat,
                     spreads: seq<bool>, height: nat, width: nat, withCentre: bool)
    requires width > 0 && start < height * width
    requires Searching(start, queue, visited, done, dequeues, spreads, height, width, withCentre)
    ensures visited <= Grid.Cells(height * width)
    ensures forall i :: 0 <= i < |queue| ==> 0 <= queue[i] < height * width
  {
    forall i | 0 <= i < |queue|
      ensures 0 <= queue[i] < height * width
    {
      assert queue[i] in queue;
    }
  }

  /** Taking the head of the queue, and enqueueing its neighbours when it spreads,
      keeps the bookkeeping. */
  lemma SearchStep(start: nat, queue: seq<int>, visited: set<int>, done: set<int>, dequeues: nat,
                   spreads: seq<bool>, height: nat, width: nat, withCentre: bool)
    requires width > 0 && start < height * width && queue != []
    requires Searching(start, queue, visited, done, dequeues, spreads, height, width, withCentre)
    ensures var next := if SpreadsFrom(queue[0], spreads)
                        then Enqueue(queue[1..], visited, Grid.Neighbours(queue[0], height, width, withCentre))
                        else (queue[1..], visited);
            Searching(start, next.0, next.1, done + {queue[0]}, dequeues + 1, spreads, height, width, withCentre)
  {
    assert queue == [queue[0]] + queue[1..];
    if SpreadsFrom(queue[0], spreads) {
      SpreadStep(start, queue, visited, done, dequeues, spreads, height, width, withCentre);
    } else {
      QuietStep(start, queue, visited, done, dequeues, spreads, height, width, withCentre);
    }
  }

  /** Dequeueing a spreading square and enqueueing its neighbours keeps the bookkeeping. */
  lemma SpreadStep(start: nat, queue: seq<int>, visited: set<int>, done: set<int>, dequeues: nat,
                   spreads: seq<bool>, height: nat, width: nat, withCentre: bool)
    requires width > 0 && start < height * width && queue != [] && SpreadsFrom(queue[0], spreads)
    requires queue == [queue[0]] + queue[1..]
    requires Searching(start, queue, visited, done, dequeues, spreads, height, width, withCentre)
    ensures var next := Enqueue(queue[1..], visited, Grid.Neighbours(queue[0], height, width, withCentre));
            Searching(start, next.0, next.1, done + {queue[0]}, dequeues + 1, spreads, height, width, withCentre)
  {
    var nbrs := Grid.Neighbours(queue[0], height, width, withCentre);
    EnqueueFacts(queue[1..], visited, nbrs);
    var next := Enqueue(queue[1..], visited, nbrs);
    SpreadKeeps(start, queue, visited, done, dequeues, next.0, next.1, spreads, height, width, withCentre);
  }

  /** The bookkeeping after dequeueing a spreading square, for any queue and
      record that relate to the old ones as enqueueing its neighbours does. */
  lemma SpreadKeeps(start: nat, queue: seq<int>, visited: set<int>, done: set<int>, dequeues: nat,
                    queue': seq<int>, visited': set<int>,
                    spreads: seq<bool>, height: nat, width: nat, withCentre: bool)
    requires width > 0 && start < height * width && queue != [] && SpreadsFrom(queue[0], spreads)
    requires queue == [queue[0]] + queue[1..]
    requires Searching(start, queue, visited, done, dequeues, spreads, height, width, withCentre)
    requires visited' == visited + (set x | x in Grid.Neighbours(queue[0], height, width, withCentre))
    requires forall x :: x in queue' ==> x in queue[1..] || x in Grid.Neighbours(queue[0], height, width, withCentre)
    requires forall x :: x in queue[1..] ==> x in queue'
    requires forall x :: x in Grid.Neighbours(queue[0], height, width, withCentre) && x !in visited ==> x in queue'
    requires |queue'| + |visited| == |queue[1..]| + |visited'|
    ensures Searching(start, queue', visited', done + {queue[0]}, dequeues + 1, spreads, height, width, withCentre)
  {
    var curr := queue[0];
    var nbrs := Grid.Neighbours(curr, height, width, withCentre);
    var region := Region(start, spreads, height, width, withCentre);
    assert curr in region;
    assert forall j :: j in nbrs ==> j in region;
    assert visited' <= region;
    assert forall x :: x in queue' ==> x == start || x in visited';
    assert done + {curr} <= visited' + {start};
    assert forall x: nat :: x in done + {curr} && SpreadsFrom(x, spreads) ==>
             forall j :: j in Grid.Neighbours(x, height, width, withCentre) ==> j in visited';
    forall x | x in visited' + {start}
      ensures x in done + {curr} || x in queue'
    {
      if x !in done && x != curr && x in visited + {start} {
        assert x in queue[1..];
      }
    }
  }

  /** Dequeueing a square that does not spread keeps the bookkeeping. */
  lemma QuietStep(start: nat, queue: seq<int>, visited: set<int>, done: set<int>, dequeues: nat,
                  spreads: seq<bool>, height: nat, width: nat, withCentre: bool)
    requires width > 0 && start < height * width && queue != [] && !SpreadsFrom(queue[0], spreads)
    requires queue == [queue[0]] + queue[1..]
    requires Searching(start, queue, visited, done, dequeues, spreads, height, width, withCentre)
    ensures Searching(start, queue[1..], visited, done + {queue[0]}, dequeues + 1, spreads, height, width, withCentre)
  {
    forall x | x in visited + {start}
      ensures x in done + {queue[0]} || x in queue[1..]
    {
      if x !in done && x != queue[0] {
        assert x in queue;
      }
    }
  }

  /** When the queue is empty the dequeued squares are exactly the region, and
      there were at most one more dequeues than squares on the grid. */
  lemma SearchEnd(start: nat, visited: set<int>, done: set<int>, dequeues: nat,
                  spreads: seq<bool>, height: nat, width: nat, withCentre: bool)
    requires width > 0 && start < height * width
    requires Searching(start, [], visited, done, dequeues, spreads, height, width, withCentre)
    ensures done == Region(start, spreads, height, width, withCentre)
    ensures dequeues <= height * width + 1
  {
    assert done == visited + {start};
    RegionLeast(start, done, spreads, height, width, withCentre);
    Grid.SubsetCard(visited, Grid.Cells(height * width));
  }
}
