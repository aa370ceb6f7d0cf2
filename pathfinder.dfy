/** findPath and its helpers: a best-first grid search from the snake's
    head to the food that treats every snake segment as an obstacle. */
module Pathfinder {
  import opened Grid

  /** route walks from start to goal through legal moves; its first cell
      (the head) is exempt from the obstacle test. */
  predicate IsRoute(route: seq<Cell>, start: Cell, goal: Cell, body: seq<Cell>, width: int, height: int) {
    && |route| >= 1 && route[0] == start && route[|route| - 1] == goal
    && forall i :: 0 < i < |route| ==> Step(route[i - 1], route[i], body, width, height)
  }

  ghost predicate Reachable(start: Cell, goal: Cell, body: seq<Cell>, width: int, height: int) {
    exists route :: IsRoute(route, start, goal, body, width, height)
  }

  /** Every cell the search can ever hold: start and the board lattice
      through it. */
  ghost function Universe(start: Cell, width: int, height: int): set<Cell> {
    Lattice(start, width, height) + {start}
  }

  lemma SubsetSize(a: set<Cell>, b: set<Cell>)
    requires a <= b
    ensures |a| <= |b|
  {
    assert b == a + (b - a);
  }

  lemma UniverseSize(start: Cell, width: int, height: int)
    ensures |Universe(start, width, height)| <= |Lattice(start, width, height)| + 1
  {
  }

  /** The bookkeeping the search keeps between iterations, apart from
      "every open cell is scored". */
  ghost predicate Bookkeeping(start: Cell, goal: Cell, body: seq<Cell>, width: int, height: int,
                              open: seq<Cell>, closed: seq<Cell>,
                              cameFrom: map<Cell, Cell>, g: map<Cell, int>, f: map<Cell, int>)
  {
    && start in g && g[start] == 0 && start !in cameFrom
    // every scored cell is start or has a predecessor, and f = g + heuristic
    && (forall k :: k in g ==> g[k] >= 0 && (k == start || k in cameFrom))
    && (forall k :: k in g ==> k in f && f[k] == g[k] + Heuristic(k, goal))
    // a predecessor is closed, one legal move back, and one step cheaper
    && (forall n :: n in cameFrom ==>
          && n in g && cameFrom[n] in g && g[n] == g[cameFrom[n]] + 1
          && cameFrom[n] in closed && Step(cameFrom[n], n, body, width, height))
    // open holds no repeats, never a closed cell, and only cells of the universe
    && Distinct(open)
    && (forall c :: c in open ==> c !in closed && c in Universe(start, width, height))
    && (forall c :: c in closed ==> c in Universe(start, width, height))
    && (start in closed || (open == [start] && closed == []))
    && goal !in closed
  }

  ghost predicate SearchInv(start: Cell, goal: Cell, body: seq<Cell>, width: int, height: int,
                            open: seq<Cell>, closed: seq<Cell>,
                            cameFrom: map<Cell, Cell>, g: map<Cell, int>, f: map<Cell, int>)
  {
    && Bookkeeping(start, goal, body, width, height, open, closed, cameFrom, g, f)
    && (forall c :: c in open ==> c in g)
  }

  /** Every legal move out of a cell of done lands in open or closed. */
  ghost predicate Saturated(done: seq<Cell>, open: seq<Cell>, closed: seq<Cell>,
                            body: seq<Cell>, width: int, height: int)
  {
    forall c, n :: c in done && Step(c, n, body, width, height) ==> n in open || n in closed
  }

  /** The `reduce` that picks the open cell with the lowest f. Its strict
      `<` keeps the accumulator only when it is strictly better, so among
      equal lowest scores the LAST one in the list wins. */
  method LowestF(open: seq<Cell>, f: map<Cell, int>) returns (k: nat)
    requires |open| > 0
    requires forall c :: c in open ==> c in f
    ensures k < |open|
    ensures forall j :: 0 <= j < |open| ==> f[open[k]] <= f[open[j]]
    ensures forall j :: k < j < |open| ==> f[open[k]] < f[open[j]]
  {
    k := 0;
    for i := 1 to |open|
      invariant k < i
      invariant forall j :: 0 <= j < i ==> f[open[k]] <= f[open[j]]
      invariant forall j :: k < j < i ==> f[open[k]] < f[open[j]]
    {
      if !(f[open[k]] < f[open[i]]) {
        k := i;
      }
    }
  }

  /** reconstructPath: follow predecessors back from current, prepending
      each one, until a cell without a predecessor is reached. */
  method ReconstructPath(cameFrom: map<Cell, Cell>, g: map<Cell, int>, current: Cell) returns (path: seq<Cell>)
    requires forall n :: n in cameFrom ==> n in g && cameFrom[n] in g && g[n] == g[cameFrom[n]] + 1
    requires forall k :: k in g ==> g[k] >= 0
    requires current in g
    ensures |path| >= 1 && path[|path| - 1] == current && path[0] !in cameFrom && path[0] in g
    ensures forall i :: 0 <= i < |path| ==> path[i] in g && g[path[i]] == g[path[0]] + i
    ensures forall i :: 0 < i < |path| ==> path[i] in cameFrom && cameFrom[path[i]] == path[i - 1]
  {
    var node := current;
    path := [node];
    while node in cameFrom
      invariant node in g && |path| >= 1 && path[0] == node && path[|path| - 1] == current
      invariant forall i :: 0 <= i < |path| ==> path[i] in g && g[path[i]] == g[node] + i
      invariant forall i :: 0 < i < |path| ==> path[i] in cameFrom && cameFrom[path[i]] == path[i - 1]
      decreases g[node]
    {
      node := cameFrom[node];
      path := [node] + path;
    }
  }

  /** The `forEach` over the neighbours of the cell just closed. */
  method ExpandNeighbors(ghost start: Cell, goal: Cell, body: seq<Cell>, width: int, height: int,
                         current: Cell, open: seq<Cell>, closed: seq<Cell>,
                         cameFrom: map<Cell, Cell>, g: map<Cell, int>, f: map<Cell, int>)
    returns (open': seq<Cell>, cameFrom': map<Cell, Cell>, g': map<Cell, int>, f': map<Cell, int>)
    requires SearchInv(start, goal, body, width, height, open, closed, cameFrom, g, f)
    requires current in closed && current in g && start in closed
    ensures SearchInv(start, goal, body, width, height, open', closed, cameFrom', g', f')
    // the new neighbours are pushed at the end, in getNeighbors' order
    ensures open' == open + Fresh(Neighbors(current, width, height), open, closed, body)
    ensures forall c :: c in open ==> c in open'
    // the maps are those of the callback run over the neighbours in order:
    // exactly the neighbours that current improves get current as
    // predecessor, g + 1 and the matching f, and no other entry changes
    ensures (cameFrom', g', f') == Relax(Neighbors(current, width, height), |Neighbors(current, width, height)|,
                                         current, goal, open, closed, body, cameFrom, g, f)
    ensures var better := Improved(Neighbors(current, width, height), g[current] + 1, open, closed, body, g);
            && cameFrom'.Keys == cameFrom.Keys + better
            && g'.Keys == g.Keys + better
            && f'.Keys == f.Keys + better
            && (forall n :: n in better ==>
                  cameFrom'[n] == current && g'[n] == g[current] + 1 && f'[n] == g'[n] + Heuristic(n, goal))
            && (forall c :: c in cameFrom && c !in better ==> cameFrom'[c] == cameFrom[c])
            && (forall c :: c in g && c !in better ==> g'[c] == g[c])
            && (forall c :: c in f && c !in better ==> f'[c] == f[c])
    ensures forall n :: Step(current, n, body, width, height) ==> n in open' || n in closed
  {
    open', cameFrom', g', f' := open, cameFrom, g, f;
    var neighbors := Neighbors(current, width, height);
    for i := 0 to |neighbors|
      invariant SearchInv(start, goal, body, width, height, open', closed, cameFrom', g', f')
      invariant open' == open + Fresh(neighbors[..i], open, closed, body)
      invariant current in g'
      invariant (cameFrom', g', f') == Relax(neighbors, i, current, goal, open, closed, body, cameFrom, g, f)
      invariant Covered(neighbors[..i], body, open', closed)
    {
      open', cameFrom', g', f' := VisitNeighbor(start, goal, body, width, height, current, neighbors, i,
                                                open, cameFrom, g, f, open', closed, cameFrom', g', f');
    }
    assert neighbors[..|neighbors|] == neighbors;
    RelaxedMaps(neighbors, current, goal, open, closed, body, cameFrom, g, f, cameFrom', g', f');
  }

  /** One turn of the `forEach`: the callback on s[i], with the loop's
      account of the turns before it (open0, cameFrom0, g0 and f0 are the
      state before the `forEach`) carried from s[..i] to s[..i + 1]. */
  method VisitNeighbor(ghost start: Cell, goal: Cell, body: seq<Cell>, width: int, height: int,
                       current: Cell, s: seq<Cell>, i: nat,
                       ghost open0: seq<Cell>, ghost cameFrom0: map<Cell, Cell>, ghost g0: map<Cell, int>,
                       ghost f0: map<Cell, int>,
                       open: seq<Cell>, closed: seq<Cell>, cameFrom: map<Cell, Cell>, g: map<Cell, int>, f: map<Cell, int>)
    returns (open': seq<Cell>, cameFrom': map<Cell, Cell>, g': map<Cell, int>, f': map<Cell, int>)
    requires SearchInv(start, goal, body, width, height, open, closed, cameFrom, g, f)
    requires current in closed && current in g0 && current in g && start in closed
    requires i < |s| && Distinct(s) && Adjacent(current, s[i]) && InBounds(s[i], width, height)
    requires forall c :: c in open0 ==> c in g0
    requires open == open0 + Fresh(s[..i], open0, closed, body)
    requires (cameFrom, g, f) == Relax(s, i, current, goal, open0, closed, body, cameFrom0, g0, f0)
    requires Covered(s[..i], body, open, closed)
    ensures SearchInv(start, goal, body, width, height, open', closed, cameFrom', g', f')
    ensures open' == open0 + Fresh(s[..i + 1], open0, closed, body)
    ensures current in g'
    ensures (cameFrom', g', f') == Relax(s, i + 1, current, goal, open0, closed, body, cameFrom0, g0, f0)
    ensures Covered(s[..i + 1], body, open', closed)
  {
    open', cameFrom', g', f' := ConsiderNeighbor(start, goal, body, width, height, current, s[i], open, closed, cameFrom, g, f);
    CallbackStep(s, i, current, goal, body, open0, closed, cameFrom0, g0, f0,
                 open, cameFrom, g, f, open', cameFrom', g', f');
  }

  /** What one more call of the callback, on a list without repeats, does
      to the loop's account of the `forEach` so far. */
  lemma CallbackStep(s: seq<Cell>, i: nat, current: Cell, goal: Cell, body: seq<Cell>,
                     open: seq<Cell>, closed: seq<Cell>, cameFrom: map<Cell, Cell>, g: map<Cell, int>, f: map<Cell, int>,
                     before: seq<Cell>, cameFrom0: map<Cell, Cell>, g0: map<Cell, int>, f0: map<Cell, int>,
                     after: seq<Cell>, cameFrom1: map<Cell, Cell>, g1: map<Cell, int>, f1: map<Cell, int>)
    requires i < |s| && Distinct(s) && current in g && current in closed
    requires forall c :: c in open ==> c in g
    requires before == open + Fresh(s[..i], open, closed, body)
    requires (cameFrom0, g0, f0) == Relax(s, i, current, goal, open, closed, body, cameFrom, g, f)
    requires Covered(s[..i], body, before, closed)
    requires after == if s[i] in closed || s[i] in body || s[i] in before then before else before + [s[i]]
    requires current in g0 && (s[i] in before ==> s[i] in g0)
    requires var skip := s[i] in closed || s[i] in body || (s[i] in before && g0[s[i]] <= g0[current] + 1);
             && (skip ==> cameFrom1 == cameFrom0 && g1 == g0 && f1 == f0)
             && (!skip ==> && cameFrom1 == cameFrom0[s[i] := current]
                           && g1 == g0[s[i] := g0[current] + 1]
                           && s[i] in f1 && f1 == f0[s[i] := f1[s[i]]]
                           && f1[s[i]] == g0[current] + 1 + Heuristic(s[i], goal))
    ensures after == open + Fresh(s[..i + 1], open, closed, body)
    ensures (cameFrom1, g1, f1) == Relax(s, i + 1, current, goal, open, closed, body, cameFrom, g, f)
    ensures Covered(s[..i + 1], body, after, closed)
  {
    assert s[i] !in s[..i];
    FreshGrows(s, i, open, before, after, closed, body);
    RelaxGrows(s, i, current, goal, open, before, closed, body, cameFrom, g, f, cameFrom0, g0, f0, cameFrom1, g1, f1);
    CoveredGrows(s, i, body, before, after, closed);
  }

  /** The cells of s, in order, that are neither open, closed nor occupied:
      the ones the `forEach` callback pushes onto open, when s has no
      repeats. */
  function Fresh(s: seq<Cell>, open: seq<Cell>, closed: seq<Cell>, body: seq<Cell>): (r: seq<Cell>)
    ensures forall c :: c in r <==> c in s && c !in open && c !in closed && c !in body
  {
    if s == [] then []
    else
      var last := s[|s| - 1];
      assert s == s[..|s| - 1] + [last];
      Fresh(s[..|s| - 1], open, closed, body)
        + (if last !in open && last !in closed && last !in body then [last] else [])
  }

  /** One more call of the callback pushes s[i] exactly when it is one of
      the fresh cells of s[..i + 1]. */
  lemma FreshGrows(s: seq<Cell>, i: nat, open: seq<Cell>, before: seq<Cell>, after: seq<Cell>,
                   closed: seq<Cell>, body: seq<Cell>)
    requires i < |s| && s[i] !in s[..i]
    requires before == open + Fresh(s[..i], open, closed, body)
    requires after == if s[i] in closed || s[i] in body || s[i] in before then before else before + [s[i]]
    ensures after == open + Fresh(s[..i + 1], open, closed, body)
  {
    var t := s[..i + 1];
    assert t[..i] == s[..i] && t[i] == s[i];
    assert s[i] !in Fresh(s[..i], open, closed, body);
  }

  /** The `forEach` callback records current as the predecessor of n at
      the given cost when n is neither closed nor occupied, and is either
      new or reached strictly more cheaply than before. */
  ghost predicate Improves(n: Cell, cost: int, open: seq<Cell>, closed: seq<Cell>, body: seq<Cell>,
                           g: map<Cell, int>)
  {
    n !in closed && n !in body && (n !in open || (n in g && cost < g[n]))
  }

  /** The cells of s whose scores the callback rewrites at the given cost. */
  ghost function Improved(s: seq<Cell>, cost: int, open: seq<Cell>, closed: seq<Cell>, body: seq<Cell>,
                          g: map<Cell, int>): set<Cell>
  {
    set n | n in s && Improves(n, cost, open, closed, body, g)
  }

  /** cameFrom, g and f after the callback has run over the first k cells
      of s in order, each cell judged against the open list and costs from
      before the `forEach`: an improved cell gets current as predecessor,
      cost g[current] + 1 and f = that cost + heuristic. */
  ghost function Relax(s: seq<Cell>, k: nat, current: Cell, goal: Cell, open: seq<Cell>, closed: seq<Cell>, body: seq<Cell>,
                       cameFrom: map<Cell, Cell>, g: map<Cell, int>, f: map<Cell, int>)
    : (map<Cell, Cell>, map<Cell, int>, map<Cell, int>)
    requires k <= |s| && current in g
  {
    if k == 0 then (cameFrom, g, f)
    else
      var (cameFrom0, g0, f0) := Relax(s, k - 1, current, goal, open, closed, body, cameFrom, g, f);
      var n, cost := s[k - 1], g[current] + 1;
      if Improves(n, cost, open, closed, body, g)
      then (cameFrom0[n := current], g0[n := cost], f0[n := cost + Heuristic(n, goal)])
      else (cameFrom0, g0, f0)
  }

  /** A cell that is not an improved cell of s[..k] keeps its entries. */
  lemma {:induction false} RelaxElsewhere(s: seq<Cell>, k: nat, x: Cell, current: Cell, goal: Cell,
                                          open: seq<Cell>, closed: seq<Cell>, body: seq<Cell>,
                                          cameFrom: map<Cell, Cell>, g: map<Cell, int>, f: map<Cell, int>)
    requires k <= |s| && current in g
    requires x !in s[..k] || !Improves(x, g[current] + 1, open, closed, body, g)
    ensures var (cameFrom', g', f') := Relax(s, k, current, goal, open, closed, body, cameFrom, g, f);
            && (x in cameFrom' <==> x in cameFrom) && (x in cameFrom ==> cameFrom'[x] == cameFrom[x])
            && (x in g' <==> x in g) && (x in g ==> g'[x] == g[x])
            && (x in f' <==> x in f) && (x in f ==> f'[x] == f[x])
  {
    if k != 0 {
      assert s[..k] == s[..k - 1] + [s[k - 1]];
      RelaxElsewhere(s, k - 1, x, current, goal, open, closed, body, cameFrom, g, f);
    }
  }

  /** One more call of the callback, on a list without repeats, rewrites
      the entries of s[i] exactly when s[i] is improved with respect to
      the state before the `forEach`: the cells handled earlier neither
      open s[i] nor touch its entries or current's cost. */
  lemma RelaxGrows(s: seq<Cell>, i: nat, current: Cell, goal: Cell, open: seq<Cell>, before: seq<Cell>,
                   closed: seq<Cell>, body: seq<Cell>,
                   cameFrom: map<Cell, Cell>, g: map<Cell, int>, f: map<Cell, int>,
                   cameFrom0: map<Cell, Cell>, g0: map<Cell, int>, f0: map<Cell, int>,
                   cameFrom1: map<Cell, Cell>, g1: map<Cell, int>, f1: map<Cell, int>)
    requires i < |s| && s[i] !in s[..i] && current in g && current in closed
    requires forall c :: c in open ==> c in g
    requires before == open + Fresh(s[..i], open, closed, body)
    requires (cameFrom0, g0, f0) == Relax(s, i, current, goal, open, closed, body, cameFrom, g, f)
    requires current in g0 && (s[i] in before ==> s[i] in g0)
    requires var skip := s[i] in closed || s[i] in body || (s[i] in before && g0[s[i]] <= g0[current] + 1);
             && (skip ==> cameFrom1 == cameFrom0 && g1 == g0 && f1 == f0)
             && (!skip ==> && cameFrom1 == cameFrom0[s[i] := current]
                           && g1 == g0[s[i] := g0[current] + 1]
                           && s[i] in f1 && f1 == f0[s[i] := f1[s[i]]]
                           && f1[s[i]] == g0[current] + 1 + Heuristic(s[i], goal))
    ensures (cameFrom1, g1, f1) == Relax(s, i + 1, current, goal, open, closed, body, cameFrom, g, f)
  {
    RelaxElsewhere(s, i, s[i], current, goal, open, closed, body, cameFrom, g, f);
    RelaxElsewhere(s, i, current, current, goal, open, closed, body, cameFrom, g, f);
  }

  /** Which entries the callback adds: exactly the improved cells of
      s[..k] join the domain of each map. */
  lemma {:induction false} RelaxAddsImproved(s: seq<Cell>, k: nat, current: Cell, goal: Cell,
                                                 open: seq<Cell>, closed: seq<Cell>, body: seq<Cell>,
                                                 cameFrom: map<Cell, Cell>, g: map<Cell, int>, f: map<Cell, int>)
    requires k <= |s| && current in g
    ensures var better := Improved(s[..k], g[current] + 1, open, closed, body, g);
            var (cameFrom', g', f') := Relax(s, k, current, goal, open, closed, body, cameFrom, g, f);
            && cameFrom'.Keys == cameFrom.Keys + better
            && g'.Keys == g.Keys + better
            && f'.Keys == f.Keys + better
  {
    if k != 0 {
      var last := s[k - 1];
      assert s[..k] == s[..k - 1] + [last];
      assert Improved(s[..k], g[current] + 1, open, closed, body, g)
          == Improved(s[..k - 1], g[current] + 1, open, closed, body, g)
             + (if Improves(last, g[current] + 1, open, closed, body, g) then {last} else {});
      RelaxAddsImproved(s, k - 1, current, goal, open, closed, body, cameFrom, g, f);
    }
  }

  /** What the callback does to the maps, stated cell by cell: the
      improved cells of s[..k] have current as predecessor, cost
      g[current] + 1 and f equal to that cost plus the heuristic; every
      other entry is the one from before the `forEach`. */
  lemma {:induction false} RelaxRewritesImproved(s: seq<Cell>, k: nat, current: Cell, goal: Cell,
                                                 open: seq<Cell>, closed: seq<Cell>, body: seq<Cell>,
                                                 cameFrom: map<Cell, Cell>, g: map<Cell, int>, f: map<Cell, int>)
    requires k <= |s| && current in g
    ensures var better := Improved(s[..k], g[current] + 1, open, closed, body, g);
            var (cameFrom', g', f') := Relax(s, k, current, goal, open, closed, body, cameFrom, g, f);
            && (forall n :: n in better ==>
                  && n in cameFrom' && cameFrom'[n] == current
                  && n in g' && g'[n] == g[current] + 1
                  && n in f' && f'[n] == g'[n] + Heuristic(n, goal))
            && (forall c :: c in cameFrom && c !in better ==> c in cameFrom' && cameFrom'[c] == cameFrom[c])
            && (forall c :: c in g && c !in better ==> c in g' && g'[c] == g[c])
            && (forall c :: c in f && c !in better ==> c in f' && f'[c] == f[c])
  {
    if k != 0 {
      var last := s[k - 1];
      assert s[..k] == s[..k - 1] + [last];
      assert Improved(s[..k], g[current] + 1, open, closed, body, g)
          == Improved(s[..k - 1], g[current] + 1, open, closed, body, g)
             + (if Improves(last, g[current] + 1, open, closed, body, g) then {last} else {});
      RelaxRewritesImproved(s, k - 1, current, goal, open, closed, body, cameFrom, g, f);
    }
  }

  /** The maps after the whole `forEach`, cell by cell. */
  lemma RelaxedMaps(s: seq<Cell>, current: Cell, goal: Cell, open: seq<Cell>, closed: seq<Cell>, body: seq<Cell>,
                    cameFrom: map<Cell, Cell>, g: map<Cell, int>, f: map<Cell, int>,
                    cameFrom': map<Cell, Cell>, g': map<Cell, int>, f': map<Cell, int>)
    requires current in g
    requires (cameFrom', g', f') == Relax(s, |s|, current, goal, open, closed, body, cameFrom, g, f)
    ensures var better := Improved(s, g[current] + 1, open, closed, body, g);
            && cameFrom'.Keys == cameFrom.Keys + better
            && g'.Keys == g.Keys + better
            && f'.Keys == f.Keys + better
            && (forall n :: n in better ==>
                  cameFrom'[n] == current && g'[n] == g[current] + 1 && f'[n] == g'[n] + Heuristic(n, goal))
            && (forall c :: c in cameFrom && c !in better ==> cameFrom'[c] == cameFrom[c])
            && (forall c :: c in g && c !in better ==> g'[c] == g[c])
            && (forall c :: c in f && c !in better ==> f'[c] == f[c])
  {
    assert s[..|s|] == s;
    RelaxAddsImproved(s, |s|, current, goal, open, closed, body, cameFrom, g, f);
    RelaxRewritesImproved(s, |s|, current, goal, open, closed, body, cameFrom, g, f);
  }

  /** Every unblocked cell of s is open or closed. */
  ghost predicate Covered(s: seq<Cell>, body: seq<Cell>, open: seq<Cell>, closed: seq<Cell>) {
    forall n :: n in s && n !in body ==> n in open || n in closed
  }

  lemma CoveredGrows(s: seq<Cell>, i: nat, body: seq<Cell>, open: seq<Cell>, open': seq<Cell>, closed: seq<Cell>)
    requires i < |s| && Covered(s[..i], body, open, closed)
    requires forall c :: c in open ==> c in open'
    requires s[i] !in body ==> s[i] in open' || s[i] in closed
    ensures Covered(s[..i + 1], body, open', closed)
  {
  }

  /** One call of the `forEach` callback: skip a closed cell or a snake
      cell; push a cell not yet open; and record current as predecessor
      when the cell is new or current reaches it strictly more cheaply. */
  method ConsiderNeighbor(ghost start: Cell, goal: Cell, body: seq<Cell>, width: int, height: int,
                          current: Cell, neighbor: Cell, open: seq<Cell>, closed: seq<Cell>,
                          cameFrom: map<Cell, Cell>, g: map<Cell, int>, f: map<Cell, int>)
    returns (open': seq<Cell>, cameFrom': map<Cell, Cell>, g': map<Cell, int>, f': map<Cell, int>)
    requires SearchInv(start, goal, body, width, height, open, closed, cameFrom, g, f)
    requires current in closed && current in g && start in closed
    requires Adjacent(current, neighbor) && InBounds(neighbor, width, height)
    ensures SearchInv(start, goal, body, width, height, open', closed, cameFrom', g', f')
    ensures current in g'
    ensures forall c :: c in open ==> c in open'
    ensures neighbor !in body ==> neighbor in open' || neighbor in closed
    // a neighbour that is neither closed, occupied nor open is pushed at the end
    ensures open' == if neighbor in closed || neighbor in body || neighbor in open then open
                     else open + [neighbor]
    // a closed or occupied neighbour, or an open one whose cost is no higher
    // than current's plus one (a tie keeps the old predecessor), changes no
    // score; otherwise current becomes its predecessor at g + 1, and only its
    // entries change
    ensures var skip := neighbor in closed || neighbor in body
                        || (neighbor in open && g[neighbor] <= g[current] + 1);
            && (skip ==> cameFrom' == cameFrom && g' == g && f' == f)
            && (!skip ==> && cameFrom' == cameFrom[neighbor := current]
                          && g' == g[neighbor := g[current] + 1]
                          && f' == f[neighbor := f'[neighbor]]
                          && f'[neighbor] == g[current] + 1 + Heuristic(neighbor, goal))
  {
    if neighbor in closed || neighbor in body {
      return open, cameFrom, g, f;
    }
    var tentative := g[current] + 1;
    if neighbor in open && tentative >= g[neighbor] {
      return open, cameFrom, g, f;
    }
    AdmitPreservesInv(start, goal, body, width, height, open, closed, cameFrom, g, f, current, neighbor);
    open' := if neighbor in open then open else open + [neighbor];
    cameFrom' := cameFrom[neighbor := current];
    g' := g[neighbor := tentative];
    f' := f[neighbor := tentative + Heuristic(neighbor, goal)];
  }

  /** Admitting an unclosed, unoccupied neighbour that is new or reached
      strictly more cheaply through current keeps the invariant. */
  lemma AdmitPreservesInv(start: Cell, goal: Cell, body: seq<Cell>, width: int, height: int,
                          open: seq<Cell>, closed: seq<Cell>,
                          cameFrom: map<Cell, Cell>, g: map<Cell, int>, f: map<Cell, int>,
                          current: Cell, n: Cell)
    requires SearchInv(start, goal, body, width, height, open, closed, cameFrom, g, f)
    requires current in closed && current in g && start in closed
    requires Step(current, n, body, width, height) && n !in closed
    requires n in open ==> g[current] + 1 < g[n]
    ensures SearchInv(start, goal, body, width, height, if n in open then open else open + [n], closed,
                      cameFrom[n := current], g[n := g[current] + 1],
                      f[n := g[current] + 1 + Heuristic(n, goal)])
  {
    if n !in open {
      LatticeClosed(start, current, n, width, height);
      PushPreservesInv(start, goal, body, width, height, open, closed, cameFrom, g, f, n);
      RecordPreservesInv(start, goal, body, width, height, open + [n], closed, cameFrom, g, f, current, n);
    } else {
      RecordPreservesInv(start, goal, body, width, height, open, closed, cameFrom, g, f, current, n);
    }
  }

  /** Pushing a fresh, unclosed lattice cell to open keeps the
      bookkeeping; only the new cell still has to be scored. */
  lemma PushPreservesInv(start: Cell, goal: Cell, body: seq<Cell>, width: int, height: int,
                         open: seq<Cell>, closed: seq<Cell>,
                         cameFrom: map<Cell, Cell>, g: map<Cell, int>, f: map<Cell, int>, n: Cell)
    requires SearchInv(start, goal, body, width, height, open, closed, cameFrom, g, f)
    requires n !in open && n !in closed && n in Lattice(start, width, height) && start in closed
    ensures Bookkeeping(start, goal, body, width, height, open + [n], closed, cameFrom, g, f)
    ensures forall c :: c in open + [n] && c != n ==> c in g
  {
  }

  /** Recording current as the predecessor of an open neighbour n, with
      g one more than current's, re-establishes the invariant. */
  lemma RecordPreservesInv(start: Cell, goal: Cell, body: seq<Cell>, width: int, height: int,
                           open: seq<Cell>, closed: seq<Cell>,
                           cameFrom: map<Cell, Cell>, g: map<Cell, int>, f: map<Cell, int>,
                           current: Cell, n: Cell)
    requires Bookkeeping(start, goal, body, width, height, open, closed, cameFrom, g, f)
    requires forall c :: c in open && c != n ==> c in g
    requires current in closed && current in g && start in closed
    requires n in open && Step(current, n, body, width, height)
    ensures SearchInv(start, goal, body, width, height, open, closed,
                      cameFrom[n := current], g[n := g[current] + 1],
                      f[n := g[current] + 1 + Heuristic(n, goal)])
  {
  }

  /** A region that contains start, misses goal and that no legal move
      leaves, rules out every route from start to goal. */
  lemma {:induction false} RouteStaysInside(route: seq<Cell>, region: seq<Cell>, body: seq<Cell>, width: int, height: int)
    requires |route| >= 1 && route[0] in region
    requires forall i :: 0 < i < |route| ==> Step(route[i - 1], route[i], body, width, height)
    requires Saturated(region, [], region, body, width, height)
    ensures forall i :: 0 <= i < |route| ==> route[i] in region
  {
    if |route| > 1 {
      var prefix := route[..|route| - 1];
      RouteStaysInside(prefix, region, body, width, height);
      assert prefix[|route| - 2] == route[|route| - 2];
      assert Step(route[|route| - 2], route[|route| - 1], body, width, height);
    }
  }

  lemma NoRouteOutOfClosedRegion(start: Cell, goal: Cell, region: seq<Cell>, body: seq<Cell>, width: int, height: int)
    requires start in region && goal !in region
    requires Saturated(region, [], region, body, width, height)
    ensures !Reachable(start, goal, body, width, height)
  {
    forall route | IsRoute(route, start, goal, body, width, height) ensures false {
      RouteStaysInside(route, region, body, width, height);
    }
  }

  /** Moving the chosen non-goal cell from open to closed keeps the
      invariant, and every cell that was already done stays saturated. */
  lemma CloseKeepsInv(start: Cell, goal: Cell, body: seq<Cell>, width: int, height: int,
                      open: seq<Cell>, closed: seq<Cell>,
                      cameFrom: map<Cell, Cell>, g: map<Cell, int>, f: map<Cell, int>, k: nat)
    requires SearchInv(start, goal, body, width, height, open, closed, cameFrom, g, f)
    requires Saturated(closed, open, closed, body, width, height)
    requires k < |open| && open[k] != goal
    ensures SearchInv(start, goal, body, width, height, open[..k] + open[k + 1..], closed + [open[k]], cameFrom, g, f)
    ensures Saturated(closed, open[..k] + open[k + 1..], closed + [open[k]], body, width, height)
    ensures open[k] in g && open[k] !in closed && start in closed + [open[k]]
    ensures open[k] in Universe(start, width, height)
  {
    RemoveAtFacts(open, k);
  }

  /** Splicing index k out of a repetition-free list removes exactly the
      cell at k. */
  lemma RemoveAtFacts(open: seq<Cell>, k: nat)
    requires k < |open| && Distinct(open)
    ensures forall c :: c in open[..k] + open[k + 1..] <==> c in open && c != open[k]
    ensures Distinct(open[..k] + open[k + 1..])
  {
  }

  /** After the neighbours of current are expanded, current joins the
      saturated cells. */
  lemma ExpandKeepsSaturated(done: seq<Cell>, current: Cell, open: seq<Cell>, open': seq<Cell>,
                             closed: seq<Cell>, body: seq<Cell>, width: int, height: int)
    requires Saturated(done, open, closed, body, width, height)
    requires forall c :: c in open ==> c in open'
    requires forall n :: Step(current, n, body, width, height) ==> n in open' || n in closed
    requires closed == done + [current]
    ensures Saturated(closed, open', closed, body, width, height)
  {
  }

  /** The chain reconstructed from a goal taken out of open is a legal,
      repetition-free route from start, and just [start] when start is the
      goal. */
  lemma ReconstructedIsRoute(start: Cell, goal: Cell, body: seq<Cell>, width: int, height: int,
                             open: seq<Cell>, closed: seq<Cell>,
                             cameFrom: map<Cell, Cell>, g: map<Cell, int>, f: map<Cell, int>, path: seq<Cell>)
    requires SearchInv(start, goal, body, width, height, open, closed, cameFrom, g, f)
    requires goal in open
    requires |path| >= 1 && path[|path| - 1] == goal && path[0] !in cameFrom && path[0] in g
    requires forall i :: 0 <= i < |path| ==> path[i] in g && g[path[i]] == g[path[0]] + i
    requires forall i :: 0 < i < |path| ==> path[i] in cameFrom && cameFrom[path[i]] == path[i - 1]
    ensures IsRoute(path, start, goal, body, width, height) && Distinct(path)
    ensures start == goal ==> path == [start]
  {
  }

  /** findPath: A*-style search from start to goal avoiding body. Returns a
      legal, repetition-free route exactly when one exists, and the empty
      sequence otherwise. The ghost count of loop iterations is bounded by
      the number of lattice cells plus one. */
  method FindPath(start: Cell, goal: Cell, body: seq<Cell>, width: int, height: int)
    returns (path: seq<Cell>, ghost iterations: nat)
    ensures path != [] ==> IsRoute(path, start, goal, body, width, height) && Distinct(path)
    ensures path != [] <==> Reachable(start, goal, body, width, height)
    ensures start == goal ==> path == [start]
    ensures iterations <= |Lattice(start, width, height)| + 1
    ensures Aligned(start, width, height) ==>
              iterations <= (width / UnitSize) * (height / UnitSize) + 1
  {
    AlignedLatticeSize(start, width, height);
    var open := [start];
    var closed: seq<Cell> := [];
    var cameFrom: map<Cell, Cell> := map[];
    var g := map[start := 0];
    var f := map[start := Heuristic(start, goal)];
    ghost var expanded: set<Cell> := {};
    iterations := 0;
    while |open| > 0
      invariant SearchInv(start, goal, body, width, height, open, closed, cameFrom, g, f)
      invariant Saturated(closed, open, closed, body, width, height)
      invariant forall c :: c in closed <==> c in expanded
      invariant expanded <= Universe(start, width, height)
      invariant iterations == |expanded|
      decreases |Universe(start, width, height)| - |expanded|
    {
      var k := LowestF(open, f);
      var current := open[k];
      iterations := iterations + 1;
      if current == goal {
        path := ReconstructPath(cameFrom, g, current);
        ReconstructedIsRoute(start, goal, body, width, height, open, closed, cameFrom, g, f, path);
        SubsetSize(expanded + {current}, Universe(start, width, height));
        UniverseSize(start, width, height);
        return;
      }
      ghost var open0, closed0 := open, closed;
      open := open[..k] + open[k + 1..];
      closed := closed + [current];
      CloseKeepsInv(start, goal, body, width, height, open0, closed0, cameFrom, g, f, k);
      assert current !in expanded;
      expanded := expanded + {current};
      SubsetSize(expanded, Universe(start, width, height));
      ghost var open1 := open;
      open, cameFrom, g, f := ExpandNeighbors(start, goal, body, width, height, current, open, closed, cameFrom, g, f);
      ExpandKeepsSaturated(closed0, current, open1, open, closed, body, width, height);
    }
    path := [];
    UniverseSize(start, width, height);
    SubsetSize(expanded, Universe(start, width, height));
    NoRouteOutOfClosedRegion(start, goal, closed, body, width, height);
  }
}
