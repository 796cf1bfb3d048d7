/**
 * The `Universe` of `common/src/lib.rs`: its state as a value, a pure
 * specification of the set-once claim (`_set_cell`) and of one generation of
 * spreading (`evolve`), the invariants both preserve, and the class whose
 * methods change a universe in place and are proved against that
 * specification.
 */
module Engine {
  import opened Wrappers
  import opened Grid

  /** An element of the frontier `active_cells`: a colour and the coordinates it was claimed at. */
  type Entry = (Cell, Coords)

  /**
   * Every field of a universe. The seat flags are used by the backend and are
   * part of the universe there.
   */
  datatype UniverseState = UniverseState(
    cells: seq<Cell>,
    activeCells: seq<Entry>,
    nEmpty: nat,
    nNeutral: nat,
    nRed: nat,
    nBlue: nat,
    finished: bool,
    redPlayerConnected: bool,
    bluePlayerConnected: bool)

  /** A frontier entry names a claimed cell that holds the entry's colour. */
  predicate EntryMatches(cells: seq<Cell>, e: Entry)
  {
    e.0 != Empty && Index(WIDTH, e.1) < |cells| && cells[Index(WIDTH, e.1)] == e.0
  }

  predicate AllMatch(cells: seq<Cell>, es: seq<Entry>)
  {
    forall k :: 0 <= k < |es| ==> EntryMatches(cells, es[k])
  }

  /**
   * The invariant of a universe: the standard size, the empty, red and blue
   * counters equal the numbers of such cells, the neutral counter never
   * exceeds the neutral cells (claiming `Neutral` does not count), every
   * frontier entry matches its cell, and a finished universe has no empty cell.
   */
  predicate Consistent(s: UniverseState)
  {
    |s.cells| == SIZE &&
    s.nEmpty == Count(s.cells, Empty) &&
    s.nRed == Count(s.cells, Red) &&
    s.nBlue == Count(s.cells, Blue) &&
    s.nNeutral <= Count(s.cells, Neutral) &&
    AllMatch(s.cells, s.activeCells) &&
    (s.finished ==> s.nEmpty == 0)
  }

  /** The counters never add up to more than the grid, and reach it exactly when every neutral cell was counted. */
  lemma CountersAddUp(s: UniverseState)
    requires Consistent(s)
    ensures s.nEmpty + s.nNeutral + s.nRed + s.nBlue <= SIZE
    ensures s.nEmpty + s.nNeutral + s.nRed + s.nBlue == SIZE <==> s.nNeutral == Count(s.cells, Neutral)
  {
    CountTotal(s.cells);
  }

  /** `new_empty`: every cell empty, all of them counted as empty, an empty frontier. */
  function EmptyState(): (s: UniverseState)
    ensures Consistent(s)
    ensures forall i :: 0 <= i < |s.cells| ==> s.cells[i] == Empty
    ensures s.nEmpty == SIZE && s.nNeutral == 0 && s.nRed == 0 && s.nBlue == 0
    ensures Count(s.cells, Neutral) == 0
    ensures s.activeCells == [] && !s.finished
  {
    var cells := seq(SIZE, _ => Empty);
    CountUniform(SIZE, Empty, Empty);
    CountUniform(SIZE, Empty, Neutral);
    CountUniform(SIZE, Empty, Red);
    CountUniform(SIZE, Empty, Blue);
    UniverseState(cells, [], SIZE, 0, 0, 0, false, false, false)
  }

  /**
   * The result of the inherent `new_rand`: fifty placements all at index 1
   * leave exactly one neutral cell, at index 1, counted once.
   */
  function RandState(): (s: UniverseState)
    ensures Consistent(s)
    ensures s.cells[1] == Neutral && forall i :: 0 <= i < SIZE && i != 1 ==> s.cells[i] == Empty
    ensures s.nEmpty == SIZE - 1 && s.nNeutral == 1 && s.nRed == 0 && s.nBlue == 0
  {
    var e := EmptyState();
    CountUpdate(e.cells, 1, Neutral, Empty);
    CountUpdate(e.cells, 1, Neutral, Neutral);
    CountUpdate(e.cells, 1, Neutral, Red);
    CountUpdate(e.cells, 1, Neutral, Blue);
    e.(cells := e.cells[1 := Neutral], nEmpty := SIZE - 1, nNeutral := 1)
  }

  /** When a claim writes: a colour or `Neutral`, onto an empty cell that exists. */
  predicate Claimable(cells: seq<Cell>, cell: Cell, coords: Coords)
  {
    cell != Empty && Index(WIDTH, coords) < |cells| && cells[Index(WIDTH, coords)] == Empty
  }

  /** Claimed cells keep their value from `s` to `t`. */
  predicate KeepsClaimed(s: seq<Cell>, t: seq<Cell>)
  {
    |s| == |t| && forall i :: 0 <= i < |s| && s[i] != Empty ==> t[i] == s[i]
  }

  /** Fields that spreading leaves alone. */
  predicate SameMeta(s: UniverseState, t: UniverseState)
  {
    t.nNeutral == s.nNeutral && t.finished == s.finished &&
    t.redPlayerConnected == s.redPlayerConnected && t.bluePlayerConnected == s.bluePlayerConnected
  }

  /** Writing onto an empty cell leaves every entry that matched still matching. */
  lemma WriteKeepsMatches(cells: seq<Cell>, i: nat, v: Cell, es: seq<Entry>)
    requires i < |cells| && cells[i] == Empty
    ensures AllMatch(cells, es) ==> AllMatch(cells[i := v], es)
  {
    if AllMatch(cells, es) {
      forall k | 0 <= k < |es|
        ensures EntryMatches(cells[i := v], es[k])
      {
        assert EntryMatches(cells, es[k]);
      }
    }
  }

  /** The universe after a successful claim of `cell` at position `idx`. */
  function Write(s: UniverseState, idx: nat, cell: Cell): (t: UniverseState)
    requires Consistent(s) && idx < |s.cells| && s.cells[idx] == Empty && cell != Empty
    ensures Consistent(t)
    ensures t.cells == s.cells[idx := cell] && t.nEmpty + 1 == s.nEmpty
    ensures t.nRed == s.nRed + (if cell == Red then 1 else 0)
    ensures t.nBlue == s.nBlue + (if cell == Blue then 1 else 0)
    ensures t.activeCells == s.activeCells && SameMeta(s, t)
  {
    CountUpdate(s.cells, idx, cell, Empty);
    CountUpdate(s.cells, idx, cell, Neutral);
    CountUpdate(s.cells, idx, cell, Red);
    CountUpdate(s.cells, idx, cell, Blue);
    WriteKeepsMatches(s.cells, idx, cell, s.activeCells);
    s.(cells := s.cells[idx := cell],
       nEmpty := s.nEmpty - 1,
       nRed := s.nRed + (if cell == Red then 1 else 0),
       nBlue := s.nBlue + (if cell == Blue then 1 else 0))
  }

  /** What `_set_cell` returns, the universe it leaves and the list it pushed onto. */
  datatype ClaimOutcome = ClaimOutcome(result: Result<bool>, state: UniverseState, target: seq<Entry>)

  /**
   * `_set_cell`, pushing onto `target`. `get_index` lets `x + y * width ==
   * len` through and the source then indexes past the end of `cells` unless
   * the claimed cell is `Empty`; that input is excluded.
   */
  function ClaimSpec(s: UniverseState, target: seq<Entry>, cell: Cell, coords: Coords): (o: ClaimOutcome)
    requires Consistent(s)
    requires cell != Empty ==> Index(WIDTH, coords) != |s.cells|
    ensures Consistent(o.state) && o.state.activeCells == s.activeCells && SameMeta(s, o.state)
    ensures AllMatch(s.cells, target) ==> AllMatch(o.state.cells, o.target)
    ensures o.result == Err <==> cell == Empty || Index(WIDTH, coords) > |s.cells|
    ensures o.result == Ok(true) <==> Claimable(s.cells, cell, coords)
    ensures o.result == Ok(true) ==>
              o.state.cells == s.cells[Index(WIDTH, coords) := cell] &&
              o.target == target + [(cell, coords)] &&
              o.state.nEmpty + 1 == s.nEmpty &&
              o.state.nRed == s.nRed + (if cell == Red then 1 else 0) &&
              o.state.nBlue == s.nBlue + (if cell == Blue then 1 else 0)
    ensures o.result != Ok(true) ==> o.state == s && o.target == target
    ensures KeepsClaimed(s.cells, o.state.cells)
  {
    match GetIndex(WIDTH, |s.cells|, coords)
    case Err => ClaimOutcome(Err, s, target)
    case Ok(idx) =>
      if cell == Empty then ClaimOutcome(Err, s, target)
      else if s.cells[idx] == Empty then
        var t := Write(s, idx, cell);
        WriteKeepsMatches(s.cells, idx, cell, target);
        ClaimOutcome(Ok(true), t, target + [(cell, coords)])
      else ClaimOutcome(Ok(false), s, target)
  }

  /** `set_cell`: `_set_cell` pushing onto the universe's own frontier. */
  function SetCellSpec(s: UniverseState, cell: Cell, coords: Coords): (r: (Result<bool>, UniverseState))
    requires Consistent(s)
    requires cell != Empty ==> Index(WIDTH, coords) != |s.cells|
    ensures Consistent(r.1)
    ensures r.0 == Ok(true) ==> r.1.activeCells == s.activeCells + [(cell, coords)]
    ensures r.0 != Ok(true) ==> r.1 == s
  {
    var o := ClaimSpec(s, s.activeCells, cell, coords);
    (o.result, o.state.(activeCells := o.target))
  }

  /**
   * The body of the `for` loop of `evolve` for one frontier entry of colour
   * `color`: each neighbour index in `ns` that is still empty is claimed, and
   * the claim is pushed onto `next`, not onto the frontier.
   */
  function SpreadEntry(s: UniverseState, next: seq<Entry>, color: Cell, ns: seq<nat>): (r: (UniverseState, seq<Entry>))
    requires Consistent(s)
    requires forall k :: 0 <= k < |ns| ==> ns[k] < SIZE
    ensures Consistent(r.0) && r.0.activeCells == s.activeCells && SameMeta(s, r.0)
    ensures KeepsClaimed(s.cells, r.0.cells)
    ensures AllMatch(s.cells, next) ==> AllMatch(r.0.cells, r.1)
    decreases |ns|
  {
    if ns == [] then (s, next)
    else
      var n := ns[0];
      if s.cells[n] == Empty then
        IndexOfCoords(WIDTH, HEIGHT, n);
        var o := ClaimSpec(s, next, color, GetCoords(WIDTH, HEIGHT, n));
        SpreadEntry(o.state, o.target, color, ns[1..])
      else
        SpreadEntry(s, next, color, ns[1..])
  }

  /** The entry `pop` takes off the end of the frontier. */
  function Last(s: UniverseState): Entry
    requires s.activeCells != []
  {
    s.activeCells[|s.activeCells| - 1]
  }

  /** The universe after `pop`: the frontier without its last entry. */
  function Pop(s: UniverseState): (t: UniverseState)
    requires s.activeCells != []
    ensures Consistent(s) ==> Consistent(t)
    ensures |t.activeCells| < |s.activeCells|
  {
    var t := s.(activeCells := s.activeCells[..|s.activeCells| - 1]);
    assert forall k :: 0 <= k < |t.activeCells| ==> t.activeCells[k] == s.activeCells[k];
    t
  }

  /** One iteration of the `while let Some(..) = pop()` loop of `evolve`. */
  function Step(s: UniverseState, next: seq<Entry>): (r: (UniverseState, seq<Entry>))
    requires Consistent(s) && s.activeCells != []
    ensures Consistent(r.0) && r.0.activeCells == Pop(s).activeCells && SameMeta(s, r.0)
    ensures KeepsClaimed(s.cells, r.0.cells)
    ensures AllMatch(s.cells, next) ==> AllMatch(r.0.cells, r.1)
  {
    SpreadEntry(Pop(s), next, Last(s).0, Neighbours(Last(s).1))
  }

  /**
   * The `while let Some(..) = pop()` loop of `evolve`: entries are taken from
   * the end of the frontier until it is empty.
   */
  function Spread(s: UniverseState, next: seq<Entry>): (r: (UniverseState, seq<Entry>))
    requires Consistent(s)
    ensures Consistent(r.0) && r.0.activeCells == [] && SameMeta(s, r.0)
    ensures KeepsClaimed(s.cells, r.0.cells)
    ensures AllMatch(s.cells, next) ==> AllMatch(r.0.cells, r.1)
    decreases |s.activeCells|
  {
    if s.activeCells == [] then (s, next)
    else
      var t := Step(s, next);
      Spread(t.0, t.1)
  }

  /**
   * `evolve`: one generation. The new frontier is the list of claims made
   * during the call; `finished` is set once no empty cell is left and is never
   * cleared.
   */
  function EvolveSpec(s: UniverseState): (r: UniverseState)
    requires Consistent(s)
    ensures Consistent(r)
    ensures KeepsClaimed(s.cells, r.cells)
    ensures r.finished == (s.finished || Count(r.cells, Empty) == 0)
    ensures r.nNeutral == s.nNeutral
    ensures r.redPlayerConnected == s.redPlayerConnected && r.bluePlayerConnected == s.bluePlayerConnected
  {
    var t := Spread(s, []);
    t.0.(activeCells := t.1, finished := t.0.finished || t.0.nEmpty == 0)
  }

  /** `r` starts with `next`. */
  predicate Extends(next: seq<Entry>, r: seq<Entry>)
  {
    |next| <= |r| && r[..|next|] == next
  }

  /** An entry of `next` keeps its position in an extension of `next`. */
  lemma ExtendsAt(next: seq<Entry>, r: seq<Entry>, k: nat)
    requires Extends(next, r) && k < |next|
    ensures r[k] == next[k]
  {
    assert r[k] == r[..|next|][k];
  }

  lemma ExtendsTrans(a: seq<Entry>, b: seq<Entry>, c: seq<Entry>)
    requires Extends(a, b) && Extends(b, c)
    ensures Extends(a, c)
  {
    assert c[..|a|] == c[..|b|][..|a|];
  }

  /** One entry's spreading only appends to `next`. */
  lemma {:induction false} SpreadEntryExtends(s: UniverseState, next: seq<Entry>, color: Cell, ns: seq<nat>)
    requires Consistent(s)
    requires forall k :: 0 <= k < |ns| ==> ns[k] < SIZE
    ensures Extends(next, SpreadEntry(s, next, color, ns).1)
    decreases |ns|
  {
    if ns != [] {
      var n := ns[0];
      if s.cells[n] == Empty {
        IndexOfCoords(WIDTH, HEIGHT, n);
        var o := ClaimSpec(s, next, color, GetCoords(WIDTH, HEIGHT, n));
        SpreadEntryExtends(o.state, o.target, color, ns[1..]);
        assert o.target[..|next|] == next;
        ExtendsTrans(next, o.target, SpreadEntry(o.state, o.target, color, ns[1..]).1);
      } else {
        SpreadEntryExtends(s, next, color, ns[1..]);
      }
    }
  }

  /** A claim of colour `color` on a cell of `ns` that was empty in `s`. */
  predicate NewClaim(s: UniverseState, color: Cell, ns: seq<nat>, e: Entry)
  {
    e.0 == color && Index(WIDTH, e.1) in ns &&
    Index(WIDTH, e.1) < |s.cells| && s.cells[Index(WIDTH, e.1)] == Empty
  }

  /** What one entry's spreading appends are claims of its own colour on empty cells of `ns`. */
  lemma {:induction false} SpreadEntryClaims(s: UniverseState, next: seq<Entry>, color: Cell, ns: seq<nat>)
    requires Consistent(s)
    requires forall k :: 0 <= k < |ns| ==> ns[k] < SIZE
    ensures forall k :: |next| <= k < |SpreadEntry(s, next, color, ns).1| ==>
              NewClaim(s, color, ns, SpreadEntry(s, next, color, ns).1[k])
    decreases |ns|
  {
    if ns != [] {
      var n := ns[0];
      if s.cells[n] == Empty {
        IndexOfCoords(WIDTH, HEIGHT, n);
        var o := ClaimSpec(s, next, color, GetCoords(WIDTH, HEIGHT, n));
        var r := SpreadEntry(o.state, o.target, color, ns[1..]);
        SpreadEntryClaims(o.state, o.target, color, ns[1..]);
        if o.result == Ok(true) {
          SpreadEntryExtends(o.state, o.target, color, ns[1..]);
          forall k | |next| <= k < |r.1|
            ensures NewClaim(s, color, ns, r.1[k])
          {
            if k == |next| {
              ExtendsAt(o.target, r.1, k);
              assert r.1[k] == (color, GetCoords(WIDTH, HEIGHT, n));
            } else {
              var p := Index(WIDTH, r.1[k].1);
              assert NewClaim(o.state, color, ns[1..], r.1[k]);
              assert o.state.cells[p] == Empty;
              assert p != n;
              assert s.cells[p] == o.state.cells[p];
            }
          }
        } else {
          forall k | |next| <= k < |r.1|
            ensures NewClaim(s, color, ns, r.1[k])
          {
            assert NewClaim(o.state, color, ns[1..], r.1[k]);
          }
        }
      } else {
        var r := SpreadEntry(s, next, color, ns[1..]);
        SpreadEntryClaims(s, next, color, ns[1..]);
        forall k | |next| <= k < |r.1|
          ensures NewClaim(s, color, ns, r.1[k])
        {
          assert NewClaim(s, color, ns[1..], r.1[k]);
        }
      }
    }
  }

  /** Every cell one entry's spreading changes is named by one of the claims it appends. */
  lemma {:induction false} SpreadEntryNames(s: UniverseState, next: seq<Entry>, color: Cell, ns: seq<nat>, i: nat)
    requires Consistent(s) && i < SIZE
    requires forall k :: 0 <= k < |ns| ==> ns[k] < SIZE
    requires SpreadEntry(s, next, color, ns).0.cells[i] != s.cells[i]
    ensures exists k :: |next| <= k < |SpreadEntry(s, next, color, ns).1| &&
                        Index(WIDTH, SpreadEntry(s, next, color, ns).1[k].1) == i
    decreases |ns|
  {
    if ns != [] {
      var n := ns[0];
      if s.cells[n] == Empty {
        IndexOfCoords(WIDTH, HEIGHT, n);
        var o := ClaimSpec(s, next, color, GetCoords(WIDTH, HEIGHT, n));
        var r := SpreadEntry(o.state, o.target, color, ns[1..]);
        assert r == SpreadEntry(s, next, color, ns);
        if o.result == Ok(true) && i == n {
          SpreadEntryExtends(o.state, o.target, color, ns[1..]);
          ExtendsAt(o.target, r.1, |next|);
          assert Index(WIDTH, r.1[|next|].1) == i;
        } else {
          assert o.state.cells[i] == s.cells[i];
          SpreadEntryNames(o.state, o.target, color, ns[1..], i);
          var k :| |o.target| <= k < |r.1| && Index(WIDTH, r.1[k].1) == i;
          assert |next| <= k;
        }
      } else {
        SpreadEntryNames(s, next, color, ns[1..], i);
      }
    }
  }

  /**
   * One entry's spreading fills its neighbours: every index of `ns` that was
   * empty, or already held the entry's colour, ends up in that colour.
   */
  lemma {:induction false} SpreadEntryFills(s: UniverseState, next: seq<Entry>, color: Cell, ns: seq<nat>, k: nat)
    requires Consistent(s) && color != Empty && k < |ns|
    requires forall j :: 0 <= j < |ns| ==> ns[j] < SIZE
    requires s.cells[ns[k]] == Empty || s.cells[ns[k]] == color
    ensures SpreadEntry(s, next, color, ns).0.cells[ns[k]] == color
    decreases |ns|
  {
    var n := ns[0];
    var i := ns[k];
    if s.cells[n] == Empty {
      IndexOfCoords(WIDTH, HEIGHT, n);
      var o := ClaimSpec(s, next, color, GetCoords(WIDTH, HEIGHT, n));
      var r := SpreadEntry(o.state, o.target, color, ns[1..]);
      assert r == SpreadEntry(s, next, color, ns);
      assert o.state.cells[n] == color;
      if k == 0 {
        assert r.0.cells[i] == color;
      } else {
        assert ns[1..][k - 1] == i;
        assert o.state.cells[i] == Empty || o.state.cells[i] == color;
        SpreadEntryFills(o.state, o.target, color, ns[1..], k - 1);
      }
    } else if k == 0 {
      assert SpreadEntry(s, next, color, ns) == SpreadEntry(s, next, color, ns[1..]);
    } else {
      assert ns[1..][k - 1] == i;
      SpreadEntryFills(s, next, color, ns[1..], k - 1);
    }
  }

  /** Spreading the whole frontier of `s` only appends to `next`. */
  lemma {:induction false} SpreadExtends(s: UniverseState, next: seq<Entry>)
    requires Consistent(s)
    ensures Extends(next, Spread(s, next).1)
    decreases |s.activeCells|
  {
    if s.activeCells != [] {
      var t := Step(s, next);
      SpreadEntryExtends(Pop(s), next, Last(s).0, Neighbours(Last(s).1));
      SpreadExtends(t.0, t.1);
      ExtendsTrans(next, t.1, Spread(t.0, t.1).1);
    }
  }

  /**
   * A claim made by spreading from the frontier of `s`: its cell was empty in
   * `s` and is a neighbour of an entry of that frontier of the same colour.
   */
  predicate FromFrontier(s: UniverseState, e: Entry)
    requires |s.cells| == SIZE
  {
    Index(WIDTH, e.1) < SIZE && s.cells[Index(WIDTH, e.1)] == Empty &&
    exists j :: 0 <= j < |s.activeCells| && s.activeCells[j].0 == e.0 &&
                Index(WIDTH, e.1) in Neighbours(s.activeCells[j].1)
  }

  /** A claim of one step's spreading comes from the frontier: from the entry it popped. */
  lemma StepFromFrontier(s: UniverseState, next: seq<Entry>, e: Entry)
    requires Consistent(s) && s.activeCells != []
    requires NewClaim(s, Last(s).0, Neighbours(Last(s).1), e)
    ensures FromFrontier(s, e)
  {
    var j := |s.activeCells| - 1;
    assert s.activeCells[j] == Last(s);
  }

  /**
   * A claim that comes from the frontier of `t`, where `t` spread on after
   * `pop` and never overwrote a claimed cell, comes from the frontier of `s`.
   */
  lemma FromEarlierFrontier(s: UniverseState, t: UniverseState, e: Entry)
    requires |s.cells| == SIZE && s.activeCells != [] && KeepsClaimed(s.cells, t.cells)
    requires t.activeCells == Pop(s).activeCells
    requires FromFrontier(t, e)
    ensures FromFrontier(s, e)
  {
    var p := Index(WIDTH, e.1);
    var j :| 0 <= j < |t.activeCells| && t.activeCells[j].0 == e.0 &&
             p in Neighbours(t.activeCells[j].1);
    assert s.activeCells[j] == t.activeCells[j];
  }

  /**
   * What spreading the whole frontier of `s` appends comes from that
   * frontier, not from cells claimed during the same call.
   */
  lemma {:induction false} SpreadFromFrontier(s: UniverseState, next: seq<Entry>, k: nat)
    requires Consistent(s) && |next| <= k < |Spread(s, next).1|
    ensures FromFrontier(s, Spread(s, next).1[k])
    decreases |s.activeCells|
  {
    if s.activeCells != [] {
      var t := Step(s, next);
      var r := Spread(t.0, t.1);
      assert r == Spread(s, next);
      if k < |t.1| {
        SpreadExtends(t.0, t.1);
        ExtendsAt(t.1, r.1, k);
        SpreadEntryClaims(Pop(s), next, Last(s).0, Neighbours(Last(s).1));
        assert NewClaim(Pop(s), Last(s).0, Neighbours(Last(s).1), t.1[k]);
        StepFromFrontier(s, next, r.1[k]);
      } else {
        SpreadFromFrontier(t.0, t.1, k);
        FromEarlierFrontier(s, t.0, r.1[k]);
      }
    }
  }

  /** A claim already recorded in `grown` is still recorded after spreading on. */
  lemma NamedStaysNamed(s: UniverseState, grown: seq<Entry>, next: seq<Entry>, i: nat, k: nat)
    requires Consistent(s) && |next| <= k < |grown| && Index(WIDTH, grown[k].1) == i
    ensures exists j :: |next| <= j < |Spread(s, grown).1| && Index(WIDTH, Spread(s, grown).1[j].1) == i
  {
    SpreadExtends(s, grown);
    ExtendsAt(grown, Spread(s, grown).1, k);
  }

  /** Every cell that spreading the whole frontier changes is named by one of the claims it appends. */
  lemma {:induction false} SpreadNamesChanges(s: UniverseState, next: seq<Entry>, i: nat)
    requires Consistent(s) && i < SIZE
    requires Spread(s, next).0.cells[i] != s.cells[i]
    ensures exists k :: |next| <= k < |Spread(s, next).1| && Index(WIDTH, Spread(s, next).1[k].1) == i
    decreases |s.activeCells|
  {
    if s.activeCells != [] {
      var t := Step(s, next);
      assert Spread(s, next) == Spread(t.0, t.1);
      if t.0.cells[i] != s.cells[i] {
        SpreadEntryNames(Pop(s), next, Last(s).0, Neighbours(Last(s).1), i);
        var k :| |next| <= k < |t.1| && Index(WIDTH, t.1[k].1) == i;
        NamedStaysNamed(t.0, t.1, next, i, k);
      } else {
        SpreadNamesChanges(t.0, t.1, i);
        var k :| |t.1| <= k < |Spread(t.0, t.1).1| && Index(WIDTH, Spread(t.0, t.1).1[k].1) == i;
        SpreadEntryExtends(Pop(s), next, Last(s).0, Neighbours(Last(s).1));
        assert |next| <= k;
      }
    }
  }

  /**
   * Growth is one layer per call: every entry of the new frontier names a
   * cell that was empty before, is a neighbour of an entry of the old
   * frontier of the same colour, and now holds that colour.
   */
  lemma EvolveClaimsOneLayer(s: UniverseState, k: nat)
    requires Consistent(s) && k < |EvolveSpec(s).activeCells|
    ensures FromFrontier(s, EvolveSpec(s).activeCells[k])
    ensures EntryMatches(EvolveSpec(s).cells, EvolveSpec(s).activeCells[k])
  {
    var r := EvolveSpec(s);
    var t := Spread(s, []);
    assert r.activeCells == t.1 && r.cells == t.0.cells;
    SpreadFromFrontier(s, [], k);
    assert AllMatch(r.cells, r.activeCells);
  }

  /**
   * The new frontier is exactly the claims made during the call: a cell
   * changes if and only if an entry of the new frontier names it, and only
   * empty cells change.
   */
  lemma EvolveFrontierIsTheClaims(s: UniverseState, i: nat)
    requires Consistent(s) && i < SIZE
    ensures EvolveSpec(s).cells[i] != s.cells[i] <==>
              exists k :: 0 <= k < |EvolveSpec(s).activeCells| && Index(WIDTH, EvolveSpec(s).activeCells[k].1) == i
    ensures EvolveSpec(s).cells[i] != s.cells[i] ==> s.cells[i] == Empty
  {
    var r := EvolveSpec(s);
    var t := Spread(s, []);
    assert r.activeCells == t.1 && r.cells == t.0.cells;
    if r.cells[i] != s.cells[i] {
      SpreadNamesChanges(s, [], i);
    }
    if exists k :: 0 <= k < |r.activeCells| && Index(WIDTH, r.activeCells[k].1) == i {
      var k :| 0 <= k < |r.activeCells| && Index(WIDTH, r.activeCells[k].1) == i;
      EvolveClaimsOneLayer(s, k);
    }
  }

  /**
   * Draining the frontier claims the whole layer: the `k`-th neighbour of
   * the `j`-th entry of the frontier, at coordinates `c`, ends up non-empty.
   */
  lemma {:induction false} SpreadFills(s: UniverseState, next: seq<Entry>, j: nat, c: Coords, k: nat)
    requires Consistent(s) && j < |s.activeCells| && s.activeCells[j].1 == c && k < |Neighbours(c)|
    ensures Spread(s, next).0.cells[Neighbours(c)[k]] != Empty
    decreases |s.activeCells|, 1
  {
    if j + 1 == |s.activeCells| {
      SpreadFillsLast(s, next, c, k);
    } else {
      SpreadFillsEarlier(s, next, j, c, k);
    }
  }

  /** The entry popped first fills its neighbours, and later steps keep them. */
  lemma SpreadFillsLast(s: UniverseState, next: seq<Entry>, c: Coords, k: nat)
    requires Consistent(s) && s.activeCells != [] && Last(s).1 == c && k < |Neighbours(c)|
    ensures Spread(s, next).0.cells[Neighbours(c)[k]] != Empty
  {
    StepFills(s, next, c, k);
    SpreadKeepsStep(s, next, Neighbours(c)[k]);
  }

  /** A cell the first step claims is still claimed once the frontier is drained. */
  lemma SpreadKeepsStep(s: UniverseState, next: seq<Entry>, i: nat)
    requires Consistent(s) && s.activeCells != [] && i < SIZE && Step(s, next).0.cells[i] != Empty
    ensures Spread(s, next).0.cells[i] != Empty
  {
    var t := Step(s, next);
    assert Spread(s, next) == Spread(t.0, t.1);
    assert KeepsClaimed(t.0.cells, Spread(t.0, t.1).0.cells);
  }

  /** An entry below the last one is still on the frontier after one step. */
  lemma {:induction false} SpreadFillsEarlier(s: UniverseState, next: seq<Entry>, j: nat, c: Coords, k: nat)
    requires Consistent(s) && j + 1 < |s.activeCells| && s.activeCells[j].1 == c && k < |Neighbours(c)|
    ensures Spread(s, next).0.cells[Neighbours(c)[k]] != Empty
    decreases |s.activeCells|, 0
  {
    var t := Step(s, next);
    assert Spread(s, next) == Spread(t.0, t.1);
    assert t.0.activeCells[j] == s.activeCells[j];
    SpreadFills(t.0, t.1, j, c, k);
  }

  /** One step fills every neighbour of the entry it pops. */
  lemma StepFills(s: UniverseState, next: seq<Entry>, c: Coords, k: nat)
    requires Consistent(s) && s.activeCells != [] && Last(s).1 == c && k < |Neighbours(c)|
    ensures Step(s, next).0.cells[Neighbours(c)[k]] != Empty
  {
    var e := Last(s);
    var ns := Neighbours(c);
    assert EntryMatches(s.cells, s.activeCells[|s.activeCells| - 1]);
    var u := Pop(s);
    if u.cells[ns[k]] == Empty || u.cells[ns[k]] == e.0 {
      SpreadEntryFills(u, next, e.0, ns, k);
    }
  }

  /**
   * The converse of `EvolveClaimsOneLayer`: a generation claims every
   * neighbour of every entry of the old frontier, so after it none of them
   * is empty.
   */
  lemma EvolveFills(s: UniverseState, j: nat, n: nat)
    requires Consistent(s) && j < |s.activeCells| && n in Neighbours(s.activeCells[j].1)
    ensures n < SIZE && EvolveSpec(s).cells[n] != Empty
  {
    var ns := Neighbours(s.activeCells[j].1);
    var k :| 0 <= k < |ns| && ns[k] == n;
    SpreadFills(s, [], j, s.activeCells[j].1, k);
  }

  /** A generation is the drained universe with the claims as its new frontier. */
  lemma EvolveAfterDrain(s: UniverseState, drained: UniverseState, next: seq<Entry>)
    requires Consistent(s) && (drained, next) == Spread(s, [])
    ensures EvolveSpec(s) == drained.(activeCells := next, finished := drained.finished || drained.nEmpty == 0)
  {
  }

  /** With an empty frontier a generation changes nothing but, possibly, `finished`. */
  lemma EvolveWithoutFrontier(s: UniverseState)
    requires Consistent(s) && s.activeCells == []
    ensures EvolveSpec(s) == s.(finished := s.finished || s.nEmpty == 0)
  {
  }

  /**
   * Claiming `Neutral` decrements the empty counter but increments no
   * counter, so on a fresh grid the four counters then add up to one less
   * than the number of cells.
   */
  lemma NeutralClaimIsNotCounted()
    ensures var o := ClaimSpec(EmptyState(), [], Neutral, (1, 1));
            o.result == Ok(true) &&
            o.state.nEmpty + o.state.nNeutral + o.state.nRed + o.state.nBlue == SIZE - 1
  {
  }

  /**
   * A universe. `cells` never changes length, so it is a sequence that the
   * methods update by position; `width` and `height` are never written after
   * construction.
   */
  class Universe {
    var cells: seq<Cell>
    var activeCells: seq<Entry>
    const width: nat
    const height: nat
    var nEmpty: nat
    var nNeutral: nat
    var nRed: nat
    var nBlue: nat
    var finished: bool
    /** Seat flags the backend reads and writes on a universe. */
    var redPlayerConnected: bool
    var bluePlayerConnected: bool

    /** The current value of every field. */
    function Snapshot(): UniverseState
      reads this
    {
      UniverseState(cells, activeCells, nEmpty, nNeutral, nRed, nBlue, finished,
                    redPlayerConnected, bluePlayerConnected)
    }

    ghost predicate Valid()
      reads this
    {
      width == WIDTH && height == HEIGHT && Consistent(Snapshot())
    }

    /** `new_empty`, with both seats free. */
    constructor NewEmpty()
      ensures Valid() && Snapshot() == EmptyState()
    {
      var s := EmptyState();
      cells, activeCells := s.cells, [];
      width, height := WIDTH, HEIGHT;
      nEmpty, nNeutral, nRed, nBlue := SIZE, 0, 0, 0;
      finished := false;
      redPlayerConnected, bluePlayerConnected := false, false;
    }

    /**
     * A universe built from a grid and its empty and neutral counts, with no
     * red or blue cell, an empty frontier and both seats free.
     */
    constructor FromParts(cells: seq<Cell>, nEmpty: nat, nNeutral: nat)
      requires |cells| == SIZE && Count(cells, Red) == 0 && Count(cells, Blue) == 0
      requires nEmpty == Count(cells, Empty) && nNeutral <= Count(cells, Neutral)
      ensures Valid()
      ensures Snapshot() == UniverseState(cells, [], nEmpty, nNeutral, 0, 0, false, false, false)
    {
      this.cells, activeCells := cells, [];
      width, height := WIDTH, HEIGHT;
      this.nEmpty, this.nNeutral, nRed, nBlue := nEmpty, nNeutral, 0, 0;
      finished := false;
      redPlayerConnected, bluePlayerConnected := false, false;
    }

    /**
     * The inherent `new_rand`: fifty placements, each at index 1, so exactly
     * one neutral cell results.
     */
    static method NewRand() returns (uni: Universe)
      ensures fresh(uni) && uni.Valid() && uni.Snapshot() == RandState()
    {
      uni := new Universe.NewEmpty();
      for i := 0 to N_NEUTRAL_BLOCKS
        invariant uni.width == WIDTH && uni.height == HEIGHT
        invariant uni.Snapshot() == if i == 0 then EmptyState() else RandState()
        invariant uni.Valid()
      {
        var idx := 1;
        if uni.cells[idx] == Empty {
          uni.cells := uni.cells[idx := Neutral];
          uni.nEmpty := uni.nEmpty - 1;
          uni.nNeutral := uni.nNeutral + 1;
        }
      }
    }

    /** `_set_cell`: the claim, with the list it pushes onto passed in and handed back. */
    method ClaimInto(target: seq<Entry>, cell: Cell, coords: Coords) returns (r: Result<bool>, target': seq<Entry>)
      requires Valid()
      requires cell != Empty ==> Index(width, coords) != |cells|
      modifies this
      ensures Valid()
      ensures ClaimOutcome(r, Snapshot(), target') == ClaimSpec(old(Snapshot()), target, cell, coords)
    {
      ghost var o := ClaimSpec(Snapshot(), target, cell, coords);
      target' := target;
      match GetIndex(width, |cells|, coords)
      case Err => r := Err;
      case Ok(idx) =>
        if cell == Red || cell == Blue || cell == Neutral {
          if cells[idx] == Empty {
            ghost var w := Write(Snapshot(), idx, cell);
            cells := cells[idx := cell];
            target' := target + [(cell, coords)];
            nEmpty := nEmpty - 1;
            if cell == Red {
              nRed := nRed + 1;
            }
            if cell == Blue {
              nBlue := nBlue + 1;
            }
            r := Ok(true);
            assert Snapshot() == w;
          } else {
            r := Ok(false);
          }
        } else {
          r := Err;
        }
    }

    /** `set_cell`. */
    method SetCell(cell: Cell, coords: Coords) returns (r: Result<bool>)
      requires Valid()
      requires cell != Empty ==> Index(width, coords) != |cells|
      modifies this
      ensures Valid()
      ensures (r, Snapshot()) == SetCellSpec(old(Snapshot()), cell, coords)
    {
      var t;
      r, t := ClaimInto(activeCells, cell, coords);
      activeCells := t;
    }

    /**
     * The `for` loop of `evolve` over the neighbour indices `ns` of a popped
     * entry of colour `color`: every one still empty is claimed, and the
     * claim is pushed onto `next`.
     */
    method SpreadOver(color: Cell, ns: seq<nat>, next: seq<Entry>) returns (next': seq<Entry>)
      requires Valid() && AllMatch(cells, next)
      requires forall k :: 0 <= k < |ns| ==> ns[k] < SIZE
      modifies this
      ensures Valid() && AllMatch(cells, next')
      ensures (Snapshot(), next') == SpreadEntry(old(Snapshot()), next, color, ns)
    {
      next' := next;
      for j := 0 to |ns|
        invariant Valid() && AllMatch(cells, next')
        invariant SpreadEntry(Snapshot(), next', color, ns[j..]) == SpreadEntry(old(Snapshot()), next, color, ns)
      {
        var n := ns[j];
        assert ns[j..][1..] == ns[j + 1..];
        if cells[n] == Empty {
          IndexOfCoords(width, height, n);
          var _, claimed := ClaimInto(next', color, GetCoords(width, height, n));
          next' := claimed;
        }
      }
    }

    /**
     * One iteration of the `while let Some(..) = pop()` loop of `evolve`: the
     * last frontier entry is popped and spreads to its neighbours.
     */
    method SpreadLast(next: seq<Entry>) returns (next': seq<Entry>)
      requires Valid() && AllMatch(cells, next) && activeCells != []
      modifies this
      ensures Valid() && AllMatch(cells, next')
      ensures (Snapshot(), next') == Step(old(Snapshot()), next)
    {
      var e := PopLast();
      next' := SpreadOver(e.0, Neighbours(e.1), next);
    }

    /** The `pop` of the `while let` loop of `evolve`: takes the last frontier entry off. */
    method PopLast() returns (e: Entry)
      requires Valid() && activeCells != []
      modifies this
      ensures Valid() && cells == old(cells)
      ensures Snapshot() == Pop(old(Snapshot())) && e == Last(old(Snapshot()))
    {
      e := activeCells[|activeCells| - 1];
      activeCells := activeCells[..|activeCells| - 1];
    }

    /**
     * The `while let Some(..) = pop()` loop of `evolve`: empties the frontier,
     * spreading from each entry taken off its end, and returns the list of
     * claims made, `next_cells`.
     */
    method Drain() returns (next: seq<Entry>)
      requires Valid()
      modifies this
      ensures Valid() && AllMatch(cells, next)
      ensures (Snapshot(), next) == Spread(old(Snapshot()), [])
    {
      next := [];
      while activeCells != []
        invariant Valid() && AllMatch(cells, next)
        invariant Spread(Snapshot(), next) == Spread(old(Snapshot()), [])
        decreases |activeCells|
      {
        next := SpreadLast(next);
      }
    }

    /**
     * The end of `evolve`: the claims made become the frontier, and the
     * universe is marked finished once no empty cell is left.
     */
    method Install(next: seq<Entry>)
      requires Valid() && AllMatch(cells, next)
      modifies this
      ensures Valid()
      ensures Snapshot() == old(Snapshot()).(activeCells := next, finished := old(finished) || old(nEmpty) == 0)
    {
      activeCells := next;
      if nEmpty == 0 {
        finished := true;
      }
    }

    /** `evolve`: one generation. */
    method Evolve()
      requires Valid()
      modifies this
      ensures Valid()
      ensures Snapshot() == EvolveSpec(old(Snapshot()))
    {
      ghost var before := Snapshot();
      var next := Drain();
      EvolveAfterDrain(before, Snapshot(), next);
      Install(next);
    }

    /** `is_finished`: a finished universe has no empty cell left. */
    function IsFinished(): (r: bool)
      reads this
      requires Valid()
      ensures r ==> Count(cells, Empty) == 0
    {
      finished
    }
  }
}
