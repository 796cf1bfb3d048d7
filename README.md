# Cherries: the territory grid and its match bookkeeping, in Dafny

Cherries is a two-player browser game on a fixed 32 x 32 grid. Each player claims
cells in their colour. Every claimed cell spreads its colour to its empty
4-neighbours, one layer per generation, and the two colours take turns. This
project models two parts of the game and proves properties about them:

- **The grid engine** of `common/src/lib.rs`. This is the `Universe`: a row-major
  vector of cells with counters for empty, neutral, red and blue cells, and a
  frontier `active_cells` of the claims that may still spread. Its operations are:
  - the set-once claim `_set_cell` / `set_cell`;
  - the breadth-first generation `evolve`;
  - the index arithmetic `get_index`, `get_coords` and `get_neighbours`;
  - the constructors `new_empty` and `new_rand`.
- **The match and turn bookkeeping** inside the HTTP handlers of
  `backend/src/main.rs`, with the transport, the cookie session, the locks and
  the clock taken away:
  - seat assignment;
  - the turn tick that evolves a universe;
  - the once-per-turn claim gate;
  - the random neutral placement loop `GenerateRandom::new_rand`;
  - the user-list bookkeeping.

The project has four modules:

| module | file | contents |
|---|---|---|
| `Wrappers` | `wrappers.dfy` | `Option` and `Result` |
| `Grid` | `grid.dfy` | the cell kinds, the constants `WIDTH = HEIGHT = 32` and `N_NEUTRAL_BLOCKS = 50`, the index arithmetic, the neighbour pipeline, and `Count`, the function that the counters are specified against |
| `Engine` | `engine.dfy` | see below |
| `Backend` | `backend.dfy` | see below |

`Engine` holds the state of a universe as a value (`UniverseState`). It defines
pure specifications of a claim (`ClaimSpec`), of one pop-and-spread step (`Step`)
and of a generation (`EvolveSpec`), lemmas about them, and the class `Universe`.
A method of the class that changes a universe ensures that its new
`Snapshot()` equals the specification applied to the old one.

`Backend` holds the turn record (`Turn`, `ActiveUser`) and the class `AppState`.
`AppState` keeps a map from match id to `Universe`, the open id `uniId`, one
turn record and the user list. Each handler becomes one method. Its invariant
`Valid` requires distinct ids to hold distinct universes, as a `HashMap` owns
its values, so a handler that changes one match leaves every other match
unchanged.

The following behaviours follow the code. They are not what a description of the
intended design would say:

- **`get_index` bounds test.** An index equal to the number of cells passes
  `get_index`. `_set_cell` would then index past the end of `cells`, so claims
  exclude that input with a precondition. Indices beyond it give `Err`.
- **Strict neighbour filter.** The filter of `get_neighbours` is strict
  (`v.0 > 0 && v.1 > 0`). Spreading therefore never reaches column 0 or row 0.
  `NeighboursAreGood` and `NeighboursComplete` state exactly which cells are
  reached.
- **Neutral claims.** Claiming `Neutral` decrements the empty counter but
  increments no counter. The four counters therefore add up to the grid size
  only while every neutral cell has been counted. `CountersAddUp` and
  `NeutralClaimIsNotCounted` state this.
- **The inherent `new_rand`.** It always uses index 1, so it yields exactly one
  neutral cell. The calls at `backend/src/main.rs:140` and `:263` resolve to this
  version. The random loop of the trait implementation is modelled separately,
  as `PlaceNeutrals` and `GenerateRandom`.
- **`finished`.** It is set only by `evolve`. A claim that fills the last empty
  cell does not set it. `IsFinished` therefore promises only that a finished
  universe has no empty cell.
- **The frontier.** Every successful claim is pushed onto it, whether or not the
  cell still has an empty neighbour.
- **The turn record.** It is one record shared by all universes, not one per match.
- **`kill_universe`.** It removes the universe under the open id `uni_id`, not
  necessarily the universe of the session that ends. The handler is defined but
  never mounted: `main` registers only `active_users`, `register_user`,
  `cell_picked`, `serve_universe` and `give_user_color`
  (`backend/src/main.rs:277-283`). In the server as built, no request reaches it,
  so neither this removal nor the missed user removal recorded under Findings
  can happen; both are statements about the handler's text.
- **`uni_id`.** It is an `AtomicU32`. `fetch_add` wraps, so the next id is
  `(uni_id + 1) mod 2^32`. Inserting under that id replaces any universe already
  stored there.

`main.rs` uses universe members that `common/src/lib.rs` does not define. The model
adds them as follows:

| member used by `main.rs` | in the model |
|---|---|
| `red_player_connected`, `blue_player_connected` | fields of `Universe` and of `UniverseState` |
| `Color` | a datatype of its own |
| `Cell::to_color` | `ToColor` |
| `_new_rand` | the constructor `Universe.FromParts` |

## Model

| member | source | states |
|---|---|---|
| Grid.GetIndex | common/src/lib.rs:134-141 | `Ok` with the row-major index `x + y * width` exactly when that index is at most the cell count, so the index equal to the count is accepted; `Err` beyond it |
| Grid.GetCoords | common/src/lib.rs:143-145 | the column is below the width, and on a square grid column plus row times width gives the index back |
| Grid.AsI32 | common/src/lib.rs:148 | the `as i32` cast yields a value in the `i32` range and leaves values below 2^31 unchanged |
| Grid.CoordsOfIndex | common/src/lib.rs:134-145 | on a square grid, coordinates inside it pass `get_index`, and `get_coords` gives them back |
| Grid.IndexOfCoords | common/src/lib.rs:134-145 | on a square grid, every cell index survives `get_coords` followed by `get_index` |
| Grid.Pick | common/src/lib.rs:151-156 | one map/filter stage of `get_neighbours` yields at most one index, and every index it yields is a valid cell index, so the `unwrap` cannot fail |
| Grid.PickSpec | common/src/lib.rs:151-156 | one stage of the pipeline yields the index of the shifted point exactly when that point passes the strict filter (column and row both above 0 and below 32) |
| Grid.Along | common/src/lib.rs:149-157 | the pipeline over a list of directions yields at most one index per direction, each a valid cell index |
| Grid.Neighbours | common/src/lib.rs:147-158 | `get_neighbours` yields at most 4 indices, each below 32*32, so its `unwrap` never fails |
| Grid.NeighboursUnrolled | common/src/lib.rs:148-157 | the neighbours are the four stages in the source's order `(0,1), (1,0), (-1,0), (0,-1)`, after the `as i32` cast |
| Grid.NeighboursAreGood | common/src/lib.rs:147-158 | every neighbour is a valid index whose column and row are both nonzero, and is 4-adjacent to the input when the `as i32` cast leaves the input unchanged |
| Grid.NeighboursComplete | common/src/lib.rs:147-158 | conversely, every cell 4-adjacent to the input whose column and row are nonzero is among the neighbours |
| Grid.CountUpdate | common/src/lib.rs:174 | writing one cell moves exactly one unit from the count of the old kind to the count of the new one |
| Grid.CountTotal | common/src/lib.rs:31-37 | the four cell counts of a grid add up to its length |
| Grid.CountUniform | common/src/lib.rs:82 | a grid of n copies of one kind counts n of that kind and 0 of every other |
| Engine.CountersAddUp | common/src/lib.rs:61-71 | in a consistent universe the counters add up to at most 32*32, and exactly 32*32 if and only if every neutral cell was counted |
| Engine.EmptyState | common/src/lib.rs:79-91 | `new_empty`: consistent, every cell empty, `n_empty` = 32*32, the other counters 0, an empty frontier, not finished |
| Engine.Universe.NewEmpty | common/src/lib.rs:79-91 | the constructed universe's state is `EmptyState()` |
| Engine.RandState | common/src/lib.rs:93-105 | the inherent `new_rand` result: consistent, cell 1 neutral and every other cell empty, `n_empty` = 32*32 - 1, `n_neutral` = 1 |
| Engine.Universe.NewRand | common/src/lib.rs:93-105 | the fifty-iteration loop yields exactly `RandState()` |
| Engine.WriteKeepsMatches | common/src/lib.rs:173-174 | writing onto an empty cell keeps every frontier entry matching its cell |
| Engine.Write | common/src/lib.rs:173-182 | a successful write keeps the universe consistent, decrements `n_empty`, and bumps `n_red` or `n_blue` only for that colour |
| Engine.ClaimSpec | common/src/lib.rs:160-190 | `Err` exactly for `Empty` or an index beyond the cell count; `Ok(true)` exactly when the target cell exists and is empty, with the cell written, `(cell, coords)` appended to the target list and the counters updated; otherwise nothing changes; claimed cells never change, and frontier matches and consistency are preserved |
| Engine.Universe.ClaimInto | common/src/lib.rs:160-190 | the in-place `_set_cell` returns what `ClaimSpec` returns and leaves the state and list that it describes |
| Engine.SetCellSpec | common/src/lib.rs:107-109 | `set_cell` pushes a successful claim onto the universe's own frontier; any other outcome leaves the universe unchanged |
| Engine.Universe.SetCell | common/src/lib.rs:107-109 | the in-place `set_cell` agrees with `SetCellSpec` |
| Engine.SpreadEntry | common/src/lib.rs:114-122 | the `for` loop for one entry keeps the universe consistent and the frontier and metadata unchanged, never changes a claimed cell, and keeps the pushed claims matching; that it fills the neighbours is `SpreadEntryFills` |
| Engine.Universe.SpreadOver | common/src/lib.rs:114-122 | the in-place `for` loop agrees with `SpreadEntry` |
| Engine.Pop | common/src/lib.rs:113 | `pop` shortens the frontier and keeps a consistent universe consistent |
| Engine.Step | common/src/lib.rs:113-122 | one iteration of the `while let` loop pops the last entry, spreads it, and keeps the universe consistent |
| Engine.Universe.SpreadLast | common/src/lib.rs:113-122 | the in-place iteration agrees with `Step` |
| Engine.Universe.PopLast | common/src/lib.rs:112 | the `pop` takes the last frontier entry off and returns it, leaving the cells and the universe's validity alone |
| Engine.Spread | common/src/lib.rs:112-123 | the `while let` loop consumes the whole frontier, keeps the universe consistent, leaves `n_neutral`, `finished` and the seats alone, and never changes a claimed cell; that it fills the layer is `SpreadFills` |
| Engine.Universe.Drain | common/src/lib.rs:112-123 | the in-place loop agrees with `Spread` and returns `next_cells` |
| Engine.EvolveSpec | common/src/lib.rs:111-128 | a generation keeps the universe consistent, never changes a claimed cell, sets `finished` exactly when it was set or no empty cell is left, and keeps `n_neutral` and the seats; `EvolveFills` and `EvolveClaimsOneLayer` state which cells it claims |
| Engine.EvolveAfterDrain | common/src/lib.rs:123-127 | a generation is the drained universe with the list of claims as its frontier and `finished` set once no empty cell is left |
| Engine.Universe.Install | common/src/lib.rs:123-127 | the end of `evolve` installs `next_cells` as the frontier and sets `finished` when `n_empty` is 0, keeping the universe valid |
| Engine.Universe.Evolve | common/src/lib.rs:111-128 | the in-place `evolve` agrees with `EvolveSpec` |
| Engine.SpreadEntryExtends | common/src/lib.rs:116-120 | one entry's spreading only appends to `next_cells` |
| Engine.SpreadEntryClaims | common/src/lib.rs:114-120 | what one entry's spreading appends is in its own colour, on one of its neighbours, and on a cell that was empty |
| Engine.SpreadEntryNames | common/src/lib.rs:114-120 | every cell that one entry's spreading changes is named by a claim it appended |
| Engine.SpreadEntryFills | common/src/lib.rs:114-120 | one entry's spreading leaves every neighbour index that was empty, or already of the entry's colour, in the entry's colour |
| Engine.StepFills | common/src/lib.rs:113-120 | the step that pops an entry leaves none of that entry's neighbours empty |
| Engine.SpreadFillsLast | common/src/lib.rs:113-123 | the neighbours of the last frontier entry stay non-empty once the whole frontier is drained |
| Engine.SpreadKeepsStep | common/src/lib.rs:112-123 | a cell claimed by the first iteration of the loop is still claimed once the frontier is drained |
| Engine.SpreadFillsEarlier | common/src/lib.rs:113-123 | an entry below the last one is still on the frontier after one step, so its neighbours are filled later in the loop |
| Engine.SpreadFills | common/src/lib.rs:113-123 | draining the frontier leaves no neighbour of any of its entries empty: the whole layer is claimed |
| Engine.SpreadExtends | common/src/lib.rs:113-123 | draining the frontier only appends to `next_cells` |
| Engine.SpreadFromFrontier | common/src/lib.rs:113-123 | every claim appended while draining comes from the frontier at the start of the call: the same colour as some entry of it, on one of that entry's neighbours, and on a cell that was empty at the start, so claims made during the call do not spread in the same call |
| Engine.SpreadNamesChanges | common/src/lib.rs:113-123 | every cell changed while draining is named by an appended claim |
| Engine.EvolveClaimsOneLayer | common/src/lib.rs:111-128 | every entry of the new frontier comes from the old frontier as above and matches its cell: growth is one layer per call |
| Engine.EvolveFrontierIsTheClaims | common/src/lib.rs:111-128 | a cell changes in a generation if and only if some entry of the new frontier names it, and only empty cells change |
| Engine.EvolveFills | common/src/lib.rs:111-128 | the converse of `EvolveClaimsOneLayer`: after a generation no neighbour of any entry of the old frontier is empty |
| Engine.EvolveWithoutFrontier | common/src/lib.rs:111-128 | with an empty frontier a generation changes nothing but possibly `finished` |
| Engine.NeutralClaimIsNotCounted | common/src/lib.rs:171-182 | claiming `Neutral` on a fresh grid succeeds, and the four counters then add up to one less than the grid size |
| Engine.Universe.IsFinished | common/src/lib.rs:130-132 | a finished universe has no empty cell |
| Engine.Universe.FromParts | backend/src/main.rs:39 | the universe built from a grid with no red or blue cell and its counts is valid and holds exactly those values, with an empty frontier and free seats |
| Backend.Flip | backend/src/main.rs:190-194 | the colour after a tick is never the colour before it |
| Backend.ToColor | backend/src/main.rs:240 | `Cell::to_color` maps the red cell to the red colour and the blue cell to the blue one |
| Backend.CellOf | backend/src/main.rs:230-238 | the session string "red" claims with the red cell and "blue" with the blue cell, and no other cell is claimed |
| Backend.AsU32 | backend/src/main.rs:179 | the `usize as u32` cast of the session's match id (here and again at line 231) keeps the value below 2^32 and leaves ids below 2^32 unchanged |
| Backend.TickTurn | backend/src/main.rs:185-195 | after the threshold the turn passes to the other colour with no claim made; before it the turn is unchanged |
| Backend.Accepts | backend/src/main.rs:240 | the claim gate: the colour that is not on turn is refused, and once the turn's claim is made every colour is refused |
| Backend.AfterClaim | backend/src/main.rs:240-241 | an accepted claim marks the turn as used; a refused one changes nothing |
| Backend.NoClaimAfterPick | backend/src/main.rs:240-241 | once the turn's claim was made, no later attempt in that turn is accepted |
| Backend.AtMostOneClaimPerTurn | backend/src/main.rs:185-241 | between two ticks at most one claim is accepted in any sequence of attempts, and none if the claim was already made |
| Backend.TurnsAlternate | backend/src/main.rs:185-241 | after a tick exactly the other colour may claim, the colour that just played is refused, and two ticks restore the colour |
| Backend.RemoveFirst | backend/src/main.rs:215-220 | the loop removes at most one user; `RemoveFirstAt` and `RemoveFirstAbsent` state which one |
| Backend.RemoveFirstAt | backend/src/main.rs:215-220 | when position i holds the first user with the name, exactly that user is removed and the others keep their order |
| Backend.RemoveFirstAbsent | backend/src/main.rs:215-220 | when no user has the name, the list is unchanged |
| Backend.EscapeChar | backend/src/main.rs:101 | a character is written unchanged inside a JSON string exactly when it is neither a quote, a backslash nor a control character; otherwise it becomes an escape of at most six characters |
| Backend.Escape | backend/src/main.rs:101 | escaping never shortens a string |
| Backend.Encoded | backend/src/main.rs:101 | the JSON encoding the session stores a name in is longer than the name by at least two and starts and ends with a quote |
| Backend.KillAsWritten | backend/src/main.rs:208-220 | the users `kill_universe` leaves as written: at most one fewer, the first user named by the encoded name removed |
| Backend.KillSparesPlainNames | backend/src/main.rs:208-220 | as written, no user whose name does not start with a quote is removed, so for ordinary names the list is unchanged |
| Backend.KillMissesTheUser | backend/src/main.rs:208-220 | a witness: as written, ending the session of "alice" leaves the user "alice" registered, while the intended removal drops her |
| Backend.Scatter | backend/src/main.rs:30-38 | the placements change only empty cells, and only to `Neutral` |
| Backend.PlaceNeutrals | backend/src/main.rs:26-38 | the loop's grid is the placements applied to an empty grid, has no red or blue cell, and has exact counters with `n_empty + n_neutral` = 32*32 and `n_neutral` at most 50 |
| Backend.GenerateRandom | backend/src/main.rs:25-40 | the trait's `new_rand` yields a valid universe over that grid, with those counters and an empty frontier |
| Backend.ActiveUser.constructor | backend/src/main.rs:57-65 | a new turn record has red to play and no claim made |
| Backend.AppState.constructor | backend/src/main.rs:260-266 | the server starts with universe 0, equal to `RandState()`, no users, `uni_id` 0 and red to play |
| Backend.AppState.RegisterUser | backend/src/main.rs:98-106 | a session without a name appends the user and takes its name; a session with a name changes nothing |
| Backend.AppState.OpenNextMatch | backend/src/main.rs:137-143 | `uni_id` moves to `(uni_id + 1) mod 2^32`, and a fresh universe with red taken is stored there |
| Backend.AppState.GiveUserColor | backend/src/main.rs:123-145 | the reply is "none" with nothing changed when no universe is stored under the open id; otherwise "red" with the red seat taken, or "blue" with the blue seat taken, or "red" from a newly opened match; the session records the colour and the id |
| Backend.AppState.ServeUniverse | backend/src/main.rs:179-200 | after the threshold the session's universe evolves exactly once as `EvolveSpec` says and the turn ticks; otherwise nothing changes; the returned value is the universe's state |
| Backend.AppState.KillUniverse | backend/src/main.rs:208-220 | the session is cleared, the universe under the open id is removed, and the first user with the session's name, as registered, is removed (the intended behaviour; see Findings) |
| Backend.AppState.CellPicked | backend/src/main.rs:230-252 | the turn record becomes `AfterClaim` of the session's colour; an accepted claim then performs `set_cell` at `(row, column)` swapped into `(x, y)`; a refused claim leaves the universe unchanged |

## Left out

- HTTP routing, cookie sessions and the JSON serialisation of requests and replies: the handlers take and return a `Session` value and plain data instead.
- `Mutex` and `AtomicU32`: every handler is one atomic step, and lock poisoning is not modelled. The lock is dropped and taken again between the gate and the claim in `cell_picked`; that gap is a concurrency concern and is not modelled.
- `time::Instant` and the `elapsed() >= 2.0` test: replaced by the boolean parameter `elapsed`. Resetting the clock and `set_timer`, which only sets a display value, are left out.
- `rand::random`: the drawn values are the parameter `draws`.
- The `active_users` and `get_deleted_input` handlers: they only read or echo data.
- `frontend/`, `backend/src/bak.rs` and `common/src/constants.rs`: these are not part of this model. The last one duplicates the constants with 100 neutral blocks; the model uses the values of `common/src/lib.rs`.
- `User::new`, `UserList`, `Point` and the colour constants of `common/src/lib.rs`: plain data for the client.
- Engine.ClaimSpec: requires that a non-`Empty` claim does not name the index equal to the cell count, because the source indexes past the end of `cells` there.
- Backend.AppState.CellPicked: requires a session colour of "red" or "blue" (the source reaches `unreachable!()` otherwise). When the gate accepts, it also requires a stored universe and a cell index inside the grid. These turn the source's `unwrap` calls into preconditions.
- Backend.AppState.ServeUniverse: requires a match id in the session and a universe stored under it, because the source unwraps both lookups.
- Backend.AppState.KillUniverse: requires a name in the session, because the source unwraps it. It compares users with the name as registered, the evidently intended behaviour. The source compares them with the JSON-encoded value `Session::remove` returns, so as written it removes no user with an ordinary name; `KillAsWritten` models that and the Findings table records it.
- Grid.GetIndex: coordinates are unbounded naturals. The source computes `x + y * width` in `usize`, which panics in a debug build and wraps modulo 2^64 in a release build once the product passes 2^64 - 1. In a release build a request with row 2^59 and column 5 would claim cell 5 while pushing the coordinates `(5, 2^59)` onto the frontier. Backend.AppState.CellPicked requires the unbounded index to lie inside the grid, so such requests are outside the model.
- Backend.AppState.CellPicked: the `f64` to `usize` casts of the request are not modelled; it takes the row and column as natural numbers.
- Backend.GenerateRandom: `Universe::_new_rand` is not part of this model. It is taken to store its three arguments, with an empty frontier and free seats.

## Findings

| source | as written | input that shows it | evidently intended | confidence | as-written member | corrected member |
|---|---|---|---|---|---|---|
| backend/src/main.rs:208-220 | `kill_universe` compares each user's name with the value `Session::remove` returns, which is the JSON-encoded name, quotes included | were the handler mounted (it is not, main.rs:277-283), a user registered as `alice` ending their session: the encoded name `"alice"` matches nobody, so `alice` stays in the list | remove the user whose session ends | medium, not executed; rests on the session library returning the stored JSON text | Backend.KillAsWritten, Backend.KillMissesTheUser | Backend.AppState.KillUniverse, Backend.RemoveFirstAt |
