/**
 * The game state kept by the HTTP handlers of `backend/src/main.rs`, with the
 * transport, the session store, the locks and the clock taken away: a class
 * holding the universes keyed by match id, the id of the match open for new
 * players, one turn record shared by all universes, and the list of
 * registered users. Each handler is one atomic method.
 */
module Backend {
  import opened Wrappers
  import opened Grid
  import opened Engine

  /** `uni_id` is an `AtomicU32`; `fetch_add` wraps around. */
  const U32_LIMIT: nat := 0x1_0000_0000

  /** The `usize as u32` cast of a match id read back from the session. */
  function AsU32(n: nat): (r: nat)
    ensures r < U32_LIMIT
    ensures n < U32_LIMIT ==> r == n
  {
    n % U32_LIMIT
  }

  /** Whose turn it is. */
  datatype Color = Red | Blue

  /** The other colour. */
  function Flip(c: Color): (r: Color)
    ensures r != c
  {
    if c == Color.Red then Color.Blue else Color.Red
  }

  /** `Cell::to_color` on the two cells a player claims with. */
  function ToColor(c: Cell): (r: Color)
    requires c == Cell.Red || c == Cell.Blue
    ensures r == Color.Red <==> c == Cell.Red
  {
    if c == Cell.Red then Color.Red else Color.Blue
  }

  /**
   * The cell a player's session colour claims with; `cell_picked` panics
   * (`unreachable!()`) on any other string.
   */
  function CellOf(color: string): (r: Cell)
    requires color == "red" || color == "blue"
    ensures r == Cell.Red || r == Cell.Blue
    ensures r == Cell.Red <==> color == "red"
  {
    if color == "red" then Cell.Red else Cell.Blue
  }

  datatype User = User(name: string)

  /**
   * What the handlers keep in a client's cookie session: the user name, the
   * colour string and the match id.
   */
  datatype Session = Session(name: Option<string>, color: Option<string>, universeIdx: Option<nat>)

  /** The value of the shared turn record `ActiveUser`, without its clock. */
  datatype Turn = Turn(status: Color, cellPicked: bool)

  /**
   * The turn tick of `serve_universe`: once the threshold has elapsed the
   * turn passes to the other colour with no claim made yet; before that
   * nothing changes.
   */
  function TickTurn(t: Turn, elapsed: bool): (r: Turn)
    ensures elapsed ==> r.status == Flip(t.status) && r.status != t.status && !r.cellPicked
    ensures !elapsed ==> r == t
  {
    if elapsed then Turn(Flip(t.status), false) else t
  }

  /** The claim gate of `cell_picked`: the colour whose turn it is, and no claim yet this turn. */
  predicate Accepts(t: Turn, c: Color): (r: bool)
    ensures r ==> c != Flip(t.status)
    ensures t.cellPicked ==> !r
  {
    t.status == c && !t.cellPicked
  }

  /** The turn after a claim attempt by `c`: an accepted claim uses up the turn. */
  function AfterClaim(t: Turn, c: Color): (r: Turn)
    ensures Accepts(t, c) ==> r == Turn(t.status, true)
    ensures !Accepts(t, c) ==> r == t
  {
    if Accepts(t, c) then t.(cellPicked := true) else t
  }

  /** How many of the claim attempts `claims`, made in order with no tick between them, are accepted. */
  function AcceptedCount(t: Turn, claims: seq<Color>): nat
    decreases |claims|
  {
    if claims == [] then 0
    else (if Accepts(t, claims[0]) then 1 else 0) + AcceptedCount(AfterClaim(t, claims[0]), claims[1..])
  }

  /** Once a claim was made this turn, no further attempt is accepted. */
  lemma {:induction false} NoClaimAfterPick(t: Turn, claims: seq<Color>)
    requires t.cellPicked
    ensures AcceptedCount(t, claims) == 0
    decreases |claims|
  {
    if claims != [] {
      NoClaimAfterPick(AfterClaim(t, claims[0]), claims[1..]);
    }
  }

  /**
   * Between two ticks at most one claim is accepted, and none if the turn's
   * claim was already made.
   */
  lemma {:induction false} AtMostOneClaimPerTurn(t: Turn, claims: seq<Color>)
    ensures AcceptedCount(t, claims) <= (if t.cellPicked then 0 else 1)
    decreases |claims|
  {
    if claims != [] {
      var u := AfterClaim(t, claims[0]);
      if Accepts(t, claims[0]) {
        NoClaimAfterPick(u, claims[1..]);
      } else {
        AtMostOneClaimPerTurn(u, claims[1..]);
      }
    }
  }

  /**
   * After an elapsed tick exactly the other colour may claim: the colour
   * that just played is refused whatever it asks for.
   */
  lemma TurnsAlternate(t: Turn, c: Color)
    ensures Accepts(TickTurn(t, true), c) <==> c == Flip(t.status)
    ensures !Accepts(TickTurn(t, true), t.status)
    ensures TickTurn(TickTurn(t, true), true) == t.(cellPicked := false)
  {
  }

  /** The first user named `name` removed, the others kept in order. */
  function RemoveFirst(users: seq<User>, name: string): (r: seq<User>)
    ensures |r| <= |users| <= |r| + 1
    decreases |users|
  {
    if users == [] then []
    else if users[0].name == name then users[1..]
    else [users[0]] + RemoveFirst(users[1..], name)
  }

  /** When `i` is the first position holding `name`, exactly that user is removed. */
  lemma {:induction false} RemoveFirstAt(users: seq<User>, name: string, i: nat)
    requires i < |users| && users[i].name == name
    requires forall k :: 0 <= k < i ==> users[k].name != name
    ensures RemoveFirst(users, name) == users[..i] + users[i + 1..]
    decreases i
  {
    if i > 0 {
      RemoveFirstAt(users[1..], name, i - 1);
      assert users[1..][..i - 1] == users[1..i];
      assert users[1..][i..] == users[i + 1..];
      assert [users[0]] + users[1..i] == users[..i];
    }
  }

  /** When nobody is named `name`, the list is unchanged. */
  lemma {:induction false} RemoveFirstAbsent(users: seq<User>, name: string)
    requires forall k :: 0 <= k < |users| ==> users[k].name != name
    ensures RemoveFirst(users, name) == users
    decreases |users|
  {
    if users != [] {
      RemoveFirstAbsent(users[1..], name);
    }
  }

  /** The hexadecimal digits `serde_json` writes in a `\u00XX` escape. */
  const HEX: string := "0123456789abcdef"

  /**
   * One character of a string as `serde_json` writes it inside a JSON string
   * literal: the quote and the backslash are escaped, and so is every control
   * character below U+0020, by its short escape or as `\u00XX`.
   */
  function EscapeChar(c: char): (r: string)
    ensures 1 <= |r| <= 6
    ensures c != '"' && c != '\\' && c as int >= 0x20 <==> r == [c]
  {
    var v := c as int;
    if c == '"' then "\\\""
    else if c == '\\' then "\\\\"
    else if v == 0x08 then "\\b"
    else if v == 0x0C then "\\f"
    else if c == '\n' then "\\n"
    else if c == '\r' then "\\r"
    else if c == '\t' then "\\t"
    else if v < 0x20 then "\\u00" + [HEX[v / 16], HEX[v % 16]]
    else [c]
  }

  function Escape(s: string): (r: string)
    ensures |r| >= |s|
  {
    if s == [] then [] else EscapeChar(s[0]) + Escape(s[1..])
  }

  /**
   * The JSON encoding of a string. The session stores every value this way,
   * and `Session::remove` hands back the stored text without decoding it.
   */
  function Encoded(name: string): (r: string)
    ensures |r| >= |name| + 2 && r[0] == '"' && r[|r| - 1] == '"'
  {
    "\"" + Escape(name) + "\""
  }

  /**
   * The user list `kill_universe` leaves as written: the name it compares
   * with is the value `Session::remove` returns, that is, the encoded name.
   */
  function KillAsWritten(users: seq<User>, name: string): (r: seq<User>)
    ensures |r| <= |users|
  {
    RemoveFirst(users, Encoded(name))
  }

  /**
   * As written, `kill_universe` removes no user whose name does not start
   * with a quote: in particular it never removes the user whose session ends,
   * unless that name itself starts with one.
   */
  lemma KillSparesPlainNames(users: seq<User>, name: string)
    requires forall k :: 0 <= k < |users| ==> users[k].name == [] || users[k].name[0] != '"'
    ensures KillAsWritten(users, name) == users
  {
    forall k | 0 <= k < |users|
      ensures users[k].name != Encoded(name)
    {
    }
    RemoveFirstAbsent(users, Encoded(name));
  }

  /** A witness: the user "alice" survives the end of her own session as written. */
  lemma KillMissesTheUser()
    ensures KillAsWritten([User("alice")], "alice") == [User("alice")]
    ensures RemoveFirst([User("alice")], "alice") == []
  {
    KillSparesPlainNames([User("alice")], "alice");
  }

  /**
   * Each step of the loop of `GenerateRandom::new_rand`: the drawn random
   * value, reduced modulo the number of cells, turns that cell `Neutral` if
   * it is still empty.
   */
  function Scatter(cells: seq<Cell>, draws: seq<nat>): (r: seq<Cell>)
    requires |cells| > 0
    ensures |r| == |cells|
    ensures forall i :: 0 <= i < |r| && r[i] != cells[i] ==> cells[i] == Empty && r[i] == Neutral
    decreases |draws|
  {
    if draws == [] then cells
    else
      var idx := draws[0] % |cells|;
      Scatter(if cells[idx] == Empty then cells[idx := Neutral] else cells, draws[1..])
  }

  /**
   * The loop of `GenerateRandom::new_rand`, on its local grid and counters:
   * each iteration turns at most one empty cell neutral, so afterwards the
   * grid has no red or blue cell, the two counters are exact, they add up to
   * the number of cells, and at most `N_NEUTRAL_BLOCKS` cells are neutral.
   * `draws` stands for the values of `rand::random`.
   */
  method PlaceNeutrals(draws: seq<nat>) returns (cells: seq<Cell>, nEmpty: nat, nNeutral: nat)
    requires |draws| == N_NEUTRAL_BLOCKS
    ensures cells == Scatter(EmptyState().cells, draws)
    ensures |cells| == SIZE && Count(cells, Cell.Red) == 0 && Count(cells, Cell.Blue) == 0
    ensures nEmpty == Count(cells, Empty) && nNeutral == Count(cells, Neutral)
    ensures nEmpty + nNeutral == SIZE && nNeutral <= N_NEUTRAL_BLOCKS
  {
    cells := EmptyState().cells;
    nEmpty, nNeutral := SIZE, 0;
    for i := 0 to N_NEUTRAL_BLOCKS
      invariant |cells| == SIZE
      invariant Scatter(cells, draws[i..]) == Scatter(EmptyState().cells, draws)
      invariant Count(cells, Cell.Red) == 0 && Count(cells, Cell.Blue) == 0
      invariant nEmpty == Count(cells, Empty) && nNeutral == Count(cells, Neutral)
      invariant nNeutral <= i
    {
      var idx := draws[i] % |cells|;
      assert draws[i..][1..] == draws[i + 1..];
      ghost var placed := if cells[idx] == Empty then cells[idx := Neutral] else cells;
      assert Scatter(cells, draws[i..]) == Scatter(placed, draws[i + 1..]);
      if cells[idx] == Empty {
        CountUpdate(cells, idx, Neutral, Empty);
        CountUpdate(cells, idx, Neutral, Neutral);
        CountUpdate(cells, idx, Neutral, Cell.Red);
        CountUpdate(cells, idx, Neutral, Cell.Blue);
        cells := cells[idx := Neutral];
        nEmpty := nEmpty - 1;
        nNeutral := nNeutral + 1;
      }
    }
    CountTotal(cells);
  }

  /**
   * `GenerateRandom::new_rand` followed by the universe constructor it calls
   * (`Universe::_new_rand`, which the shown sources do not define).
   */
  method GenerateRandom(draws: seq<nat>) returns (uni: Universe)
    requires |draws| == N_NEUTRAL_BLOCKS
    ensures fresh(uni) && uni.Valid()
    ensures uni.cells == Scatter(EmptyState().cells, draws) && uni.activeCells == []
    ensures uni.nEmpty + uni.nNeutral == SIZE && uni.nNeutral <= N_NEUTRAL_BLOCKS
    ensures uni.nRed == 0 && uni.nBlue == 0 && !uni.finished
  {
    var cells, nEmpty, nNeutral := PlaceNeutrals(draws);
    uni := new Universe.FromParts(cells, nEmpty, nNeutral);
  }

  /** The turn record `ActiveUser`, without its clock. */
  class ActiveUser {
    var status: Color
    var cellPicked: bool

    constructor ()
      ensures status == Color.Red && !cellPicked
    {
      status := Color.Red;
      cellPicked := false;
    }

    function State(): Turn
      reads this
    {
      Turn(status, cellPicked)
    }
  }

  /** The shared state `AppState`: users, universes, the turn record and `uni_id`. */
  class AppState {
    var users: seq<User>
    var universes: map<nat, Universe>
    var uniId: nat
    const activeUser: ActiveUser

    /**
     * The id fits a `u32`, every universe is valid, and no two ids share a
     * universe: the `HashMap` owns each of its values.
     */
    ghost predicate Valid()
      reads this, universes.Values
    {
      uniId < U32_LIMIT &&
      (forall id :: id in universes ==> universes[id].Valid()) &&
      (forall i, j :: i in universes && j in universes && i != j ==> universes[i] != universes[j])
    }

    /** The universe stored under `id`, as a frame. */
    function UniverseAt(id: nat): set<Universe>
      reads this
    {
      if id in universes then {universes[id]} else {}
    }

    /** The state `main` starts the server with: one universe under id 0, no users, red to play. */
    constructor ()
      ensures Valid() && users == [] && uniId == 0
      ensures universes.Keys == {0} && fresh(universes[0]) && universes[0].Snapshot() == RandState()
      ensures fresh(activeUser) && activeUser.State() == Turn(Color.Red, false)
    {
      var uni := Universe.NewRand();
      users := [];
      universes := map[0 := uni];
      activeUser := new ActiveUser();
      uniId := 0;
    }

    /** `register_user`: a session that has no name yet registers `newUser` and takes its name. */
    method RegisterUser(session: Session, newUser: User) returns (session': Session)
      requires Valid()
      modifies this
      ensures Valid() && universes == old(universes) && uniId == old(uniId)
      ensures session.name.None? ==>
                users == old(users) + [newUser] && session' == session.(name := Some(newUser.name))
      ensures session.name.Some? ==> users == old(users) && session' == session
    {
      session' := session;
      match session.name
      case None =>
        users := users + [newUser];
        session' := session.(name := Some(newUser.name));
      case Some(_) =>
    }

    /** After `changed` was updated and kept valid, every universe is still valid. */
    twostate lemma OthersKeepValid(changed: Universe)
      requires old(Valid()) && changed.Valid()
      requires unchanged(this) && forall u :: u in old(universes.Values) && u != changed ==> unchanged(u)
      ensures Valid()
    {
      forall id | id in universes
        ensures universes[id].Valid()
      {
        assert universes[id] in old(universes.Values);
      }
    }

    /**
     * The third branch of `give_user_color`: `uni_id` moves on (wrapping) and
     * a fresh universe whose red seat is taken is stored under it, replacing
     * any universe stored there before.
     */
    method OpenNextMatch()
      requires Valid()
      modifies this
      ensures Valid() && users == old(users)
      ensures uniId == (old(uniId) + 1) % U32_LIMIT && uniId in universes && fresh(universes[uniId])
      ensures universes == old(universes)[uniId := universes[uniId]]
      ensures universes[uniId].Snapshot() == RandState().(redPlayerConnected := true)
    {
      uniId := (uniId + 1) % U32_LIMIT;
      var started := Universe.NewRand();
      started.redPlayerConnected := true;
      universes := universes[uniId := started];
    }

    /**
     * `give_user_color`: the first free seat of the open match, red before
     * blue; when both are taken, the next id is opened with a fresh universe
     * whose red seat is taken. Without a universe under the open id the reply
     * is "none" and nothing changes.
     */
    method GiveUserColor(session: Session) returns (reply: string, session': Session)
      requires Valid()
      modifies this, UniverseAt(uniId)
      ensures Valid() && users == old(users)
      ensures old(uniId !in universes) ==>
                reply == "none" && session' == session &&
                universes == old(universes) && uniId == old(uniId)
      ensures old(uniId in universes && !universes[uniId].redPlayerConnected) ==>
                reply == "red" && universes == old(universes) && uniId == old(uniId) &&
                universes[uniId].Snapshot() == old(universes[uniId].Snapshot()).(redPlayerConnected := true)
      ensures old(uniId in universes && universes[uniId].redPlayerConnected &&
                  !universes[uniId].bluePlayerConnected) ==>
                reply == "blue" && universes == old(universes) && uniId == old(uniId) &&
                universes[uniId].Snapshot() == old(universes[uniId].Snapshot()).(bluePlayerConnected := true)
      ensures old(uniId in universes && universes[uniId].redPlayerConnected &&
                  universes[uniId].bluePlayerConnected) ==>
                reply == "red" && uniId == (old(uniId) + 1) % U32_LIMIT &&
                uniId in universes && fresh(universes[uniId]) &&
                universes == old(universes)[uniId := universes[uniId]] &&
                universes[uniId].Snapshot() == RandState().(redPlayerConnected := true) &&
                unchanged(old(universes[uniId]))
      ensures reply != "none" ==> session' == session.(color := Some(reply), universeIdx := Some(uniId))
    {
      if uniId !in universes {
        return "none", session;
      }
      var uni := universes[uniId];
      if !uni.redPlayerConnected {
        reply := "red";
        uni.redPlayerConnected := true;
        OthersKeepValid(uni);
      } else if !uni.bluePlayerConnected {
        reply := "blue";
        uni.bluePlayerConnected := true;
        OthersKeepValid(uni);
      } else {
        reply := "red";
        OpenNextMatch();
      }
      session' := session.(color := Some(reply), universeIdx := Some(uniId));
    }

    /**
     * `serve_universe` for the session's match: if the turn threshold has
     * elapsed, the universe evolves exactly once and the turn passes to the
     * other colour with no claim made; otherwise nothing changes. Returns the
     * universe that is serialised to the client.
     */
    method ServeUniverse(session: Session, elapsed: bool) returns (snapshot: UniverseState)
      requires Valid()
      requires session.universeIdx.Some? && AsU32(session.universeIdx.value) in universes
      modifies activeUser, universes[AsU32(session.universeIdx.value)]
      ensures Valid()
      ensures var uni := universes[AsU32(session.universeIdx.value)];
              snapshot == uni.Snapshot() &&
              (elapsed ==> uni.Snapshot() == EvolveSpec(old(uni.Snapshot()))) &&
              (!elapsed ==> uni.Snapshot() == old(uni.Snapshot())) &&
              activeUser.State() == TickTurn(old(activeUser.State()), elapsed)
    {
      var uidx := AsU32(session.universeIdx.value);
      var uni := universes[uidx];
      if elapsed {
        uni.Evolve();
        activeUser.cellPicked := false;
        if activeUser.status == Color.Red {
          activeUser.status := Color.Blue;
        } else if activeUser.status == Color.Blue {
          activeUser.status := Color.Red;
        }
      }
      OthersKeepValid(uni);
      snapshot := uni.Snapshot();
    }

    /**
     * `kill_universe`: the session is cleared, the universe under the open id
     * (not necessarily the session's) is removed, and the first user with the
     * session's name is removed from the list. The name is compared as the
     * user registered it, which is what the handler evidently intends; the
     * list the handler leaves as written is `KillAsWritten`.
     */
    method KillUniverse(session: Session) returns (session': Session)
      requires Valid() && session.name.Some?
      modifies this
      ensures Valid() && uniId == old(uniId)
      ensures universes == old(universes) - {old(uniId)}
      ensures users == RemoveFirst(old(users), session.name.value)
      ensures session' == Session(None, None, None)
    {
      var name := session.name.value;
      session' := Session(None, None, None);
      universes := universes - {uniId};
      var n := |users|;
      var i := 0;
      while i < n
        invariant 0 <= i <= n && users == old(users)
        invariant forall k :: 0 <= k < i ==> users[k].name != name
      {
        if users[i].name == name {
          RemoveFirstAt(users, name, i);
          users := users[..i] + users[i + 1..];
          break;
        }
        i := i + 1;
      }
      if i == n {
        RemoveFirstAbsent(old(users), name);
      }
    }

    /**
     * `cell_picked`: a claim by the session's colour is accepted only on that
     * colour's turn and only once per turn. Acceptance marks the turn as used
     * before the cell is claimed, so the turn is used even when the cell was
     * already taken. A refused claim changes nothing. The request carries
     * `(row, column)`. The source unwraps the match lookup and the claim's
     * result, so an accepted claim needs an existing match and a cell index
     * inside the grid.
     */
    method CellPicked(session: Session, request: (nat, nat))
      requires Valid()
      requires session.color.Some? && (session.color.value == "red" || session.color.value == "blue")
      requires session.universeIdx.Some?
      requires Accepts(activeUser.State(), ToColor(CellOf(session.color.value))) ==>
                 AsU32(session.universeIdx.value) in universes &&
                 Index(WIDTH, (request.1, request.0)) < SIZE
      modifies activeUser, UniverseAt(AsU32(session.universeIdx.value))
      ensures Valid()
      ensures activeUser.State() == AfterClaim(old(activeUser.State()), ToColor(CellOf(session.color.value)))
      ensures universes == old(universes) && users == old(users) && uniId == old(uniId)
      ensures var cell := CellOf(session.color.value);
              var uidx := AsU32(session.universeIdx.value);
              if old(Accepts(activeUser.State(), ToColor(cell))) then
                universes[uidx].Snapshot() ==
                  SetCellSpec(old(universes[uidx].Snapshot()), cell, (request.1, request.0)).1
              else
                uidx in universes ==> universes[uidx].Snapshot() == old(universes[uidx].Snapshot())
    {
      var c := session.color.value;
      var uidx := AsU32(session.universeIdx.value);
      var cell := if c == "red" then Cell.Red else Cell.Blue;
      if activeUser.status == ToColor(cell) && activeUser.cellPicked == false {
        activeUser.cellPicked := true;
        var coords := (request.1, request.0);
        var uni := universes[uidx];
        var _ := uni.SetCell(cell, coords);
      }
    }
  }
}
