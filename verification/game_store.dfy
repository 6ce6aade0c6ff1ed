/** The client's game store: the state the browser keeps about the session it plays
    in, and the pure updates applied to it as the server's events arrive. Each update
    replaces the current session by a copy with one list changed and leaves the rest
    of the store alone; with no current session every update does nothing. */
module GameStore {
  import opened Wrappers
  import opened Types

  /** A player as the client sees it (no socket id, no join time). */
  datatype ClientPlayer = ClientPlayer(
    id: string,
    name: string,
    character: Option<Character>,
    isHost: bool,
    isConnected: bool)

  /** A session as the client receives it; the three event lists may be missing. */
  datatype ClientSession = ClientSession(
    id: string,
    code: string,
    scenario: Scenario,
    players: seq<ClientPlayer>,
    currentPhase: Phase,
    hostId: string,
    createdAt: int,
    startedAt: Option<int>,
    endedAt: Option<int>,
    chatMessages: Option<seq<ChatMessage>>,
    accusations: Option<seq<Accusation>>,
    revealedClues: Option<seq<string>>)

  datatype GameState = GameState(
    currentGame: Option<ClientSession>,
    currentPlayer: Option<ClientPlayer>,
    isConnected: bool,
    isHost: bool,
    isLoading: bool,
    error: Option<string>,
    gamePhase: Phase)

  /** `initialState`. */
  const InitialState: GameState := GameState(None, None, false, false, false, None, Lobby)

  /** A `Partial<Player>`: each field is present or absent. A character that is present
      but `undefined` clears the player's character, hence the nested option. */
  datatype PlayerPatch = PlayerPatch(
    id: Option<string>,
    name: Option<string>,
    character: Option<Option<Character>>,
    isHost: Option<bool>,
    isConnected: Option<bool>)

  const EmptyPatch: PlayerPatch := PlayerPatch(None, None, None, None, None)

  /** `{ ...player, ...updates }`: the present fields of the patch win. */
  function Apply(p: ClientPlayer, u: PlayerPatch): (q: ClientPlayer)
    ensures u.id.None? ==> q.id == p.id
    ensures u.name.None? ==> q.name == p.name
    ensures u.character.None? ==> q.character == p.character
    ensures u.isHost.None? ==> q.isHost == p.isHost
    ensures u.isConnected.None? ==> q.isConnected == p.isConnected
    ensures u.id.Some? ==> q.id == u.id.value
    ensures u.name.Some? ==> q.name == u.name.value
    ensures u.character.Some? ==> q.character == u.character.value
    ensures u.isHost.Some? ==> q.isHost == u.isHost.value
    ensures u.isConnected.Some? ==> q.isConnected == u.isConnected.value
  {
    ClientPlayer(u.id.GetOr(p.id), u.name.GetOr(p.name), u.character.GetOr(p.character),
                 u.isHost.GetOr(p.isHost), u.isConnected.GetOr(p.isConnected))
  }

  /** The empty patch changes nothing, and applying a patch twice is applying it once. */
  lemma ApplyLaws(p: ClientPlayer, u: PlayerPatch)
    ensures Apply(p, EmptyPatch) == p
    ensures Apply(Apply(p, u), u) == Apply(p, u)
  {
  }

  /** `players.map(player => player.id === playerId ? { ...player, ...updates } : player)`. */
  function UpdateMatching(ps: seq<ClientPlayer>, playerId: string, u: PlayerPatch): (qs: seq<ClientPlayer>)
    ensures |qs| == |ps|
    ensures forall i :: 0 <= i < |ps| && ps[i].id != playerId ==> qs[i] == ps[i]
    ensures forall i :: 0 <= i < |ps| && ps[i].id == playerId ==> qs[i] == Apply(ps[i], u)
  {
    if ps == [] then []
    else
      var rest := UpdateMatching(ps[1..], playerId, u);
      [if ps[0].id == playerId then Apply(ps[0], u) else ps[0]] + rest
  }

  /** `ps.filter(p => p.id !== playerId)`. */
  function WithoutId(ps: seq<ClientPlayer>, playerId: string): (qs: seq<ClientPlayer>)
    ensures forall q :: q in qs <==> q in ps && q.id != playerId
    ensures forall q :: multiset(qs)[q] == if q.id == playerId then 0 else multiset(ps)[q]
    ensures |qs| <= |ps|
  {
    if ps == [] then []
    else
      assert ps == [ps[0]] + ps[1..];
      (if ps[0].id == playerId then [] else [ps[0]]) + WithoutId(ps[1..], playerId)
  }

  // ----- The store's game actions -----

  /** `updatePlayer(playerId, updates)`: every player with that id is patched; the
      others, their order and the rest of the store are unchanged. */
  function UpdatePlayer(st: GameState, playerId: string, u: PlayerPatch): (r: GameState)
    ensures st.currentGame.None? ==> r == st
    ensures st.currentGame.Some? ==>
              var g := st.currentGame.value;
              && r == st.(currentGame := r.currentGame)
              && r.currentGame.Some? && r.currentGame.value == g.(players := r.currentGame.value.players)
              && |r.currentGame.value.players| == |g.players|
              && (forall i :: 0 <= i < |g.players| && g.players[i].id != playerId ==>
                              r.currentGame.value.players[i] == g.players[i])
              && (forall i :: 0 <= i < |g.players| && g.players[i].id == playerId ==>
                              r.currentGame.value.players[i] == Apply(g.players[i], u))
  {
    match st.currentGame
    case None => st
    case Some(g) => st.(currentGame := Some(g.(players := UpdateMatching(g.players, playerId, u))))
  }

  /** `addPlayer(player)`: appended at the end. */
  function AddPlayer(st: GameState, p: ClientPlayer): (r: GameState)
    ensures st.currentGame.None? ==> r == st
    ensures st.currentGame.Some? ==>
              var g := st.currentGame.value;
              && r == st.(currentGame := r.currentGame)
              && r.currentGame == Some(g.(players := g.players + [p]))
  {
    match st.currentGame
    case None => st
    case Some(g) => st.(currentGame := Some(g.(players := g.players + [p])))
  }

  /** `removePlayer(playerId)`: exactly the players with that id are dropped. */
  function RemovePlayer(st: GameState, playerId: string): (r: GameState)
    ensures st.currentGame.None? ==> r == st
    ensures st.currentGame.Some? ==>
              var g := st.currentGame.value;
              && r == st.(currentGame := r.currentGame)
              && r.currentGame.Some? && r.currentGame.value == g.(players := r.currentGame.value.players)
              && r.currentGame.value.players == WithoutId(g.players, playerId)
              && (forall q :: q in r.currentGame.value.players <==> q in g.players && q.id != playerId)
              && (forall q :: multiset(r.currentGame.value.players)[q] ==
                                if q.id == playerId then 0 else multiset(g.players)[q])
  {
    match st.currentGame
    case None => st
    case Some(g) => st.(currentGame := Some(g.(players := WithoutId(g.players, playerId))))
  }

  /** `addChatMessage(message)`: a missing list counts as empty. */
  function AddChatMessage(st: GameState, m: ChatMessage): (r: GameState)
    ensures st.currentGame.None? ==> r == st
    ensures st.currentGame.Some? ==>
              var g := st.currentGame.value;
              && r == st.(currentGame := r.currentGame)
              && r.currentGame == Some(g.(chatMessages := Some(g.chatMessages.GetOr([]) + [m])))
  {
    match st.currentGame
    case None => st
    case Some(g) => st.(currentGame := Some(g.(chatMessages := Some(g.chatMessages.GetOr([]) + [m]))))
  }

  /** `addAccusation(accusation)`: a missing list counts as empty; the store does not
      check for an earlier accusation by the same player. */
  function AddAccusation(st: GameState, a: Accusation): (r: GameState)
    ensures st.currentGame.None? ==> r == st
    ensures st.currentGame.Some? ==>
              var g := st.currentGame.value;
              && r == st.(currentGame := r.currentGame)
              && r.currentGame == Some(g.(accusations := Some(g.accusations.GetOr([]) + [a])))
  {
    match st.currentGame
    case None => st
    case Some(g) => st.(currentGame := Some(g.(accusations := Some(g.accusations.GetOr([]) + [a]))))
  }

  /** `revealClue(clueId)`: an id already revealed leaves the store as it is; a new one
      is appended. */
  function RevealClue(st: GameState, clueId: string): (r: GameState)
    ensures st.currentGame.None? ==> r == st
    ensures st.currentGame.Some? ==>
              var g := st.currentGame.value;
              var shown := g.revealedClues.GetOr([]);
              && (clueId in shown ==> r == st)
              && (clueId !in shown ==> r == st.(currentGame := Some(g.(revealedClues := Some(shown + [clueId])))))
  {
    match st.currentGame
    case None => st
    case Some(g) =>
      var shown := g.revealedClues.GetOr([]);
      if clueId in shown then st
      else st.(currentGame := Some(g.(revealedClues := Some(shown + [clueId]))))
  }

  /** `resetGame()`: the store returns to `initialState` whatever it held. */
  function ResetGame(st: GameState): (r: GameState)
    ensures r.currentGame.None? && r.currentPlayer.None? && r.error.None?
    ensures !r.isConnected && !r.isHost && !r.isLoading && r.gamePhase == Lobby
  {
    InitialState
  }

  /** The game actions, as one type so that laws about all of them can be stated once. */
  datatype GameAction =
    | UpdatePlayerAction(playerId: string, updates: PlayerPatch)
    | AddPlayerAction(player: ClientPlayer)
    | RemovePlayerAction(removedId: string)
    | AddChatMessageAction(message: ChatMessage)
    | AddAccusationAction(accusation: Accusation)
    | RevealClueAction(clueId: string)

  function Dispatch(st: GameState, a: GameAction): GameState {
    match a
    case UpdatePlayerAction(id, u) => UpdatePlayer(st, id, u)
    case AddPlayerAction(p) => AddPlayer(st, p)
    case RemovePlayerAction(id) => RemovePlayer(st, id)
    case AddChatMessageAction(m) => AddChatMessage(st, m)
    case AddAccusationAction(acc) => AddAccusation(st, acc)
    case RevealClueAction(c) => RevealClue(st, c)
  }

  /** The whole store after a run of actions. */
  function DispatchAll(st: GameState, acts: seq<GameAction>): GameState
    decreases |acts|
  {
    if acts == [] then st else DispatchAll(Dispatch(st, acts[0]), acts[1..])
  }

  // ----- Laws -----

  /** Without a current session any run of actions leaves the store unchanged; in
      particular every action after `resetGame` is ignored. */
  lemma {:induction false} NoSessionIgnoresActions(st: GameState, acts: seq<GameAction>)
    requires st.currentGame.None?
    ensures DispatchAll(st, acts) == st
    ensures DispatchAll(ResetGame(st), acts) == InitialState
    decreases |acts|
  {
    if acts != [] {
      NoSessionIgnoresActions(Dispatch(st, acts[0]), acts[1..]);
      NoSessionIgnoresActions(InitialState, acts[1..]);
    }
  }

  /** No action touches anything but the current session. */
  lemma ActionsOnlyTouchSession(st: GameState, a: GameAction)
    ensures Dispatch(st, a) == st.(currentGame := Dispatch(st, a).currentGame)
    ensures Dispatch(st, a).currentGame.Some? <==> st.currentGame.Some?
  {
  }

  /** A roster in which nobody has the id passes the filter unchanged. */
  lemma {:induction false} WithoutIdKeepsSurvivors(ps: seq<ClientPlayer>, playerId: string)
    requires forall i :: 0 <= i < |ps| ==> ps[i].id != playerId
    ensures WithoutId(ps, playerId) == ps
  {
    if ps != [] {
      WithoutIdKeepsSurvivors(ps[1..], playerId);
      assert [ps[0]] + ps[1..] == ps;
    }
  }

  /** Removing a freshly added player gives back the roster it was added to. */
  lemma RemoveUndoesAdd(ps: seq<ClientPlayer>, p: ClientPlayer)
    requires forall q :: q in ps ==> q.id != p.id
    ensures WithoutId(ps + [p], p.id) == ps
  {
    WithoutIdAppend(ps, [p], p.id);
    WithoutIdKeepsSurvivors(ps, p.id);
    assert WithoutId([p], p.id) == [] by {
      assert [p][1..] == [];
    }
  }

  /** At the store level: `addPlayer` then `removePlayer` of its id restores the store. */
  lemma RemovePlayerUndoesAddPlayer(st: GameState, p: ClientPlayer)
    requires st.currentGame.Some? ==> forall q :: q in st.currentGame.value.players ==> q.id != p.id
    ensures RemovePlayer(AddPlayer(st, p), p.id) == st
  {
    if st.currentGame.Some? {
      RemoveUndoesAdd(st.currentGame.value.players, p);
    }
  }

  lemma ConcatAssoc<T>(a: seq<T>, b: seq<T>, c: seq<T>)
    ensures a + (b + c) == (a + b) + c
  {
  }

  /** Filtering distributes over concatenation, so the kept players stay in order. */
  lemma {:induction false} WithoutIdAppend(a: seq<ClientPlayer>, b: seq<ClientPlayer>, playerId: string)
    ensures WithoutId(a + b, playerId) == WithoutId(a, playerId) + WithoutId(b, playerId)
  {
    if a == [] {
      assert a + b == b;
    } else {
      var head := if a[0].id == playerId then [] else [a[0]];
      assert (a + b)[0] == a[0];
      assert (a + b)[1..] == a[1..] + b;
      assert WithoutId(a + b, playerId) == head + WithoutId(a[1..] + b, playerId);
      assert WithoutId(a, playerId) == head + WithoutId(a[1..], playerId);
      WithoutIdAppend(a[1..], b, playerId);
      ConcatAssoc(head, WithoutId(a[1..], playerId), WithoutId(b, playerId));
    }
  }

  /** A roster without the id is left alone, so removing twice is removing once. */
  lemma {:induction false} WithoutIdIdempotent(ps: seq<ClientPlayer>, playerId: string)
    ensures WithoutId(WithoutId(ps, playerId), playerId) == WithoutId(ps, playerId)
  {
    if ps != [] {
      WithoutIdIdempotent(ps[1..], playerId);
      var head := if ps[0].id == playerId then [] else [ps[0]];
      WithoutIdAppend(head, WithoutId(ps[1..], playerId), playerId);
    }
  }

  lemma RemovePlayerIdempotent(st: GameState, playerId: string)
    ensures RemovePlayer(RemovePlayer(st, playerId), playerId) == RemovePlayer(st, playerId)
  {
    if st.currentGame.Some? {
      WithoutIdIdempotent(st.currentGame.value.players, playerId);
    }
  }

  /** Patching with the empty patch changes nothing; a patch that leaves the id alone
      (or sets it to the same id) can be applied twice to the same effect as once. */
  lemma UpdatePlayerLaws(st: GameState, playerId: string, u: PlayerPatch)
    requires u.id.None? || u.id == Some(playerId)
    ensures UpdatePlayer(st, playerId, EmptyPatch) == st
    ensures UpdatePlayer(UpdatePlayer(st, playerId, u), playerId, u) == UpdatePlayer(st, playerId, u)
  {
    if st.currentGame.Some? {
      var ps := st.currentGame.value.players;
      var qs := UpdateMatching(ps, playerId, EmptyPatch);
      assert qs == ps by {
        forall i | 0 <= i < |ps| ensures qs[i] == ps[i] {
          ApplyLaws(ps[i], EmptyPatch);
        }
      }
      var once := UpdateMatching(ps, playerId, u);
      var twice := UpdateMatching(once, playerId, u);
      assert twice == once by {
        forall i | 0 <= i < |ps| ensures twice[i] == once[i] {
          ApplyLaws(ps[i], u);
        }
      }
    }
  }

  /** Revealing a clue twice is revealing it once, the revealed list never gains a
      duplicate, and the clue is revealed afterwards. */
  lemma RevealClueLaws(st: GameState, clueId: string)
    requires st.currentGame.Some? ==> Distinct(st.currentGame.value.revealedClues.GetOr([]))
    ensures RevealClue(RevealClue(st, clueId), clueId) == RevealClue(st, clueId)
    ensures var r := RevealClue(st, clueId);
            r.currentGame.Some? ==>
              && Distinct(r.currentGame.value.revealedClues.GetOr([]))
              && clueId in r.currentGame.value.revealedClues.GetOr([])
  {
    if st.currentGame.Some? {
      var shown := st.currentGame.value.revealedClues.GetOr([]);
      if clueId !in shown {
        var shown' := shown + [clueId];
        assert shown'[|shown|] == clueId;
        assert forall i :: 0 <= i < |shown| ==> shown'[i] == shown[i];
      }
    }
  }

  /** Chat messages and accusations only grow, by exactly the new entry at the end. */
  lemma AppendLaws(st: GameState, m: ChatMessage, a: Accusation)
    requires st.currentGame.Some?
    ensures var before := st.currentGame.value.chatMessages.GetOr([]);
            var after := AddChatMessage(st, m).currentGame.value.chatMessages.GetOr([]);
            |after| == |before| + 1 && after[..|before|] == before && after[|before|] == m
    ensures var before := st.currentGame.value.accusations.GetOr([]);
            var after := AddAccusation(st, a).currentGame.value.accusations.GetOr([]);
            |after| == |before| + 1 && after[..|before|] == before && after[|before|] == a
  {
  }
}
