/** The server's `GameManager`: the registry of live sessions (`games`, keyed by join
    code) and of connections (`playerToGame`, socket id to code), and every gameplay
    operation on them. Each operation either fails with one error before changing
    anything (a `Failure`, which carries no registry) or returns the updated registry.
    Ids, time and randomness are parameters. */
module GameManager {
  import opened Wrappers
  import opened Types
  import opened Codes
  import opened Sessions
  import ServerScenarios

  /** One constructor per distinct error the manager throws. */
  datatype Error =
    | InvalidScenario        // no scenario under the requested id
    | GameNotFound           // no session under the code
    | AlreadyStarted         // the session has left the lobby
    | GameFull               // the roster is at `maxPlayers`
    | NameTaken              // another player already uses the name
    | NotInGame              // the socket is mapped to no session
    | NotInThisGame          // the mapped session does not seat the socket
    | NotHost                // a host-only operation from another player
    | NotEnoughPlayers       // fewer than `minPlayers` at start
    | PlayerNotFound         // no player with the target id
    | CharacterNotFound      // no scenario character with the id
    | CharacterTaken         // another player holds the character
    | ClueNotFound           // no scenario clue with the id
    | WrongPhase             // an accusation outside the accusation phase
    | DuplicateAccusation    // the player has accused before

  datatype Registry = Registry(games: map<string, Session>, playerToGame: map<string, string>)

  /** An operation's new registry and the session it returns. */
  datatype Updated = Updated(registry: Registry, game: Session)

  /** What `leaveGame` and `handleDisconnect` return besides the new registry:
      `{ game, playerName }` or `null`. */
  datatype Departure = Departure(game: Session, playerName: string)
  datatype Left = Left(registry: Registry, departure: Option<Departure>)

  datatype Sent = Sent(registry: Registry, game: Session, message: ChatMessage)

  /** A resolved caller: the code of its session and its position in the roster. */
  datatype Seat = Seat(code: string, index: nat)

  // ----- Oracle side conditions -----

  predicate ValidAttempts(attempts: seq<seq<nat>>) {
    forall k :: 0 <= k < |attempts| ==> ValidRolls(attempts[k])
  }

  /** The random source eventually draws a code that is not in use (otherwise the
      source's retry loop never ends). */
  predicate SomeAttemptIsFree(taken: set<string>, attempts: seq<seq<nat>>)
    requires ValidAttempts(attempts)
  {
    exists k :: 0 <= k < |attempts| && GenerateGameCode(attempts[k]) !in taken
  }

  /** A fresh uuid is no player's id in any session. */
  predicate FreshPlayerId(reg: Registry, id: string) {
    forall c, i :: c in reg.games && 0 <= i < |reg.games[c].players| ==> reg.games[c].players[i].id != id
  }

  // ----- Creating and joining -----

  /** `createGame(socketId, playerName, scenarioId?)`. */
  function CreateGame(reg: Registry, catalog: ServerScenarios.Catalog, socketId: string, playerName: string,
                      scenarioId: Option<string>, attempts: seq<seq<nat>>,
                      sessionId: string, hostId: string, now: int): (r: Result<Updated, Error>)
    requires ValidAttempts(attempts) && SomeAttemptIsFree(reg.games.Keys, attempts)
    ensures ServerScenarios.GetScenario(catalog, scenarioId).None? <==> r == Failure(InvalidScenario)
    ensures ServerScenarios.GetScenario(catalog, scenarioId).Some? <==> r.Success?
    ensures r.Success? ==>
              var g := r.value.game;
              && ValidCode(g.code) && g.code !in reg.games
              && r.value.registry.games == reg.games[g.code := g]
              && r.value.registry.playerToGame == reg.playerToGame[socketId := g.code]
              && g.scenario == ServerScenarios.GetScenario(catalog, scenarioId).value
              && g.phase == Lobby && g.hostId == hostId && g.createdAt == now && g.startedAt.None?
              && g.players == [Player(hostId, socketId, playerName, None, true, true, now)]
              && g.revealedClues == [] && g.accusations == [] && g.chatMessages == []
  {
    var code := FirstFreeCode(reg.games.Keys, attempts).value;
    match ServerScenarios.GetScenario(catalog, scenarioId)
    case None => Failure(InvalidScenario)
    case Some(scenario) =>
      var host := Player(hostId, socketId, playerName, None, true, true, now);
      var g := Session(sessionId, code, scenario, [host], Lobby, hostId, now, None, [], [], []);
      Success(Updated(Registry(reg.games[code := g], reg.playerToGame[socketId := code]), g))
  }

  /** The body of `joinGame` once the lookup key is fixed; `mappedAs` is the code that
      is recorded for the socket. */
  function Admit(reg: Registry, key: string, mappedAs: string, socketId: string, playerName: string,
                 playerId: string, now: int): Result<Updated, Error>
  {
    if key !in reg.games then Failure(GameNotFound)
    else
      var g := reg.games[key];
      if g.phase != Lobby then Failure(AlreadyStarted)
      else if |g.players| >= g.scenario.maxPlayers then Failure(GameFull)
      else if HasName(g.players, playerName) then Failure(NameTaken)
      else
        var g' := g.(players := g.players + [Player(playerId, socketId, playerName, None, false, true, now)]);
        Success(Updated(Registry(reg.games[key := g'], reg.playerToGame[socketId := mappedAs]), g'))
  }

  /** `joinGame(gameCode, socketId, playerName)` as written: the session is looked up
      under the upper-cased code, but the socket is mapped to the code as given. The
      checks run in order: not found, already started, full, name taken. */
  function JoinGame(reg: Registry, code: string, socketId: string, playerName: string,
                    playerId: string, now: int): (r: Result<Updated, Error>)
    ensures var key := ToUpper(code);
            && (r == Failure(GameNotFound) <==> key !in reg.games)
            && (key in reg.games ==>
                  var g := reg.games[key];
                  && (r == Failure(AlreadyStarted) <==> g.phase != Lobby)
                  && (r == Failure(GameFull) <==> g.phase == Lobby && |g.players| >= g.scenario.maxPlayers)
                  && (r == Failure(NameTaken) <==>
                        g.phase == Lobby && |g.players| < g.scenario.maxPlayers && HasName(g.players, playerName))
                  && (r.Success? <==>
                        g.phase == Lobby && |g.players| < g.scenario.maxPlayers && !HasName(g.players, playerName))
                  && (r.Success? ==>
                        && r.value.game == g.(players := g.players + [Player(playerId, socketId, playerName, None, false, true, now)])
                        && r.value.registry.games == reg.games[key := r.value.game]
                        && r.value.registry.playerToGame == reg.playerToGame[socketId := code]))
  {
    Admit(reg, ToUpper(code), code, socketId, playerName, playerId, now)
  }

  /** `joinGame` with the evident intent: the socket is mapped to the key the session
      is stored under. Identical to `JoinGame` except for the recorded mapping. */
  function JoinGameNormalized(reg: Registry, code: string, socketId: string, playerName: string,
                              playerId: string, now: int): (r: Result<Updated, Error>)
    ensures r.Failure? <==> JoinGame(reg, code, socketId, playerName, playerId, now).Failure?
    ensures r.Failure? ==> r == JoinGame(reg, code, socketId, playerName, playerId, now)
    ensures r.Success? ==>
              && r.value.game == JoinGame(reg, code, socketId, playerName, playerId, now).value.game
              && r.value.registry.games == JoinGame(reg, code, socketId, playerName, playerId, now).value.registry.games
              && r.value.registry.playerToGame == reg.playerToGame[socketId := ToUpper(code)]
  {
    Admit(reg, ToUpper(code), ToUpper(code), socketId, playerName, playerId, now)
  }

  // ----- Resolving the caller -----

  /** `getGameBySocketId` followed by `getPlayerBySocketId`. An empty mapped code is
      falsy and reads as no mapping. */
  function ResolveCaller(reg: Registry, socketId: string): (r: Result<Seat, Error>)
    ensures r == Failure(NotInGame) <==> socketId !in reg.playerToGame || reg.playerToGame[socketId] == ""
    ensures r == Failure(GameNotFound) <==>
              socketId in reg.playerToGame && reg.playerToGame[socketId] != "" && reg.playerToGame[socketId] !in reg.games
    ensures r == Failure(NotInThisGame) <==>
              socketId in reg.playerToGame && reg.playerToGame[socketId] != "" && reg.playerToGame[socketId] in reg.games &&
              FindBySocket(reg.games[reg.playerToGame[socketId]].players, socketId).None?
    ensures r.Success? ==>
              && socketId in reg.playerToGame && r.value.code == reg.playerToGame[socketId]
              && r.value.code in reg.games
              && Some(r.value.index) == FindBySocket(reg.games[r.value.code].players, socketId)
  {
    if socketId !in reg.playerToGame || reg.playerToGame[socketId] == "" then Failure(NotInGame)
    else
      var code := reg.playerToGame[socketId];
      if code !in reg.games then Failure(GameNotFound)
      else match FindBySocket(reg.games[code].players, socketId)
        case None => Failure(NotInThisGame)
        case Some(i) => Success(Seat(code, i))
  }

  /** The session and player an operation acts on. */
  function SeatGame(reg: Registry, seat: Seat): Session
    requires seat.code in reg.games
  {
    reg.games[seat.code]
  }

  predicate SeatValid(reg: Registry, seat: Seat) {
    seat.code in reg.games && seat.index < |reg.games[seat.code].players|
  }

  function Caller(reg: Registry, seat: Seat): Player
    requires SeatValid(reg, seat)
  {
    reg.games[seat.code].players[seat.index]
  }

  /** Replaces the caller's session and returns it. */
  function Commit(reg: Registry, code: string, g: Session): (u: Updated)
    ensures u.registry.games == reg.games[code := g] && u.registry.playerToGame == reg.playerToGame
    ensures u.game == g
  {
    Updated(reg.(games := reg.games[code := g]), g)
  }

  // ----- Leaving and disconnecting -----

  /** `leaveGame(socketId)`: drops the caller's player and mapping. A departing host
      hands over to the earliest-joined remaining player; an emptied session is
      deleted and `null` returned. An unresolvable caller changes nothing. */
  function LeaveGame(reg: Registry, socketId: string): (r: Left)
    ensures ResolveCaller(reg, socketId).Failure? ==> r == Left(reg, None)
    ensures ResolveCaller(reg, socketId).Success? ==>
              var seat := ResolveCaller(reg, socketId).value;
              var g := reg.games[seat.code];
              var p := g.players[seat.index];
              var rest := RemoveAt(g.players, seat.index);
              && r.registry.playerToGame == reg.playerToGame - {socketId}
              && (rest == [] ==> r.registry.games == reg.games - {seat.code} && r.departure.None?)
              && (rest != [] ==>
                    && r.departure.Some?
                    && r.departure.value.playerName == p.name
                    && r.registry.games == reg.games[seat.code := r.departure.value.game]
                    && r.departure.value.game == g.(players := r.departure.value.game.players,
                                                    hostId := r.departure.value.game.hostId)
                    && (p.isHost ==>
                          && r.departure.value.game.players == rest[0 := rest[0].(isHost := true)]
                          && r.departure.value.game.hostId == rest[0].id)
                    && (!p.isHost ==>
                          && r.departure.value.game.players == rest
                          && r.departure.value.game.hostId == g.hostId))
  {
    match ResolveCaller(reg, socketId)
    case Failure(_) => Left(reg, None)
    case Success(seat) =>
      var g := reg.games[seat.code];
      var p := g.players[seat.index];
      var rest := RemoveAt(g.players, seat.index);
      var mapping := reg.playerToGame - {socketId};
      if p.isHost && rest != [] then
        var g' := g.(players := rest[0 := rest[0].(isHost := true)], hostId := rest[0].id);
        Left(Registry(reg.games[seat.code := g'], mapping), Some(Departure(g', p.name)))
      else if rest == [] then
        Left(Registry(reg.games - {seat.code}, mapping), None)
      else
        var g' := g.(players := rest);
        Left(Registry(reg.games[seat.code := g'], mapping), Some(Departure(g', p.name)))
  }

  /** `handleDisconnect(socketId)`: marks the caller's player as disconnected and
      nothing else; the seat, host role and character are kept. */
  function HandleDisconnect(reg: Registry, socketId: string): (r: Left)
    ensures ResolveCaller(reg, socketId).Failure? ==> r == Left(reg, None)
    ensures ResolveCaller(reg, socketId).Success? ==>
              var seat := ResolveCaller(reg, socketId).value;
              var g := reg.games[seat.code];
              && r.registry.playerToGame == reg.playerToGame
              && r.departure.Some?
              && r.departure.value.playerName == g.players[seat.index].name
              && r.registry.games == reg.games[seat.code := r.departure.value.game]
              && var g' := r.departure.value.game;
                 && g' == g.(players := g'.players)
                 && |g'.players| == |g.players|
                 && !g'.players[seat.index].isConnected
                 && g'.players[seat.index] == g.players[seat.index].(isConnected := false)
                 && forall k :: 0 <= k < |g.players| && k != seat.index ==> g'.players[k] == g.players[k]
  {
    match ResolveCaller(reg, socketId)
    case Failure(_) => Left(reg, None)
    case Success(seat) =>
      var g := reg.games[seat.code];
      var p := g.players[seat.index];
      var g' := g.(players := g.players[seat.index := p.(isConnected := false)]);
      Left(Registry(reg.games[seat.code := g'], reg.playerToGame), Some(Departure(g', p.name)))
  }

  // ----- Host-only operations -----

  /** `startGame(socketId)`: host only, at least `minPlayers`, still in the lobby
      (checked in that order); then characters are auto-assigned and the session moves
      to the introduction. */
  function StartGame(reg: Registry, socketId: string, draws: nat -> nat, now: int): (r: Result<Updated, Error>)
    ensures ResolveCaller(reg, socketId).Failure? ==> r == Failure(ResolveCaller(reg, socketId).error)
    ensures ResolveCaller(reg, socketId).Success? ==>
              var seat := ResolveCaller(reg, socketId).value;
              var g := reg.games[seat.code];
              var host := g.players[seat.index].isHost;
              && (r == Failure(NotHost) <==> !host)
              && (r == Failure(NotEnoughPlayers) <==> host && |g.players| < g.scenario.minPlayers)
              && (r == Failure(AlreadyStarted) <==> host && |g.players| >= g.scenario.minPlayers && g.phase != Lobby)
              && (r.Success? <==> host && |g.players| >= g.scenario.minPlayers && g.phase == Lobby)
              && (r.Success? ==>
                    && r.value.registry.games == reg.games[seat.code := r.value.game]
                    && r.value.registry.playerToGame == reg.playerToGame
                    && r.value.game.phase == Introduction
                    && r.value.game.startedAt == Some(now)
                    && r.value.game == AutoAssign(g, draws).(phase := Introduction, startedAt := Some(now)))
  {
    var seat :- ResolveCaller(reg, socketId);
    var g := reg.games[seat.code];
    if !g.players[seat.index].isHost then Failure(NotHost)
    else if |g.players| < g.scenario.minPlayers then Failure(NotEnoughPlayers)
    else if g.phase != Lobby then Failure(AlreadyStarted)
    else Success(Commit(reg, seat.code, AutoAssign(g, draws).(phase := Introduction, startedAt := Some(now))))
  }

  /** `assignCharacter(socketId, playerId, characterId)`: host only; the target player
      and the character must exist, and no player may already hold the character
      (the target's own current character is overwritten). */
  function AssignCharacter(reg: Registry, socketId: string, playerId: string, characterId: string): (r: Result<Updated, Error>)
    ensures ResolveCaller(reg, socketId).Failure? ==> r == Failure(ResolveCaller(reg, socketId).error)
    ensures ResolveCaller(reg, socketId).Success? ==>
              var seat := ResolveCaller(reg, socketId).value;
              var g := reg.games[seat.code];
              var host := g.players[seat.index].isHost;
              var target := FindById(g.players, playerId);
              var ch := FindCharacter(g.scenario.characters, characterId);
              && (r == Failure(NotHost) <==> !host)
              && (r == Failure(PlayerNotFound) <==> host && target.None?)
              && (r == Failure(CharacterNotFound) <==> host && target.Some? && ch.None?)
              && (r == Failure(CharacterTaken) <==> host && target.Some? && ch.Some? && characterId in HeldIds(g.players))
              && (r.Success? <==> host && target.Some? && ch.Some? && characterId !in HeldIds(g.players))
              && (r.Success? ==>
                    && target.Some? && ch.Some?
                    && r.value.registry.games == reg.games[seat.code := r.value.game]
                    && r.value.registry.playerToGame == reg.playerToGame
                    && r.value.game == g.(players := r.value.game.players)
                    && |r.value.game.players| == |g.players|
                    && r.value.game.players[target.value] == g.players[target.value].(character := ch)
                    && ch.value.id == characterId && ch.value in g.scenario.characters
                    && forall k :: 0 <= k < |g.players| && k != target.value ==> r.value.game.players[k] == g.players[k])
  {
    var seat :- ResolveCaller(reg, socketId);
    var g := reg.games[seat.code];
    if !g.players[seat.index].isHost then Failure(NotHost)
    else match FindById(g.players, playerId)
      case None => Failure(PlayerNotFound)
      case Some(t) =>
        match FindCharacter(g.scenario.characters, characterId)
        case None => Failure(CharacterNotFound)
        case Some(c) =>
          if characterId in HeldIds(g.players) then Failure(CharacterTaken)
          else Success(Commit(reg, seat.code, g.(players := g.players[t := g.players[t].(character := Some(c))])))
  }

  /** `changePhase(socketId, phase)`: host only; any phase may follow any other. */
  function ChangePhase(reg: Registry, socketId: string, phase: Phase): (r: Result<Updated, Error>)
    ensures ResolveCaller(reg, socketId).Failure? ==> r == Failure(ResolveCaller(reg, socketId).error)
    ensures ResolveCaller(reg, socketId).Success? ==>
              var seat := ResolveCaller(reg, socketId).value;
              var g := reg.games[seat.code];
              && (r.Failure? <==> !g.players[seat.index].isHost)
              && (r.Failure? ==> r.error == NotHost)
              && (r.Success? ==> r.value.game == g.(phase := phase) &&
                                 r.value.registry.games == reg.games[seat.code := r.value.game] &&
                                 r.value.registry.playerToGame == reg.playerToGame)
  {
    var seat :- ResolveCaller(reg, socketId);
    var g := reg.games[seat.code];
    if !g.players[seat.index].isHost then Failure(NotHost)
    else Success(Commit(reg, seat.code, g.(phase := phase)))
  }

  /** `revealSolution(socketId)`: host only; moves to the reveal phase from any phase. */
  function RevealSolution(reg: Registry, socketId: string): (r: Result<Updated, Error>)
    ensures r == ChangePhase(reg, socketId, Reveal)
  {
    var seat :- ResolveCaller(reg, socketId);
    var g := reg.games[seat.code];
    if !g.players[seat.index].isHost then Failure(NotHost)
    else Success(Commit(reg, seat.code, g.(phase := Reveal)))
  }

  /** `releaseClue(socketId, clueId)`: host only; the clue must be one of the scenario's.
      An already revealed clue is accepted and changes nothing. */
  function ReleaseClue(reg: Registry, socketId: string, clueId: string): (r: Result<Updated, Error>)
    ensures ResolveCaller(reg, socketId).Failure? ==> r == Failure(ResolveCaller(reg, socketId).error)
    ensures ResolveCaller(reg, socketId).Success? ==>
              var seat := ResolveCaller(reg, socketId).value;
              var g := reg.games[seat.code];
              var host := g.players[seat.index].isHost;
              && (r == Failure(NotHost) <==> !host)
              && (r == Failure(ClueNotFound) <==> host && clueId !in ClueIds(g.scenario.clues))
              && (r.Success? <==> host && clueId in ClueIds(g.scenario.clues))
              && (r.Success? ==>
                    && r.value.registry.games == reg.games[seat.code := r.value.game]
                    && r.value.registry.playerToGame == reg.playerToGame
                    && r.value.game == g.(revealedClues := r.value.game.revealedClues)
                    && (clueId in g.revealedClues ==> r.value.game == g)
                    && (clueId !in g.revealedClues ==> r.value.game.revealedClues == g.revealedClues + [clueId]))
  {
    var seat :- ResolveCaller(reg, socketId);
    var g := reg.games[seat.code];
    if !g.players[seat.index].isHost then Failure(NotHost)
    else if FindClue(g.scenario.clues, clueId).None? then Failure(ClueNotFound)
    else if clueId in g.revealedClues then Success(Commit(reg, seat.code, g))
    else Success(Commit(reg, seat.code, g.(revealedClues := g.revealedClues + [clueId])))
  }

  // ----- Chat and accusations -----

  /** `sendMessage(socketId, payload)`: appends one message signed with the caller's
      id and name; no phase or content check. */
  function SendMessage(reg: Registry, socketId: string, content: string, isPrivate: bool,
                       recipientId: Option<string>, messageId: string, now: int): (r: Result<Sent, Error>)
    ensures ResolveCaller(reg, socketId).Failure? ==> r == Failure(ResolveCaller(reg, socketId).error)
    ensures ResolveCaller(reg, socketId).Success? ==>
              var seat := ResolveCaller(reg, socketId).value;
              var g := reg.games[seat.code];
              var p := g.players[seat.index];
              && r.Success?
              && r.value.message == ChatMessage(messageId, p.id, p.name, content, now, isPrivate, recipientId)
              && r.value.game == g.(chatMessages := g.chatMessages + [r.value.message])
              && r.value.registry.games == reg.games[seat.code := r.value.game]
              && r.value.registry.playerToGame == reg.playerToGame
  {
    var seat :- ResolveCaller(reg, socketId);
    var g := reg.games[seat.code];
    var p := g.players[seat.index];
    var m := ChatMessage(messageId, p.id, p.name, content, now, isPrivate, recipientId);
    var u := Commit(reg, seat.code, g.(chatMessages := g.chatMessages + [m]));
    Success(Sent(u.registry, u.game, m))
  }

  predicate HasAccused(accs: seq<Accusation>, playerId: string) {
    exists k :: 0 <= k < |accs| && accs[k].playerId == playerId
  }

  /** `submitAccusation(socketId, payload)`: only in the accusation phase, and only
      once per player. */
  function SubmitAccusation(reg: Registry, socketId: string, murderer: string, motive: string,
                            means: string, now: int): (r: Result<Updated, Error>)
    ensures ResolveCaller(reg, socketId).Failure? ==> r == Failure(ResolveCaller(reg, socketId).error)
    ensures ResolveCaller(reg, socketId).Success? ==>
              var seat := ResolveCaller(reg, socketId).value;
              var g := reg.games[seat.code];
              var p := g.players[seat.index];
              && (r == Failure(WrongPhase) <==> g.phase != Phase.Accusation)
              && (r == Failure(DuplicateAccusation) <==> g.phase == Phase.Accusation && HasAccused(g.accusations, p.id))
              && (r.Success? <==> g.phase == Phase.Accusation && !HasAccused(g.accusations, p.id))
              && (r.Success? ==>
                    && r.value.game == g.(accusations := g.accusations + [Accusation.Accusation(p.id, p.name, murderer, motive, means, now)])
                    && r.value.registry.games == reg.games[seat.code := r.value.game]
                    && r.value.registry.playerToGame == reg.playerToGame)
  {
    var seat :- ResolveCaller(reg, socketId);
    var g := reg.games[seat.code];
    var p := g.players[seat.index];
    if g.phase != Phase.Accusation then Failure(WrongPhase)
    else if HasAccused(g.accusations, p.id) then Failure(DuplicateAccusation)
    else Success(Commit(reg, seat.code, g.(accusations := g.accusations + [Accusation.Accusation(p.id, p.name, murderer, motive, means, now)])))
  }
}
