/** The consistency of the `GameManager`'s two maps, and that every operation keeps it:
    each stored session satisfies the session invariant under the code it is stored
    at, and every socket mapping leads to a live session that seats that socket. */
module RegistryInvariants {
  import opened Wrappers
  import opened Types
  import opened Codes
  import opened Sessions
  import opened GameManager
  import ServerScenarios

  predicate Seated(ps: seq<Player>, socketId: string) {
    exists k :: 0 <= k < |ps| && ps[k].socketId == socketId
  }

  predicate GamesValid(reg: Registry) {
    forall c :: c in reg.games ==> ValidCode(c) && reg.games[c].code == c && Valid(reg.games[c])
  }

  predicate MappingsResolve(reg: Registry) {
    forall s :: s in reg.playerToGame ==>
      reg.playerToGame[s] in reg.games && Seated(reg.games[reg.playerToGame[s]].players, s)
  }

  predicate Inv(reg: Registry) {
    GamesValid(reg) && MappingsResolve(reg)
  }

  /** Every scenario a session can be created with is usable. */
  predicate CatalogOk(catalog: ServerScenarios.Catalog) {
    forall k :: 0 <= k < |catalog.scenarios| ==> ScenarioOk(catalog.scenarios[k])
  }

  /** In a consistent registry the caller lookup fails exactly for unmapped sockets:
      `GameNotFound` and `NotInThisGame` cannot arise. */
  lemma MappedCallerResolves(reg: Registry, socketId: string)
    requires Inv(reg)
    ensures ResolveCaller(reg, socketId).Success? <==> socketId in reg.playerToGame
  {
    if socketId in reg.playerToGame {
      var c := reg.playerToGame[socketId];
      assert |c| == CodeLength;
      var k :| 0 <= k < |reg.games[c].players| && reg.games[c].players[k].socketId == socketId;
    }
  }

  // ----- Rosters that keep who sits where -----

  /** Same ids, names and sockets, position by position. */
  predicate SameSeats(ps: seq<Player>, qs: seq<Player>) {
    |ps| == |qs| &&
    forall i :: 0 <= i < |ps| ==> qs[i].id == ps[i].id && qs[i].name == ps[i].name && qs[i].socketId == ps[i].socketId
  }

  lemma SameSeatsFacts(ps: seq<Player>, qs: seq<Player>)
    requires SameSeats(ps, qs)
    ensures DistinctPlayerIds(ps) ==> DistinctPlayerIds(qs)
    ensures DistinctNames(ps) ==> DistinctNames(qs)
    ensures forall s :: Seated(ps, s) ==> Seated(qs, s)
  {
    forall s | Seated(ps, s) ensures Seated(qs, s) {
      var k :| 0 <= k < |ps| && ps[k].socketId == s;
      assert qs[k].socketId == s;
    }
  }

  lemma SameSeatsHost(ps: seq<Player>, qs: seq<Player>, hostId: string)
    requires SameSeats(ps, qs)
    requires forall i :: 0 <= i < |ps| ==> qs[i].isHost == ps[i].isHost
    requires HostIs(ps, hostId)
    ensures HostIs(qs, hostId)
  {
    var k :| 0 <= k < |ps| && ps[k].id == hostId;
    assert qs[k].id == hostId;
  }

  lemma SameCharacters(ps: seq<Player>, qs: seq<Player>, chars: seq<Character>)
    requires |ps| == |qs|
    requires forall i :: 0 <= i < |ps| ==> qs[i].character == ps[i].character
    requires NoCharacterHeldTwice(ps) && HeldFromScenario(ps, chars)
    ensures NoCharacterHeldTwice(qs) && HeldFromScenario(qs, chars)
  {
    NoCharacterHeldTwiceIndex(ps);
    NoCharacterHeldTwiceIndex(qs);
  }

  /** Replacing one session by a valid one that still seats everyone it seated keeps
      the registry consistent. */
  lemma ReplaceKeepsInv(reg: Registry, c: string, g': Session)
    requires Inv(reg) && c in reg.games
    requires Valid(g') && g'.code == c
    requires forall s :: Seated(reg.games[c].players, s) ==> Seated(g'.players, s)
    ensures Inv(reg.(games := reg.games[c := g']))
  {
  }

  /** Mapping a socket to a session that seats it keeps the registry consistent. */
  lemma MapKeepsInv(reg: Registry, socketId: string, c: string)
    requires Inv(reg) && c in reg.games && Seated(reg.games[c].players, socketId)
    ensures Inv(reg.(playerToGame := reg.playerToGame[socketId := c]))
  {
  }

  // ----- Operations that rewrite one session in place -----

  lemma ChangePhaseKeepsInv(reg: Registry, socketId: string, phase: Phase)
    requires Inv(reg)
    ensures ChangePhase(reg, socketId, phase).Success? ==> Inv(ChangePhase(reg, socketId, phase).value.registry)
  {
    if ChangePhase(reg, socketId, phase).Success? {
      var seat := ResolveCaller(reg, socketId).value;
      var g := reg.games[seat.code];
      SameSeatsFacts(g.players, g.(phase := phase).players);
      ReplaceKeepsInv(reg, seat.code, g.(phase := phase));
    }
  }

  lemma RevealSolutionKeepsInv(reg: Registry, socketId: string)
    requires Inv(reg)
    ensures RevealSolution(reg, socketId).Success? ==> Inv(RevealSolution(reg, socketId).value.registry)
  {
    ChangePhaseKeepsInv(reg, socketId, Reveal);
  }

  lemma ReleaseClueKeepsInv(reg: Registry, socketId: string, clueId: string)
    requires Inv(reg)
    ensures ReleaseClue(reg, socketId, clueId).Success? ==> Inv(ReleaseClue(reg, socketId, clueId).value.registry)
  {
    var r := ReleaseClue(reg, socketId, clueId);
    if r.Success? {
      var seat := ResolveCaller(reg, socketId).value;
      var g := reg.games[seat.code];
      var g' := r.value.game;
      assert RevealedWithin(g'.revealedClues, g'.scenario.clues) by {
        if clueId !in g.revealedClues {
          assert g'.revealedClues == g.revealedClues + [clueId];
        }
      }
      SameSeatsFacts(g.players, g'.players);
      ReplaceKeepsInv(reg, seat.code, g');
    }
  }

  lemma SendMessageKeepsInv(reg: Registry, socketId: string, content: string, isPrivate: bool,
                            recipientId: Option<string>, messageId: string, now: int)
    requires Inv(reg)
    ensures var r := SendMessage(reg, socketId, content, isPrivate, recipientId, messageId, now);
            r.Success? ==> Inv(r.value.registry)
  {
    var r := SendMessage(reg, socketId, content, isPrivate, recipientId, messageId, now);
    if r.Success? {
      var seat := ResolveCaller(reg, socketId).value;
      var g := reg.games[seat.code];
      SameSeatsFacts(g.players, r.value.game.players);
      ReplaceKeepsInv(reg, seat.code, r.value.game);
    }
  }

  lemma SubmitAccusationKeepsInv(reg: Registry, socketId: string, murderer: string, motive: string,
                                 means: string, now: int)
    requires Inv(reg)
    ensures var r := SubmitAccusation(reg, socketId, murderer, motive, means, now);
            r.Success? ==> Inv(r.value.registry)
  {
    var r := SubmitAccusation(reg, socketId, murderer, motive, means, now);
    if r.Success? {
      var seat := ResolveCaller(reg, socketId).value;
      var g := reg.games[seat.code];
      var g' := r.value.game;
      var p := g.players[seat.index];
      assert !HasAccused(g.accusations, p.id);
      assert OneAccusationPerPlayer(g'.accusations) by {
        forall i, j | 0 <= i < j < |g'.accusations| ensures g'.accusations[i].playerId != g'.accusations[j].playerId {
          if j == |g.accusations| {
            assert g'.accusations[i] == g.accusations[i];
          }
        }
      }
      SameSeatsFacts(g.players, g'.players);
      ReplaceKeepsInv(reg, seat.code, g');
    }
  }

  lemma HandleDisconnectKeepsInv(reg: Registry, socketId: string)
    requires Inv(reg)
    ensures Inv(HandleDisconnect(reg, socketId).registry)
  {
    if ResolveCaller(reg, socketId).Success? {
      var seat := ResolveCaller(reg, socketId).value;
      var g := reg.games[seat.code];
      var g' := g.(players := g.players[seat.index := g.players[seat.index].(isConnected := false)]);
      assert HandleDisconnect(reg, socketId).registry == reg.(games := reg.games[seat.code := g']);
      DisconnectedSessionValid(g, seat.index);
      ReplaceKeepsInv(reg, seat.code, g');
    }
  }

  /** Marking one player disconnected keeps a session valid and keeps every seat. */
  lemma DisconnectedSessionValid(g: Session, i: nat)
    requires Valid(g) && i < |g.players|
    ensures var g' := g.(players := g.players[i := g.players[i].(isConnected := false)]);
            Valid(g') && forall s :: Seated(g.players, s) ==> Seated(g'.players, s)
  {
    var g' := g.(players := g.players[i := g.players[i].(isConnected := false)]);
    SameSeatsFacts(g.players, g'.players);
    SameSeatsHost(g.players, g'.players, g.hostId);
    SameCharacters(g.players, g'.players, g.scenario.characters);
  }

  /** Giving one player a scenario character nobody holds keeps a session valid. */
  lemma SeatCharacterKeepsValid(g: Session, t: nat, ch: Character)
    requires Valid(g) && t < |g.players|
    requires ch in g.scenario.characters && ch.id !in HeldIds(g.players)
    ensures Valid(g.(players := g.players[t := g.players[t].(character := Some(ch))]))
    ensures forall s :: Seated(g.players, s) ==> Seated(g.players[t := g.players[t].(character := Some(ch))], s)
  {
    var ps := g.players;
    var qs := ps[t := ps[t].(character := Some(ch))];
    SeatUnheldKeepsUnique(ps, t, ch);
    assert HeldFromScenario(qs, g.scenario.characters);
    SameSeatsFacts(ps, qs);
    SameSeatsHost(ps, qs, g.hostId);
  }

  /** Handing out a character nobody holds never makes two players share one. */
  lemma SeatUnheldKeepsUnique(ps: seq<Player>, t: nat, ch: Character)
    requires t < |ps| && NoCharacterHeldTwice(ps) && ch.id !in HeldIds(ps)
    ensures NoCharacterHeldTwice(ps[t := ps[t].(character := Some(ch))])
  {
    var qs := ps[t := ps[t].(character := Some(ch))];
    NoCharacterHeldTwiceIndex(ps);
    NoCharacterHeldTwiceIndex(qs);
    forall i, j | 0 <= i < j < |qs| && qs[i].character.Some? && qs[j].character.Some?
      ensures qs[i].character.value.id != qs[j].character.value.id
    {
      if i == t {
        assert qs[j] == ps[j];
      } else if j == t {
        assert qs[i] == ps[i];
      }
    }
  }

  lemma AssignCharacterKeepsInv(reg: Registry, socketId: string, playerId: string, characterId: string)
    requires Inv(reg)
    ensures AssignCharacter(reg, socketId, playerId, characterId).Success? ==>
              Inv(AssignCharacter(reg, socketId, playerId, characterId).value.registry)
  {
    var r := AssignCharacter(reg, socketId, playerId, characterId);
    if r.Success? {
      var seat := ResolveCaller(reg, socketId).value;
      var g := reg.games[seat.code];
      var t := FindById(g.players, playerId).value;
      var ch := FindCharacter(g.scenario.characters, characterId).value;
      var g' := g.(players := g.players[t := g.players[t].(character := Some(ch))]);
      assert r.value.game == g';
      SeatCharacterKeepsValid(g, t, ch);
      ReplaceKeepsInv(reg, seat.code, g');
      assert r.value.registry == reg.(games := reg.games[seat.code := g']);
    }
  }

  lemma StartGameKeepsInv(reg: Registry, socketId: string, draws: nat -> nat, now: int)
    requires Inv(reg)
    ensures StartGame(reg, socketId, draws, now).Success? ==> Inv(StartGame(reg, socketId, draws, now).value.registry)
  {
    var r := StartGame(reg, socketId, draws, now);
    if r.Success? {
      var seat := ResolveCaller(reg, socketId).value;
      var g := reg.games[seat.code];
      var g' := r.value.game;
      StartedSessionValid(g, draws, now);
      ReplaceKeepsInv(reg, seat.code, g');
      assert r.value.registry == reg.(games := reg.games[seat.code := g']);
    }
  }

  /** Starting a valid session (dealing characters, entering the introduction) keeps it
      valid and keeps every seat. */
  lemma StartedSessionValid(g: Session, draws: nat -> nat, now: int)
    requires Valid(g)
    ensures var g' := AutoAssign(g, draws).(phase := Introduction, startedAt := Some(now));
            && Valid(g') && g'.code == g.code
            && forall s :: Seated(g.players, s) ==> Seated(g'.players, s)
  {
    var g' := AutoAssign(g, draws).(phase := Introduction, startedAt := Some(now));
    AutoAssignKeepsRoster(g, draws);
    AutoAssignNoCharacterHeldTwice(g, draws);
    SameSeatsFacts(g.players, g'.players);
    SameSeatsHost(g.players, g'.players, g.hostId);
  }

  // ----- Creating and joining -----

  /** Storing a valid session under a new, well-formed code keeps the registry
      consistent. */
  lemma AddKeepsInv(reg: Registry, g: Session)
    requires Inv(reg) && ValidCode(g.code) && g.code !in reg.games && Valid(g)
    ensures Inv(reg.(games := reg.games[g.code := g]))
  {
  }

  /** A session holding only its host, with nothing revealed or accused yet, is valid. */
  lemma FreshSessionValid(g: Session, socketId: string)
    requires ScenarioOk(g.scenario)
    requires |g.players| == 1 && g.players[0].id == g.hostId && g.players[0].isHost
    requires g.players[0].character.None? && g.players[0].socketId == socketId
    requires g.revealedClues == [] && g.accusations == []
    ensures Valid(g) && Seated(g.players, socketId)
  {
    NoCharacterHeldTwiceIndex(g.players);
  }

  lemma CreateGameKeepsInv(reg: Registry, catalog: ServerScenarios.Catalog, socketId: string, playerName: string,
                           scenarioId: Option<string>, attempts: seq<seq<nat>>,
                           sessionId: string, hostId: string, now: int)
    requires Inv(reg) && CatalogOk(catalog)
    requires ValidAttempts(attempts) && SomeAttemptIsFree(reg.games.Keys, attempts)
    ensures var r := CreateGame(reg, catalog, socketId, playerName, scenarioId, attempts, sessionId, hostId, now);
            r.Success? ==> Inv(r.value.registry)
  {
    var r := CreateGame(reg, catalog, socketId, playerName, scenarioId, attempts, sessionId, hostId, now);
    if r.Success? {
      var g := r.value.game;
      assert g.scenario in catalog.scenarios;
      FreshSessionValid(g, socketId);
      var reg1 := reg.(games := reg.games[g.code := g]);
      AddKeepsInv(reg, g);
      MapKeepsInv(reg1, socketId, g.code);
      assert r.value.registry == reg1.(playerToGame := reg1.playerToGame[socketId := g.code]);
    }
  }

  /** Appending a fresh, unassigned non-host under capacity keeps a session valid. */
  lemma AppendGuestKeepsValid(g: Session, p: Player)
    requires Valid(g) && |g.players| < g.scenario.maxPlayers
    requires !p.isHost && p.character.None?
    requires forall i :: 0 <= i < |g.players| ==> g.players[i].id != p.id
    requires !HasName(g.players, p.name)
    ensures Valid(g.(players := g.players + [p]))
    ensures forall s :: Seated(g.players, s) ==> Seated(g.players + [p], s)
    ensures Seated(g.players + [p], p.socketId)
  {
    var ps := g.players;
    var qs := ps + [p];
    AppendKeepsDistinct(ps, p);
    AppendKeepsHost(ps, p, g.hostId);
    AppendKeepsCharacters(ps, p, g.scenario.characters);
    assert qs[|ps|] == p;
    forall s | Seated(ps, s) ensures Seated(qs, s) {
      var k :| 0 <= k < |ps| && ps[k].socketId == s;
      assert qs[k].socketId == s;
    }
  }

  lemma AppendKeepsDistinct(ps: seq<Player>, p: Player)
    requires DistinctPlayerIds(ps) && DistinctNames(ps)
    requires forall i :: 0 <= i < |ps| ==> ps[i].id != p.id
    requires !HasName(ps, p.name)
    ensures DistinctPlayerIds(ps + [p]) && DistinctNames(ps + [p])
  {
    var qs := ps + [p];
    assert qs[|ps|] == p;
    assert forall i :: 0 <= i < |ps| ==> qs[i] == ps[i];
  }

  lemma AppendKeepsHost(ps: seq<Player>, p: Player, hostId: string)
    requires HostIs(ps, hostId) && !p.isHost
    requires forall i :: 0 <= i < |ps| ==> ps[i].id != p.id
    ensures HostIs(ps + [p], hostId)
  {
    var qs := ps + [p];
    assert qs[|ps|] == p;
    assert forall i :: 0 <= i < |ps| ==> qs[i] == ps[i];
    var h :| 0 <= h < |ps| && ps[h].id == hostId;
    assert qs[h].id == hostId;
  }

  lemma AppendKeepsCharacters(ps: seq<Player>, p: Player, chars: seq<Character>)
    requires NoCharacterHeldTwice(ps) && HeldFromScenario(ps, chars)
    requires p.character.None?
    ensures NoCharacterHeldTwice(ps + [p]) && HeldFromScenario(ps + [p], chars)
  {
    var qs := ps + [p];
    assert qs[|ps|] == p;
    assert forall i :: 0 <= i < |ps| ==> qs[i] == ps[i];
    NoCharacterHeldTwiceIndex(ps);
    NoCharacterHeldTwiceIndex(qs);
  }

  /** The corrected `joinGame` keeps the registry consistent. */
  lemma JoinGameNormalizedKeepsInv(reg: Registry, code: string, socketId: string, playerName: string,
                                   playerId: string, now: int)
    requires Inv(reg) && FreshPlayerId(reg, playerId)
    ensures var r := JoinGameNormalized(reg, code, socketId, playerName, playerId, now);
            r.Success? ==> Inv(r.value.registry)
  {
    var r := JoinGameNormalized(reg, code, socketId, playerName, playerId, now);
    if r.Success? {
      var key := ToUpper(code);
      var g := reg.games[key];
      var p := Player(playerId, socketId, playerName, None, false, true, now);
      AppendGuestKeepsValid(g, p);
      var g' := g.(players := g.players + [p]);
      assert r.value.game == g';
      ReplaceKeepsInv(reg, key, g');
      MapKeepsInv(reg.(games := reg.games[key := g']), socketId, key);
      assert r.value.registry == Registry(reg.games[key := g'], reg.playerToGame[socketId := key]);
    }
  }

  /** The `joinGame` as written keeps every session valid; only the socket mapping
      can go wrong (`JoinLowercaseStrandsPlayer`). */
  lemma JoinGameKeepsGamesValid(reg: Registry, code: string, socketId: string, playerName: string,
                                playerId: string, now: int)
    requires GamesValid(reg) && FreshPlayerId(reg, playerId)
    ensures var r := JoinGame(reg, code, socketId, playerName, playerId, now);
            r.Success? ==> GamesValid(r.value.registry)
  {
    var r := JoinGame(reg, code, socketId, playerName, playerId, now);
    if r.Success? {
      var key := ToUpper(code);
      var g := reg.games[key];
      var p := Player(playerId, socketId, playerName, None, false, true, now);
      AppendGuestKeepsValid(g, p);
    }
  }

  /** Session codes are stored upper-case. */
  lemma StoredCodesAreUpper(reg: Registry)
    requires GamesValid(reg)
    ensures forall c :: c in reg.games ==> ToUpper(c) == c
  {
    forall c | c in reg.games ensures ToUpper(c) == c {
      ValidCodeIsUpper(c);
    }
  }

  /** The discrepancy in `joinGame` as written: a join with a code typed in lower case
      succeeds, but the socket is mapped to a key no session is stored under. The new
      player is seated yet can never act: every later call from that socket fails
      with `GameNotFound`, and leaving is a no-op that leaves the seat taken. */
  lemma JoinLowercaseStrandsPlayer(reg: Registry, code: string, socketId: string, playerName: string,
                                   playerId: string, now: int)
    requires GamesValid(reg)
    requires ToUpper(code) != code
    requires JoinGame(reg, code, socketId, playerName, playerId, now).Success?
    ensures var reg' := JoinGame(reg, code, socketId, playerName, playerId, now).value.registry;
            && !MappingsResolve(reg')
            && ResolveCaller(reg', socketId) == Failure(GameNotFound)
            && LeaveGame(reg', socketId) == Left(reg', None)
  {
    StoredCodesAreUpper(reg);
    assert code != "" by {
      assert |ToUpper(code)| == |code|;
    }
    var reg' := JoinGame(reg, code, socketId, playerName, playerId, now).value.registry;
    assert reg'.games.Keys == reg.games.Keys + {ToUpper(code)};
    assert code !in reg'.games;
    assert reg'.playerToGame[socketId] == code;
  }

  // ----- Leaving -----

  /** Where each remaining player came from. */
  lemma RemoveAtIndex(ps: seq<Player>, i: nat)
    requires i < |ps|
    ensures forall k :: 0 <= k < |RemoveAt(ps, i)| ==> RemoveAt(ps, i)[k] == ps[if k < i then k else k + 1]
  {
  }

  /** Deleting one player keeps the pairwise properties. */
  lemma RemoveAtKeepsDistinct(ps: seq<Player>, i: nat)
    requires i < |ps|
    ensures DistinctPlayerIds(ps) ==> DistinctPlayerIds(RemoveAt(ps, i))
    ensures DistinctNames(ps) ==> DistinctNames(RemoveAt(ps, i))
  {
    RemoveAtIndex(ps, i);
  }

  lemma RemoveAtKeepsCharacters(ps: seq<Player>, i: nat, chars: seq<Character>)
    requires i < |ps|
    ensures NoCharacterHeldTwice(ps) ==> NoCharacterHeldTwice(RemoveAt(ps, i))
    ensures HeldFromScenario(ps, chars) ==> HeldFromScenario(RemoveAt(ps, i), chars)
  {
    RemoveAtIndex(ps, i);
    NoCharacterHeldTwiceIndex(ps);
    NoCharacterHeldTwiceIndex(RemoveAt(ps, i));
  }

  /** Deleting one player keeps every seat of another socket. */
  lemma RemoveAtKeepsSeats(ps: seq<Player>, i: nat)
    requires i < |ps|
    ensures forall s :: s != ps[i].socketId && Seated(ps, s) ==> Seated(RemoveAt(ps, i), s)
  {
    var rest := RemoveAt(ps, i);
    RemoveAtIndex(ps, i);
    forall s | s != ps[i].socketId && Seated(ps, s) ensures Seated(rest, s) {
      var k :| 0 <= k < |ps| && ps[k].socketId == s;
      assert rest[if k < i then k else k - 1] == ps[k];
    }
  }

  /** A non-host leaving keeps the host. */
  lemma GuestLeaveKeepsHost(ps: seq<Player>, i: nat, hostId: string)
    requires i < |ps| && !ps[i].isHost && HostIs(ps, hostId)
    ensures HostIs(RemoveAt(ps, i), hostId)
  {
    var rest := RemoveAt(ps, i);
    var h :| 0 <= h < |ps| && ps[h].id == hostId;
    assert ps[h].isHost;
    RemoveAtIndex(ps, i);
    assert rest[if h < i then h else h - 1] == ps[h];
  }

  /** The host leaving hands the role to the earliest-joined remaining player. */
  lemma HostLeavePromotes(ps: seq<Player>, i: nat, hostId: string)
    requires i < |ps| && ps[i].isHost && HostIs(ps, hostId) && DistinctPlayerIds(ps)
    requires |ps| >= 2
    ensures var rest := RemoveAt(ps, i);
            HostIs(rest[0 := rest[0].(isHost := true)], rest[0].id)
  {
    var rest := RemoveAt(ps, i);
    var qs := rest[0 := rest[0].(isHost := true)];
    RemoveAtIndex(ps, i);
    assert qs[0].id == rest[0].id;
    forall k | 0 <= k < |qs| ensures qs[k].isHost <==> qs[k].id == rest[0].id {
      if k > 0 {
        var j := if k < i then k else k + 1;
        assert qs[k] == ps[j] && j != i;
        assert ps[j].id != ps[i].id;
      }
    }
  }

  /** The session left behind by a departure is valid and seats every other socket. */
  lemma DepartureKeepsValid(g: Session, i: nat)
    requires Valid(g) && i < |g.players| && |g.players| >= 2
    ensures var rest := RemoveAt(g.players, i);
            var g' := if g.players[i].isHost then g.(players := rest[0 := rest[0].(isHost := true)], hostId := rest[0].id)
                      else g.(players := rest);
            && Valid(g')
            && forall t :: t != g.players[i].socketId && Seated(g.players, t) ==> Seated(g'.players, t)
  {
    var ps := g.players;
    var rest := RemoveAt(ps, i);
    RemoveAtKeepsDistinct(ps, i);
    RemoveAtKeepsCharacters(ps, i, g.scenario.characters);
    RemoveAtKeepsSeats(ps, i);
    if ps[i].isHost {
      HostLeavePromotes(ps, i, g.hostId);
      var qs := rest[0 := rest[0].(isHost := true)];
      SameSeatsFacts(rest, qs);
      SameCharacters(rest, qs, g.scenario.characters);
    } else {
      GuestLeaveKeepsHost(ps, i, g.hostId);
    }
  }

  /** Deleting the session of a last player keeps the registry consistent. */
  lemma LastLeaveKeepsInv(reg: Registry, socketId: string, c: string)
    requires Inv(reg) && c in reg.games
    requires |reg.games[c].players| == 1 && reg.games[c].players[0].socketId == socketId
    ensures Inv(Registry(reg.games - {c}, reg.playerToGame - {socketId}))
  {
    var ps := reg.games[c].players;
    forall t | t != socketId ensures !Seated(ps, t) {
      assert ps[0].socketId == socketId;
    }
  }

  lemma OtherLeaveKeepsInv(reg: Registry, socketId: string, c: string, g': Session)
    requires Inv(reg) && c in reg.games
    requires Valid(g') && g'.code == c
    requires forall t :: t != socketId && Seated(reg.games[c].players, t) ==> Seated(g'.players, t)
    ensures Inv(Registry(reg.games[c := g'], reg.playerToGame - {socketId}))
  {
  }

  lemma LeaveGameKeepsInv(reg: Registry, socketId: string)
    requires Inv(reg)
    ensures Inv(LeaveGame(reg, socketId).registry)
  {
    if ResolveCaller(reg, socketId).Success? {
      var seat := ResolveCaller(reg, socketId).value;
      var g := reg.games[seat.code];
      if |g.players| == 1 {
        LastLeaveKeepsInv(reg, socketId, seat.code);
      } else {
        DepartureKeepsValid(g, seat.index);
        OtherLeaveKeepsInv(reg, socketId, seat.code, LeaveGame(reg, socketId).departure.value.game);
      }
    }
  }

  /** The registry a successful corrected join produces. */
  lemma JoinGameNormalizedShape(reg: Registry, code: string, socketId: string, playerName: string,
                                playerId: string, now: int)
    requires JoinGameNormalized(reg, code, socketId, playerName, playerId, now).Success?
    ensures var key := ToUpper(code);
            && key in reg.games
            && var g' := reg.games[key].(players := reg.games[key].players + [Player(playerId, socketId, playerName, None, false, true, now)]);
               JoinGameNormalized(reg, code, socketId, playerName, playerId, now).value.registry
                 == Registry(reg.games[key := g'], reg.playerToGame[socketId := key])
  {
  }

  /** A guest who holds the last seat and is alone on its socket leaves without a trace. */
  lemma LastGuestLeaves(reg: Registry, key: string, g: Session, p: Player)
    requires g.players != [] && !p.isHost
    requires forall k :: 0 <= k < |g.players| ==> g.players[k].socketId != p.socketId
    requires key != "" && p.socketId !in reg.playerToGame
    ensures var reg' := Registry(reg.games[key := g.(players := g.players + [p])], reg.playerToGame[p.socketId := key]);
            LeaveGame(reg', p.socketId) == Left(Registry(reg.games[key := g], reg.playerToGame), Some(Departure(g, p.name)))
  {
    var g' := g.(players := g.players + [p]);
    var reg' := Registry(reg.games[key := g'], reg.playerToGame[p.socketId := key]);
    var ps' := g'.players;
    assert FindBySocket(ps', p.socketId) == Some(|g.players|) by {
      assert ps'[|g.players|] == p;
      forall k | 0 <= k < |g.players| ensures ps'[k].socketId != p.socketId {
        assert ps'[k] == g.players[k];
      }
    }
    assert ResolveCaller(reg', p.socketId) == Success(Seat(key, |g.players|));
    assert RemoveAt(ps', |g.players|) == g.players;
    assert reg'.games[key := g] == reg.games[key := g];
    assert reg'.playerToGame - {p.socketId} == reg.playerToGame;
  }

  /** Joining and then leaving from a socket the registry has never seen restores the
      registry exactly. */
  lemma JoinThenLeaveRestores(reg: Registry, code: string, socketId: string, playerName: string,
                              playerId: string, now: int)
    requires GamesValid(reg)
    requires socketId !in reg.playerToGame
    requires forall c :: c in reg.games ==> !Seated(reg.games[c].players, socketId)
    requires JoinGameNormalized(reg, code, socketId, playerName, playerId, now).Success?
    ensures var key := ToUpper(code);
            LeaveGame(JoinGameNormalized(reg, code, socketId, playerName, playerId, now).value.registry, socketId)
              == Left(reg, Some(Departure(reg.games[key], playerName)))
  {
    var key := ToUpper(code);
    JoinGameNormalizedShape(reg, code, socketId, playerName, playerId, now);
    var g := reg.games[key];
    var p := Player(playerId, socketId, playerName, None, false, true, now);
    assert |key| == CodeLength;
    assert !Seated(g.players, socketId);
    LastGuestLeaves(reg, key, g, p);
    assert reg.games[key := g] == reg.games;
  }
}
