/** Laws relating successive `GameManager` calls: what a call leaves behind decides
    how the next one behaves. */
module GameLaws {
  import opened Wrappers
  import opened Types
  import opened Sessions
  import opened GameManager

  /** Socket lookup sees nothing but the sockets. */
  lemma {:induction false} FindBySocketSockets(ps: seq<Player>, qs: seq<Player>, socketId: string)
    requires |ps| == |qs|
    requires forall i :: 0 <= i < |ps| ==> qs[i].socketId == ps[i].socketId
    ensures FindBySocket(qs, socketId) == FindBySocket(ps, socketId)
  {
    if ps != [] {
      FindBySocketSockets(ps[1..], qs[1..], socketId);
    }
  }

  /** Rewriting a session without moving any socket leaves every caller where it was. */
  lemma ResolveAfterRewrite(reg: Registry, c: string, g': Session, socketId: string)
    requires c in reg.games
    requires |g'.players| == |reg.games[c].players|
    requires forall i :: 0 <= i < |g'.players| ==> g'.players[i].socketId == reg.games[c].players[i].socketId
    ensures ResolveCaller(reg.(games := reg.games[c := g']), socketId) == ResolveCaller(reg, socketId)
  {
    FindBySocketSockets(reg.games[c].players, g'.players, socketId);
  }

  /** Releasing a clue twice is the same as releasing it once. */
  lemma ReleaseClueIdempotent(reg: Registry, socketId: string, clueId: string)
    requires ReleaseClue(reg, socketId, clueId).Success?
    ensures var u := ReleaseClue(reg, socketId, clueId).value;
            ReleaseClue(u.registry, socketId, clueId) == Success(u)
  {
    var u := ReleaseClue(reg, socketId, clueId).value;
    var seat := ResolveCaller(reg, socketId).value;
    ResolveAfterRewrite(reg, seat.code, u.game, socketId);
    assert u.registry == reg.(games := reg.games[seat.code := u.game]);
    assert clueId in u.game.revealedClues;
    assert u.registry.games[seat.code := u.game] == u.registry.games;
  }

  /** A released clue is revealed, and stays listed once. */
  lemma ReleasedClueListedOnce(reg: Registry, socketId: string, clueId: string)
    requires ReleaseClue(reg, socketId, clueId).Success?
    requires Distinct(reg.games[ResolveCaller(reg, socketId).value.code].revealedClues)
    ensures var g' := ReleaseClue(reg, socketId, clueId).value.game;
            clueId in g'.revealedClues && Distinct(g'.revealedClues)
  {
    var g' := ReleaseClue(reg, socketId, clueId).value.game;
    var g := reg.games[ResolveCaller(reg, socketId).value.code];
    if clueId !in g.revealedClues {
      assert g'.revealedClues[|g.revealedClues|] == clueId;
    }
  }

  /** Whatever a player submits next, a second accusation is refused. */
  lemma SecondAccusationRefused(reg: Registry, socketId: string, murderer: string, motive: string, means: string, now: int,
                                murderer2: string, motive2: string, means2: string, later: int)
    requires SubmitAccusation(reg, socketId, murderer, motive, means, now).Success?
    ensures var reg' := SubmitAccusation(reg, socketId, murderer, motive, means, now).value.registry;
            SubmitAccusation(reg', socketId, murderer2, motive2, means2, later) == Failure(DuplicateAccusation)
  {
    var u := SubmitAccusation(reg, socketId, murderer, motive, means, now).value;
    var seat := ResolveCaller(reg, socketId).value;
    var g := reg.games[seat.code];
    ResolveAfterRewrite(reg, seat.code, u.game, socketId);
    var p := g.players[seat.index];
    assert u.game.accusations[|g.accusations|].playerId == p.id;
    assert HasAccused(u.game.accusations, p.id);
  }

  /** A disconnected player keeps its seat: every later call from the same socket
      resolves to the same session and position, and disconnecting again changes
      nothing. */
  lemma DisconnectKeepsSeat(reg: Registry, socketId: string)
    ensures var reg' := HandleDisconnect(reg, socketId).registry;
            && ResolveCaller(reg', socketId) == ResolveCaller(reg, socketId)
            && HandleDisconnect(reg', socketId).registry == reg'
  {
    if ResolveCaller(reg, socketId).Success? {
      var seat := ResolveCaller(reg, socketId).value;
      var g' := HandleDisconnect(reg, socketId).departure.value.game;
      var reg' := HandleDisconnect(reg, socketId).registry;
      ResolveAfterRewrite(reg, seat.code, g', socketId);
      assert reg' == reg.(games := reg.games[seat.code := g']);
      var p := g'.players[seat.index];
      assert g'.players[seat.index := p.(isConnected := false)] == g'.players;
      assert reg'.games[seat.code := g'] == reg'.games;
    }
  }

  /** A session starts at most once: a repeated start from the host is refused. */
  lemma StartOnlyOnce(reg: Registry, socketId: string, draws: nat -> nat, now: int, draws2: nat -> nat, later: int)
    requires StartGame(reg, socketId, draws, now).Success?
    ensures var reg' := StartGame(reg, socketId, draws, now).value.registry;
            StartGame(reg', socketId, draws2, later) == Failure(AlreadyStarted)
  {
    var u := StartGame(reg, socketId, draws, now).value;
    var seat := ResolveCaller(reg, socketId).value;
    var g := reg.games[seat.code];
    AutoAssignKeepsRoster(g, draws);
    ResolveAfterRewrite(reg, seat.code, u.game, socketId);
    assert u.game.players[seat.index].isHost;
  }

  /** Once a character is assigned, assigning it again to anyone is refused. */
  lemma AssignedCharacterTaken(reg: Registry, socketId: string, playerId: string, characterId: string, otherId: string)
    requires AssignCharacter(reg, socketId, playerId, characterId).Success?
    requires FindById(reg.games[ResolveCaller(reg, socketId).value.code].players, otherId).Some?
    ensures var reg' := AssignCharacter(reg, socketId, playerId, characterId).value.registry;
            AssignCharacter(reg', socketId, otherId, characterId) == Failure(CharacterTaken)
  {
    var u := AssignCharacter(reg, socketId, playerId, characterId).value;
    var seat := ResolveCaller(reg, socketId).value;
    var g := reg.games[seat.code];
    var t := FindById(g.players, playerId).value;
    ResolveAfterRewrite(reg, seat.code, u.game, socketId);
    assert u.game.players[t].character.value.id == characterId;
    assert characterId in HeldIds(u.game.players);
    assert u.game.players[seat.index].isHost;
    var o := FindById(g.players, otherId).value;
    assert u.game.players[o].id == otherId;
  }
}
