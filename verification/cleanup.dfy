/** The `GameManager`'s periodic sweep (`cleanupOldGames`): sessions past their age
    limit are dropped together with the socket mapping of every player they seated.
    The timer that runs the sweep every 30 minutes is outside the model; the sweep
    takes the current time in milliseconds. */
module Cleanup {
  import opened Wrappers
  import opened Types
  import opened Sessions
  import opened GameManager
  import opened RegistryInvariants

  /** Two hours, in milliseconds. */
  const MaxAgeMs: int := 2 * 60 * 60 * 1000
  /** Thirty minutes, in milliseconds: the age limit of a finished session. */
  const FinishedMaxAgeMs: int := 30 * 60 * 1000

  /** Ages compare strictly: a session exactly at a limit stays. */
  predicate ShouldRemove(g: Session, now: int) {
    var age := now - g.createdAt;
    age > MaxAgeMs || (g.phase == Finished && age > FinishedMaxAgeMs)
  }

  /** Some session the sweep removes seats this socket. */
  predicate SeatedInRemoved(reg: Registry, socketId: string, now: int) {
    exists c, i :: c in reg.games && ShouldRemove(reg.games[c], now) &&
                   0 <= i < |reg.games[c].players| && reg.games[c].players[i].socketId == socketId
  }

  function RemovedSockets(reg: Registry, now: int): (dead: set<string>)
    ensures forall s :: s in dead <==> SeatedInRemoved(reg, s, now)
  {
    set c, i | c in reg.games && ShouldRemove(reg.games[c], now) && 0 <= i < |reg.games[c].players| ::
      reg.games[c].players[i].socketId
  }

  function CleanupOldGames(reg: Registry, now: int): (r: Registry)
    ensures forall c :: c in r.games <==> c in reg.games && !ShouldRemove(reg.games[c], now)
    ensures forall c :: c in r.games ==> r.games[c] == reg.games[c]
    ensures forall s :: s in r.playerToGame <==> s in reg.playerToGame && !SeatedInRemoved(reg, s, now)
    ensures forall s :: s in r.playerToGame ==> r.playerToGame[s] == reg.playerToGame[s]
  {
    var dead := RemovedSockets(reg, now);
    Registry(map c | c in reg.games && !ShouldRemove(reg.games[c], now) :: reg.games[c],
             map s | s in reg.playerToGame && s !in dead :: reg.playerToGame[s])
  }

  /** A second sweep at the same time finds nothing more to remove. */
  lemma CleanupIdempotent(reg: Registry, now: int)
    ensures CleanupOldGames(CleanupOldGames(reg, now), now) == CleanupOldGames(reg, now)
  {
    var r := CleanupOldGames(reg, now);
    assert forall s :: !SeatedInRemoved(r, s, now);
  }

  /** A later sweep removes at least what an earlier one would have. */
  lemma CleanupMonotone(reg: Registry, now: int, later: int)
    requires now <= later
    ensures CleanupOldGames(reg, later).games.Keys <= CleanupOldGames(reg, now).games.Keys
    ensures CleanupOldGames(reg, later).playerToGame.Keys <= CleanupOldGames(reg, now).playerToGame.Keys
  {
    forall s | SeatedInRemoved(reg, s, now) ensures SeatedInRemoved(reg, s, later) {
      var c, i :| c in reg.games && ShouldRemove(reg.games[c], now) &&
                  0 <= i < |reg.games[c].players| && reg.games[c].players[i].socketId == s;
      assert ShouldRemove(reg.games[c], later);
    }
  }

  /** No session younger than thirty minutes is ever swept. */
  lemma YoungSessionsSurvive(reg: Registry, now: int, c: string)
    requires c in reg.games && now - reg.games[c].createdAt <= FinishedMaxAgeMs
    ensures c in CleanupOldGames(reg, now).games
  {
  }

  /** The sweep keeps the registry consistent, and every socket that sat in a swept
      session is afterwards `NotInGame`. */
  lemma CleanupKeepsInv(reg: Registry, now: int)
    requires Inv(reg)
    ensures Inv(CleanupOldGames(reg, now))
    ensures forall s :: SeatedInRemoved(reg, s, now) ==> ResolveCaller(CleanupOldGames(reg, now), s) == Failure(NotInGame)
  {
    var r := CleanupOldGames(reg, now);
    forall s | s in r.playerToGame
      ensures r.playerToGame[s] in r.games && Seated(r.games[r.playerToGame[s]].players, s)
    {
      var c := reg.playerToGame[s];
      var k :| 0 <= k < |reg.games[c].players| && reg.games[c].players[k].socketId == s;
      assert !ShouldRemove(reg.games[c], now);
    }
  }
}
