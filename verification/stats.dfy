/** The `GameManager`'s monitoring queries: `getGameCount`, `getPlayerCount` and
    `getGameStats`. */
module Stats {
  import opened Wrappers
  import opened Types
  import opened Codes
  import opened Sessions
  import opened GameManager
  import opened RegistryInvariants
  import Cleanup
  import ServerScenarios

  /** One element per seat of every stored session. */
  function Seats(reg: Registry): set<(string, nat)> {
    set c, i: nat | c in reg.games && i < |reg.games[c].players| :: (c, i)
  }

  /** `getGameCount()`. */
  function GameCount(reg: Registry): nat {
    |reg.games|
  }

  /** `getPlayerCount()`: the players of all stored sessions together. */
  function PlayerCount(reg: Registry): nat {
    |Seats(reg)|
  }

  /** The stored sessions in one phase. */
  function CodesIn(reg: Registry, phase: Phase): (cs: set<string>)
    ensures forall c :: c in cs <==> c in reg.games && reg.games[c].phase == phase
  {
    set c | c in reg.games && reg.games[c].phase == phase
  }

  datatype GameStats = GameStats(totalGames: nat, totalPlayers: nat, gamesByPhase: map<Phase, nat>)

  /** `getGameStats()`: a phase appears in `gamesByPhase` only when some session is in
      it, with the number of such sessions. */
  function GetGameStats(reg: Registry): (st: GameStats)
    ensures st.totalGames == GameCount(reg) && st.totalPlayers == PlayerCount(reg)
    ensures forall ph :: ph in st.gamesByPhase <==> exists c :: c in reg.games && reg.games[c].phase == ph
    ensures forall ph :: ph in st.gamesByPhase ==> st.gamesByPhase[ph] == |CodesIn(reg, ph)| >= 1
  {
    var byPhase := map ph: Phase | ph in (set c | c in reg.games :: reg.games[c].phase) :: |CodesIn(reg, ph)|;
    GameStats(GameCount(reg), PlayerCount(reg), byPhase)
  }

  function PhaseTally(st: GameStats, ph: Phase): nat {
    if ph in st.gamesByPhase then st.gamesByPhase[ph] else 0
  }

  lemma TallyIsCount(reg: Registry, ph: Phase)
    ensures PhaseTally(GetGameStats(reg), ph) == |CodesIn(reg, ph)|
  {
    if ph !in GetGameStats(reg).gamesByPhase {
      assert CodesIn(reg, ph) == {};
    }
  }

  /** The stored sessions whose phase is one of `phases`. */
  function CodesAmong(reg: Registry, phases: set<Phase>): set<string> {
    set c | c in reg.games && reg.games[c].phase in phases
  }

  lemma AddPhase(reg: Registry, done: set<Phase>, ph: Phase)
    requires ph !in done
    ensures |CodesAmong(reg, done + {ph})| == |CodesAmong(reg, done)| + |CodesIn(reg, ph)|
  {
    var a, b := CodesAmong(reg, done), CodesIn(reg, ph);
    assert CodesAmong(reg, done + {ph}) == a + b;
    assert a * b == {};
  }

  function AllPhases(): set<Phase> {
    {} + {Lobby} + {Introduction} + {Investigation} + {Phase.Accusation} + {Reveal} + {Finished}
  }

  lemma AllPhasesCover(reg: Registry)
    ensures CodesAmong(reg, AllPhases()) == reg.games.Keys
    ensures CodesAmong(reg, {}) == {}
  {
    forall ph: Phase ensures ph in AllPhases() {
      match ph
      case Lobby =>
      case Introduction =>
      case Investigation =>
      case Accusation =>
      case Reveal =>
      case Finished =>
    }
  }

  /** Every stored session is in exactly one phase. */
  lemma PhasesPartition(reg: Registry)
    ensures |reg.games| ==
            |CodesIn(reg, Lobby)| + |CodesIn(reg, Introduction)| + |CodesIn(reg, Investigation)| +
            |CodesIn(reg, Phase.Accusation)| + |CodesIn(reg, Reveal)| + |CodesIn(reg, Finished)|
  {
    AllPhasesCover(reg);
    AddPhase(reg, {}, Lobby);
    AddPhase(reg, {} + {Lobby}, Introduction);
    AddPhase(reg, {} + {Lobby} + {Introduction}, Investigation);
    AddPhase(reg, {} + {Lobby} + {Introduction} + {Investigation}, Phase.Accusation);
    AddPhase(reg, {} + {Lobby} + {Introduction} + {Investigation} + {Phase.Accusation}, Reveal);
    AddPhase(reg, {} + {Lobby} + {Introduction} + {Investigation} + {Phase.Accusation} + {Reveal}, Finished);
  }

  /** The per-phase counts add up to the number of sessions. */
  lemma PhaseCountsAddUp(reg: Registry)
    ensures var st := GetGameStats(reg);
            PhaseTally(st, Lobby) + PhaseTally(st, Introduction) + PhaseTally(st, Investigation) +
            PhaseTally(st, Phase.Accusation) + PhaseTally(st, Reveal) + PhaseTally(st, Finished) == st.totalGames
  {
    TallyIsCount(reg, Lobby);
    TallyIsCount(reg, Introduction);
    TallyIsCount(reg, Investigation);
    TallyIsCount(reg, Phase.Accusation);
    TallyIsCount(reg, Reveal);
    TallyIsCount(reg, Finished);
    PhasesPartition(reg);
  }

  // ----- How the counts move -----

  lemma CreateGameCounts(reg: Registry, catalog: ServerScenarios.Catalog, socketId: string, playerName: string,
                         scenarioId: Option<string>, attempts: seq<seq<nat>>,
                         sessionId: string, hostId: string, now: int)
    requires ValidAttempts(attempts) && SomeAttemptIsFree(reg.games.Keys, attempts)
    ensures var r := CreateGame(reg, catalog, socketId, playerName, scenarioId, attempts, sessionId, hostId, now);
            r.Success? ==> GameCount(r.value.registry) == GameCount(reg) + 1 &&
                           PlayerCount(r.value.registry) == PlayerCount(reg) + 1
  {
    var r := CreateGame(reg, catalog, socketId, playerName, scenarioId, attempts, sessionId, hostId, now);
    if r.Success? {
      var code := r.value.game.code;
      assert Seats(r.value.registry) == Seats(reg) + {(code, 0)};
      assert (code, 0) !in Seats(reg);
    }
  }

  lemma JoinGameCounts(reg: Registry, code: string, socketId: string, playerName: string, playerId: string, now: int)
    requires JoinGameNormalized(reg, code, socketId, playerName, playerId, now).Success?
    ensures var reg' := JoinGameNormalized(reg, code, socketId, playerName, playerId, now).value.registry;
            GameCount(reg') == GameCount(reg) && PlayerCount(reg') == PlayerCount(reg) + 1
  {
    JoinGameNormalizedShape(reg, code, socketId, playerName, playerId, now);
    var key := ToUpper(code);
    var reg' := JoinGameNormalized(reg, code, socketId, playerName, playerId, now).value.registry;
    var n := |reg.games[key].players|;
    assert Seats(reg') == Seats(reg) + {(key, n)};
    assert (key, n) !in Seats(reg);
  }

  /** A departure takes one player away, and the session too when it was the last. */
  lemma LeaveGameCounts(reg: Registry, socketId: string)
    requires ResolveCaller(reg, socketId).Success?
    ensures var seat := ResolveCaller(reg, socketId).value;
            var reg' := LeaveGame(reg, socketId).registry;
            && PlayerCount(reg') == PlayerCount(reg) - 1
            && GameCount(reg') == GameCount(reg) - (if |reg.games[seat.code].players| == 1 then 1 else 0)
  {
    var seat := ResolveCaller(reg, socketId).value;
    var reg' := LeaveGame(reg, socketId).registry;
    var n := |reg.games[seat.code].players|;
    assert Seats(reg') == Seats(reg) - {(seat.code, n - 1)};
    assert (seat.code, n - 1) in Seats(reg);
  }

  lemma SubsetCount<T>(a: set<T>, b: set<T>)
    requires b <= a
    ensures |a - b| == |a| - |b|
  {
    assert a == (a - b) + b;
  }

  /** The sweep drops exactly the expired sessions. */
  lemma CleanupGameCount(reg: Registry, now: int)
    ensures GameCount(Cleanup.CleanupOldGames(reg, now)) ==
            GameCount(reg) - |set c | c in reg.games && Cleanup.ShouldRemove(reg.games[c], now)|
  {
    var r := Cleanup.CleanupOldGames(reg, now);
    var gone := set c | c in reg.games && Cleanup.ShouldRemove(reg.games[c], now);
    assert r.games.Keys == reg.games.Keys - gone;
    SubsetCount(reg.games.Keys, gone);
  }

  /** The sweep never adds a player. */
  lemma CleanupPlayerCount(reg: Registry, now: int)
    ensures PlayerCount(Cleanup.CleanupOldGames(reg, now)) <= PlayerCount(reg)
  {
    var r := Cleanup.CleanupOldGames(reg, now);
    assert Seats(r) <= Seats(reg);
    SubsetCount(Seats(reg), Seats(r));
  }
}
