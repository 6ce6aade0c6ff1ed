/** One game session of the server's `GameManager`: its players in join order, the
    roster queries the manager uses, the character allocator run by `startGame`, and
    the consistency invariant every operation keeps. */
module Sessions {
  import opened Wrappers
  import opened Types
  import Shuffle

  /** `joinedAt` is a time in milliseconds; `id` is the player's uuid and `socketId`
      the connection it currently plays from. */
  datatype Player = Player(
    id: string,
    socketId: string,
    name: string,
    character: Option<Character>,
    isHost: bool,
    isConnected: bool,
    joinedAt: int)

  /** The source keeps `players` in a `Map` keyed by player id; its iteration order is
      insertion order, which is the order of this sequence. */
  datatype Session = Session(
    id: string,
    code: string,
    scenario: Scenario,
    players: seq<Player>,
    phase: Phase,
    hostId: string,
    createdAt: int,
    startedAt: Option<int>,
    revealedClues: seq<string>,
    accusations: seq<Accusation>,
    chatMessages: seq<ChatMessage>)

  // ----- Roster queries -----

  /** `Array.from(players.values()).find(p => p.socketId === socketId)`, as a position. */
  function FindBySocket(ps: seq<Player>, socketId: string): (r: Option<nat>)
    ensures r.Some? ==> r.value < |ps| && ps[r.value].socketId == socketId
    ensures r.Some? ==> forall k :: 0 <= k < r.value ==> ps[k].socketId != socketId
    ensures r.None? ==> forall k :: 0 <= k < |ps| ==> ps[k].socketId != socketId
  {
    if ps == [] then None
    else if ps[0].socketId == socketId then Some(0)
    else match FindBySocket(ps[1..], socketId)
      case None => None
      case Some(k) => Some(k + 1)
  }

  /** `players.get(id)`, as a position. */
  function FindById(ps: seq<Player>, id: string): (r: Option<nat>)
    ensures r.Some? ==> r.value < |ps| && ps[r.value].id == id
    ensures r.None? ==> forall k :: 0 <= k < |ps| ==> ps[k].id != id
  {
    if ps == [] then None
    else if ps[0].id == id then Some(0)
    else match FindById(ps[1..], id)
      case None => None
      case Some(k) => Some(k + 1)
  }

  predicate HasName(ps: seq<Player>, name: string) {
    exists i :: 0 <= i < |ps| && ps[i].name == name
  }

  /** The ids of the characters the players hold. */
  function HeldIds(ps: seq<Player>): (ids: set<string>)
    ensures forall i :: 0 <= i < |ps| && ps[i].character.Some? ==> ps[i].character.value.id in ids
    ensures forall id :: id in ids ==> exists i :: 0 <= i < |ps| && ps[i].character.Some? && ps[i].character.value.id == id
  {
    if ps == [] then {}
    else
      var rest := HeldIds(ps[1..]);
      assert forall i :: 1 <= i < |ps| ==> ps[i] == ps[1..][i - 1];
      (if ps[0].character.Some? then {ps[0].character.value.id} else {}) + rest
  }

  function UnassignedCount(ps: seq<Player>): nat {
    if ps == [] then 0 else (if ps[0].character.None? then 1 else 0) + UnassignedCount(ps[1..])
  }

  /** `ps` with the player at position `i` deleted. */
  function RemoveAt(ps: seq<Player>, i: nat): (r: seq<Player>)
    requires i < |ps|
    ensures |r| == |ps| - 1
    ensures forall k :: 0 <= k < i ==> r[k] == ps[k]
    ensures forall k :: i <= k < |r| ==> r[k] == ps[k + 1]
  {
    ps[..i] + ps[i + 1..]
  }

  // ----- The session invariant -----

  predicate DistinctPlayerIds(ps: seq<Player>) {
    forall i, j :: 0 <= i < j < |ps| ==> ps[i].id != ps[j].id
  }

  predicate DistinctNames(ps: seq<Player>) {
    forall i, j :: 0 <= i < j < |ps| ==> ps[i].name != ps[j].name
  }

  /** Exactly the player whose id is `hostId` carries the host flag, and it is present. */
  predicate HostIs(ps: seq<Player>, hostId: string) {
    && (forall i :: 0 <= i < |ps| ==> (ps[i].isHost <==> ps[i].id == hostId))
    && exists i :: 0 <= i < |ps| && ps[i].id == hostId
  }

  /** No character id is held by two players (stated by recursion; see
      `NoCharacterHeldTwiceIndex` for the pairwise reading). */
  predicate NoCharacterHeldTwice(ps: seq<Player>) {
    ps == [] ||
    ((ps[0].character.Some? ==> ps[0].character.value.id !in HeldIds(ps[1..])) && NoCharacterHeldTwice(ps[1..]))
  }

  predicate HeldFromScenario(ps: seq<Player>, chars: seq<Character>) {
    forall i :: 0 <= i < |ps| && ps[i].character.Some? ==> ps[i].character.value in chars
  }

  predicate OneAccusationPerPlayer(accs: seq<Accusation>) {
    forall i, j :: 0 <= i < j < |accs| ==> accs[i].playerId != accs[j].playerId
  }

  predicate RevealedWithin(revealed: seq<string>, clues: seq<Clue>) {
    Distinct(revealed) && forall k :: 0 <= k < |revealed| ==> revealed[k] in ClueIds(clues)
  }

  /** What a scenario must satisfy for the invariant to be reachable: distinct character
      ids, and room for the host. */
  predicate ScenarioOk(sc: Scenario) {
    Distinct(CharacterIds(sc.characters)) && 1 <= sc.maxPlayers
  }

  predicate Valid(g: Session) {
    && ScenarioOk(g.scenario)
    && 1 <= |g.players| <= g.scenario.maxPlayers
    && DistinctPlayerIds(g.players)
    && DistinctNames(g.players)
    && HostIs(g.players, g.hostId)
    && NoCharacterHeldTwice(g.players)
    && HeldFromScenario(g.players, g.scenario.characters)
    && OneAccusationPerPlayer(g.accusations)
    && RevealedWithin(g.revealedClues, g.scenario.clues)
  }

  /** A valid session has exactly one host. */
  lemma ExactlyOneHost(g: Session)
    requires Valid(g)
    ensures exists h :: 0 <= h < |g.players| && g.players[h].isHost &&
                        forall k :: 0 <= k < |g.players| && g.players[k].isHost ==> k == h
  {
    var ps := g.players;
    assert HostIs(ps, g.hostId) && DistinctPlayerIds(ps);
    var h :| 0 <= h < |ps| && ps[h].id == g.hostId;
    forall k | 0 <= k < |ps| && ps[k].isHost ensures k == h {
      assert ps[k].id == ps[h].id;
    }
  }

  lemma {:induction false} NoCharacterHeldTwiceIndex(ps: seq<Player>)
    ensures NoCharacterHeldTwice(ps) <==>
            forall i, j :: 0 <= i < j < |ps| && ps[i].character.Some? && ps[j].character.Some? ==>
                           ps[i].character.value.id != ps[j].character.value.id
  {
    if ps != [] {
      NoCharacterHeldTwiceIndex(ps[1..]);
      assert forall i :: 1 <= i < |ps| ==> ps[i] == ps[1..][i - 1];
    }
  }

  // ----- The character allocator (`autoAssignCharacters`) -----

  /** The characters whose id nobody holds: `characters.filter(c => !players.some(...))`. */
  function Available(chars: seq<Character>, held: set<string>): (r: seq<Character>)
    ensures forall c :: c in r ==> c in chars && c.id !in held
    ensures forall c :: c in chars && c.id !in held ==> c in r
  {
    if chars == [] then []
    else (if chars[0].id in held then [] else [chars[0]]) + Available(chars[1..], held)
  }

  /** Hands `pool[k]` to the k-th player without a character, while the pool lasts;
      players who already hold a character are passed over. */
  function Deal(ps: seq<Player>, pool: seq<Character>): (r: seq<Player>)
    ensures |r| == |ps|
  {
    if ps == [] then []
    else if ps[0].character.Some? || pool == [] then [ps[0]] + Deal(ps[1..], pool)
    else [ps[0].(character := Some(pool[0]))] + Deal(ps[1..], pool[1..])
  }

  function CharacterPool(g: Session, draws: nat -> nat): seq<Character> {
    Shuffle.ShuffleArray(Available(g.scenario.characters, HeldIds(g.players)), draws)
  }

  /** `autoAssignCharacters(game)`, with `Math.random` supplied as `draws`. */
  function AutoAssign(g: Session, draws: nat -> nat): Session {
    g.(players := Deal(g.players, CharacterPool(g, draws)))
  }

  /** Player by player: an assigned player is untouched, and the k-th unassigned player
      receives the k-th pooled character if there is one and stays unassigned otherwise.
      Nothing but `character` ever changes. */
  lemma {:induction false} DealShape(ps: seq<Player>, pool: seq<Character>)
    ensures var r := Deal(ps, pool);
            forall i :: 0 <= i < |ps| ==>
              && r[i] == ps[i].(character := r[i].character)
              && (ps[i].character.Some? ==> r[i] == ps[i])
              && (ps[i].character.None? ==>
                    var k := UnassignedCount(ps[..i]);
                    r[i].character == if k < |pool| then Some(pool[k]) else None)
  {
    if ps != [] {
      DealShape(ps[1..], if ps[0].character.Some? || pool == [] then pool else pool[1..]);
      var r := Deal(ps, pool);
      forall i | 1 <= i < |ps| ensures UnassignedCount(ps[..i]) == (if ps[0].character.None? then 1 else 0) + UnassignedCount(ps[1..][..i - 1]) {
        assert ps[..i][1..] == ps[1..][..i - 1];
      }
      assert ps[..0] == [];
    }
  }

  /** Every character held after dealing was held before or came from the pool. */
  lemma {:induction false} DealHeld(ps: seq<Player>, pool: seq<Character>)
    ensures forall id :: id in HeldIds(Deal(ps, pool)) ==>
              id in HeldIds(ps) || exists k :: 0 <= k < |pool| && pool[k].id == id
  {
    if ps != [] {
      if ps[0].character.Some? || pool == [] {
        DealHeld(ps[1..], pool);
        assert Deal(ps, pool)[1..] == Deal(ps[1..], pool);
      } else {
        DealHeld(ps[1..], pool[1..]);
        assert Deal(ps, pool)[1..] == Deal(ps[1..], pool[1..]);
        forall id | id in HeldIds(Deal(ps[1..], pool[1..])) && id !in HeldIds(ps)
          ensures exists k :: 0 <= k < |pool| && pool[k].id == id
        {
          var k :| 0 <= k < |pool[1..]| && pool[1..][k].id == id;
          assert pool[k + 1].id == id;
        }
      }
    }
  }

  /** Dealing a pool of distinct, unclaimed ids never gives one character to two players. */
  lemma {:induction false} DealNoCharacterHeldTwice(ps: seq<Player>, pool: seq<Character>)
    requires NoCharacterHeldTwice(ps)
    requires Distinct(CharacterIds(pool))
    requires forall k :: 0 <= k < |pool| ==> pool[k].id !in HeldIds(ps)
    ensures NoCharacterHeldTwice(Deal(ps, pool))
  {
    if ps != [] {
      var r := Deal(ps, pool);
      if ps[0].character.Some? || pool == [] {
        DealNoCharacterHeldTwice(ps[1..], pool);
        DealHeld(ps[1..], pool);
        assert r[1..] == Deal(ps[1..], pool);
        if ps[0].character.Some? {
          assert ps[0].character.value.id !in HeldIds(r[1..]);
        }
      } else {
        var tail := pool[1..];
        assert CharacterIds(tail) == CharacterIds(pool)[1..];
        DealNoCharacterHeldTwice(ps[1..], tail);
        DealHeld(ps[1..], tail);
        assert r[1..] == Deal(ps[1..], tail);
        assert forall k :: 0 <= k < |tail| ==> tail[k].id == CharacterIds(pool)[k + 1];
        assert pool[0].id !in HeldIds(r[1..]);
      }
    }
  }

  /** Dealing only hands out characters drawn from the pool. */
  lemma {:induction false} DealFromPool(ps: seq<Player>, pool: seq<Character>, chars: seq<Character>)
    requires HeldFromScenario(ps, chars)
    requires forall k :: 0 <= k < |pool| ==> pool[k] in chars
    ensures HeldFromScenario(Deal(ps, pool), chars)
  {
    DealShape(ps, pool);
  }

  /** Players left without a character: the surplus beyond the pool, and no more. */
  lemma {:induction false} DealUnassignedCount(ps: seq<Player>, pool: seq<Character>)
    ensures UnassignedCount(Deal(ps, pool)) ==
            if UnassignedCount(ps) <= |pool| then 0 else UnassignedCount(ps) - |pool|
  {
    if ps != [] {
      var r := Deal(ps, pool);
      if ps[0].character.Some? || pool == [] {
        DealUnassignedCount(ps[1..], pool);
        assert r[1..] == Deal(ps[1..], pool);
      } else {
        DealUnassignedCount(ps[1..], pool[1..]);
        assert r[1..] == Deal(ps[1..], pool[1..]);
      }
    }
  }

  lemma {:induction false} UnassignedCountZero(ps: seq<Player>)
    requires UnassignedCount(ps) == 0
    ensures forall i :: 0 <= i < |ps| ==> ps[i].character.Some?
  {
    if ps != [] {
      UnassignedCountZero(ps[1..]);
      assert forall i :: 1 <= i < |ps| ==> ps[i] == ps[1..][i - 1];
    }
  }

  // ----- Counting: enough free characters for every unassigned player -----

  function IdSet(chars: seq<Character>): (ids: set<string>)
    ensures forall c :: c in chars ==> c.id in ids
  {
    if chars == [] then {} else {chars[0].id} + IdSet(chars[1..])
  }

  lemma {:induction false} AvailableCount(chars: seq<Character>, held: set<string>)
    requires Distinct(CharacterIds(chars))
    ensures |Available(chars, held)| + |held * IdSet(chars)| == |chars|
  {
    if chars != [] {
      var c := chars[0];
      var rest := chars[1..];
      assert CharacterIds(rest) == CharacterIds(chars)[1..];
      AvailableCount(rest, held);
      FirstIdNotInRest(chars);
      var both := held * IdSet(rest);
      assert IdSet(chars) == {c.id} + IdSet(rest);
      assert |Available(chars, held)| == (if c.id in held then 0 else 1) + |Available(rest, held)|;
      if c.id in held {
        assert held * IdSet(chars) == both + {c.id};
        assert c.id !in both;
      } else {
        assert held * IdSet(chars) == both;
      }
    }
  }

  lemma FirstIdNotInRest(chars: seq<Character>)
    requires chars != [] && Distinct(CharacterIds(chars))
    ensures chars[0].id !in IdSet(chars[1..])
  {
    IdSetMembers(chars[1..], chars[0].id);
  }

  lemma {:induction false} IdSetMembers(chars: seq<Character>, id: string)
    ensures id in IdSet(chars) ==> exists k :: 0 <= k < |chars| && chars[k].id == id
  {
    if chars != [] {
      IdSetMembers(chars[1..], id);
      if id in IdSet(chars[1..]) {
        var k :| 0 <= k < |chars[1..]| && chars[1..][k].id == id;
        assert chars[k + 1].id == id;
      }
    }
  }

  lemma {:induction false} HeldCount(ps: seq<Player>)
    requires NoCharacterHeldTwice(ps)
    ensures |HeldIds(ps)| + UnassignedCount(ps) == |ps|
  {
    if ps != [] {
      HeldCount(ps[1..]);
    }
  }

  // ----- What auto-assignment guarantees -----

  /** `autoAssignCharacters` changes nothing but characters and keeps every character
      already held. */
  lemma AutoAssignKeepsRoster(g: Session, draws: nat -> nat)
    ensures var g' := AutoAssign(g, draws);
            && g' == g.(players := g'.players)
            && |g'.players| == |g.players|
            && (forall i :: 0 <= i < |g.players| ==> g'.players[i] == g.players[i].(character := g'.players[i].character))
            && (forall i :: 0 <= i < |g.players| && g.players[i].character.Some? ==> g'.players[i] == g.players[i])
  {
    DealShape(g.players, CharacterPool(g, draws));
  }

  /** The shuffled pool holds distinct, unclaimed characters of the scenario. */
  lemma PoolIsFree(g: Session, draws: nat -> nat)
    requires ScenarioOk(g.scenario)
    ensures var pool := CharacterPool(g, draws);
            && Distinct(CharacterIds(pool))
            && (forall k :: 0 <= k < |pool| ==> pool[k] in g.scenario.characters && pool[k].id !in HeldIds(g.players))
            && |pool| + |HeldIds(g.players) * IdSet(g.scenario.characters)| == |g.scenario.characters|
  {
    var chars := g.scenario.characters;
    var held := HeldIds(g.players);
    var avail := Available(chars, held);
    var pool := Shuffle.ShuffleArray(avail, draws);
    assert pool == CharacterPool(g, draws);
    Shuffle.ShuffleKeepsElements(avail, draws);
    ShuffledPoolFree(chars, held, avail, pool);
    AvailableDistinct(chars, held);
    Shuffle.ShuffleKeepsDistinct(avail, draws);
    ShuffledPoolDistinct(chars, avail, pool);
    AvailableCount(chars, held);
  }

  /** Every member of a reordering of the free characters is a free scenario character. */
  lemma ShuffledPoolFree(chars: seq<Character>, held: set<string>, avail: seq<Character>, pool: seq<Character>)
    requires avail == Available(chars, held)
    requires forall c :: c in pool <==> c in avail
    ensures forall k :: 0 <= k < |pool| ==> pool[k] in chars && pool[k].id !in held
  {
    forall k | 0 <= k < |pool| ensures pool[k] in chars && pool[k].id !in held {
      assert pool[k] in avail;
    }
  }

  /** Distinct characters drawn from a scenario with distinct ids carry distinct ids. */
  lemma ShuffledPoolDistinct(chars: seq<Character>, avail: seq<Character>, pool: seq<Character>)
    requires Distinct(CharacterIds(chars))
    requires forall c :: c in avail ==> c in chars
    requires forall c :: c in pool <==> c in avail
    requires Distinct(pool)
    ensures Distinct(CharacterIds(pool))
  {
    forall i, j | 0 <= i < j < |pool| ensures CharacterIds(pool)[i] != CharacterIds(pool)[j] {
      assert pool[i] in avail && pool[j] in avail;
      assert pool[i] != pool[j];
      SameIdSameCharacter(chars, pool[i], pool[j]);
    }
  }

  /** Auto-assignment never hands a character to two players and hands out only the
      scenario's characters. */
  lemma AutoAssignNoCharacterHeldTwice(g: Session, draws: nat -> nat)
    requires ScenarioOk(g.scenario)
    requires NoCharacterHeldTwice(g.players)
    requires HeldFromScenario(g.players, g.scenario.characters)
    ensures NoCharacterHeldTwice(AutoAssign(g, draws).players)
    ensures HeldFromScenario(AutoAssign(g, draws).players, g.scenario.characters)
  {
    var pool := CharacterPool(g, draws);
    PoolIsFree(g, draws);
    DealFromPool(g.players, pool, g.scenario.characters);
    DealNoCharacterHeldTwice(g.players, pool);
  }

  /** A player is left unassigned only when the free characters run out: exactly the
      surplus of unassigned players over free characters stays unassigned. */
  lemma AutoAssignLeavesSurplus(g: Session, draws: nat -> nat)
    requires ScenarioOk(g.scenario)
    requires HeldFromScenario(g.players, g.scenario.characters)
    ensures var free := |g.scenario.characters| - |HeldIds(g.players)|;
            var before := UnassignedCount(g.players);
            UnassignedCount(AutoAssign(g, draws).players) == if before <= free then 0 else before - free
  {
    PoolIsFree(g, draws);
    DealUnassignedCount(g.players, CharacterPool(g, draws));
    assert HeldIds(g.players) * IdSet(g.scenario.characters) == HeldIds(g.players);
  }

  /** In a scenario with distinct character ids, the id identifies the character. */
  lemma SameIdSameCharacter(chars: seq<Character>, a: Character, b: Character)
    requires Distinct(CharacterIds(chars))
    requires a in chars && b in chars
    ensures a.id == b.id ==> a == b
  {
    var i :| 0 <= i < |chars| && chars[i] == a;
    var j :| 0 <= j < |chars| && chars[j] == b;
    assert CharacterIds(chars)[i] == a.id && CharacterIds(chars)[j] == b.id;
  }

  lemma {:induction false} AvailableDistinct(chars: seq<Character>, held: set<string>)
    requires Distinct(CharacterIds(chars))
    ensures Distinct(Available(chars, held))
  {
    if chars != [] {
      var rest := chars[1..];
      assert CharacterIds(rest) == CharacterIds(chars)[1..];
      AvailableDistinct(rest, held);
    }
  }

  /** When the scenario has a character for every seat, auto-assignment seats every player. */
  lemma AutoAssignSeatsEveryone(g: Session, draws: nat -> nat)
    requires Valid(g)
    requires g.scenario.maxPlayers <= |g.scenario.characters|
    ensures forall i :: 0 <= i < |g.players| ==> AutoAssign(g, draws).players[i].character.Some?
  {
    AutoAssignLeavesSurplus(g, draws);
    HeldCount(g.players);
    UnassignedCountZero(AutoAssign(g, draws).players);
  }
}
