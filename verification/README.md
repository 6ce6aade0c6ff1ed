# Murder-mystery game sessions, modelled in Dafny

This project models the core of a multiplayer murder-mystery party game:

- **The server's session registry (`GameManager`).** It holds two maps: `games`, from a six-character join code to a game session, and `playerToGame`, from a socket id to a join code. It also holds every gameplay operation:
  - creating, joining, leaving and disconnecting;
  - the host-only start, character assignment, phase change, clue release and solution reveal;
  - chat and accusations;
  - the random character allocator and its shuffle;
  - the join-code generator;
  - the age-based sweeper;
  - the statistics queries.
- **The server's scenario catalog.** It has a lookup with a default and one built-in scenario, "The Case of the Missing Heiress".
- **The browser's scenario service.** This is the scenario validator plus the id, category and reveal-order lookups.
- **The browser's game store.** This is the reducer-like updates applied to the client's copy of the session.

How the model is written:

- **Pure functions.** Every operation is a pure function over immutable datatypes.
- **Results.** A server operation either fails with one `Error` before changing anything, or returns the new `Registry` together with the session it would send to clients.
- **Players.** A session's players are a sequence in join order. This stands for the source's insertion-ordered `Map`; join order decides host succession and the order of character dealing.
- **Parameters.** Everything the source takes from its environment is a parameter:
  - uuids and `Date.now()`;
  - the `Math.random()` draws of the code generator;
  - the draws of the shuffle.

Files, one module each:

| file | module | what it holds |
|---|---|---|
| `wrappers.dfy` | `Wrappers` | `Option` and `Result` |
| `types.dfy` | `Types` | phases, scenario content, messages and accusations; id lookups |
| `codes.dfy` | `Codes` | the code alphabet, the generator, its retry loop, and ASCII upper-casing |
| `shuffle.dfy` | `Shuffle` | `shuffleArray` as a Fisher–Yates pass over oracle draws |
| `sessions.dfy` | `Sessions` | players, sessions, the session invariant and the character allocator |
| `server_scenarios.dfy` | `ServerScenarios` | the scenario catalog and the built-in scenario |
| `game_manager.dfy` | `GameManager` | the registry and every `GameManager` operation |
| `registry_invariants.dfy` | `RegistryInvariants` | the registry invariant, that each operation keeps it, and the `joinGame` finding |
| `game_laws.dfy` | `GameLaws` | laws relating several operations: idempotence, refusal of repeats, seat stability |
| `cleanup.dfy` | `Cleanup` | `cleanupOldGames` |
| `stats.dfy` | `Stats` | `getGameCount`, `getPlayerCount`, `getGameStats` and how operations move the counts |
| `client_scenarios.dfy` | `ClientScenarios` | the browser's lookups and `validateScenario` |
| `game_store.dfy` | `GameStore` | the browser's game store |

The registry invariant, `RegistryInvariants.Inv`, has two parts:

- every stored session sits under its own code, which is a well-formed code, and is `Sessions.Valid`;
- every mapped socket points to a stored session that seats it.

`Sessions.Valid` requires all of the following:

- between one player and `maxPlayers` players;
- distinct player ids and distinct names;
- exactly the player whose id is `hostId` carries the host flag;
- no character held by two players, and only scenario characters held;
- at most one accusation per player;
- revealed clues duplicate-free and drawn from the scenario's clues.

## Model

| member | source | states |
|---|---|---|
| Types.FindCharacter | src/services/scenarioService.ts:52 | the lookup finds nothing exactly when no character has the id, and otherwise returns the first listed character with that id |
| Types.FindClue | src/services/scenarioService.ts:59 | the lookup finds nothing exactly when no clue has the id, and otherwise returns the first listed clue with that id |
| Codes.AlphabetLayout | server/src/services/gameManager.ts:353 | the code alphabet is the 26 capital letters followed by the 10 digits |
| Codes.AlphabetIsCodeChars | server/src/services/gameManager.ts:352-359 | a character can be drawn exactly when it matches `[A-Z0-9]` |
| Codes.GenerateGameCode | server/src/services/gameManager.ts:352-359 | six draws in [0, 36) always give a code of six characters from `A–Z0–9` |
| Codes.RollsRoundTrip | server/src/services/gameManager.ts:352-359 | the draws can be read back from the code, so distinct draws give distinct codes |
| Codes.CodesRoundTrip | server/src/services/gameManager.ts:352-359 | every well-formed code is produced by some draws |
| Codes.FirstFreeCode | server/src/services/gameManager.ts:26-29 | the retry loop ends with a well-formed code that is not yet a key, and ends exactly when some attempt is free |
| Codes.FirstFreeCodeIsFirst | server/src/services/gameManager.ts:26-29 | the chosen code is that of the first non-colliding attempt; every earlier attempt collided |
| Codes.ToUpperIdempotent | server/src/services/gameManager.ts:68 | upper-casing twice is upper-casing once |
| Codes.ValidCodeIsUpper | server/src/services/gameManager.ts:68 | generated codes are unchanged by upper-casing, so an exact code finds its session |
| Codes.ToUpperFixedPoint | server/src/services/gameManager.ts:68 | upper-casing leaves a string alone exactly when it holds no lower-case letter |
| Shuffle.ShuffleArray | server/src/services/gameManager.ts:343-350 | the shuffle returns a permutation of its input: same length, same multiset |
| Shuffle.ShuffleKeepsElements | server/src/services/gameManager.ts:343-350 | an element is in the shuffled copy exactly when it is in the input |
| Shuffle.ShuffleKeepsDistinct | server/src/services/gameManager.ts:343-350 | shuffling a duplicate-free sequence gives a duplicate-free sequence |
| Sessions.FindBySocket | server/src/services/gameManager.ts:320-325 | the lookup returns the first player on the socket, or nothing when no player uses it |
| Sessions.FindById | server/src/services/gameManager.ts:176-179 | the lookup returns the position of a player with the id, or nothing when none has it |
| Sessions.ExactlyOneHost | server/src/services/gameManager.ts:38-54 | a valid session has exactly one host |
| Sessions.Available | server/src/services/gameManager.ts:328-330 | the free characters are exactly the scenario characters whose id no player holds |
| Sessions.DealShape | server/src/services/gameManager.ts:333-340 | dealing leaves assigned players untouched and gives the k-th unassigned player the k-th pooled character while the pool lasts; nothing but characters changes |
| Sessions.DealNoCharacterHeldTwice | server/src/services/gameManager.ts:333-340 | dealing distinct, unclaimed characters never gives one character to two players |
| Sessions.DealUnassignedCount | server/src/services/gameManager.ts:333-340 | after dealing, exactly the surplus of unassigned players beyond the pool stays unassigned |
| Sessions.AutoAssignKeepsRoster | server/src/services/gameManager.ts:327-341 | auto-assignment changes only characters, and never an existing assignment |
| Sessions.PoolIsFree | server/src/services/gameManager.ts:328-332 | the shuffled pool holds distinct, unclaimed scenario characters, as many as are free |
| Sessions.AutoAssignNoCharacterHeldTwice | server/src/services/gameManager.ts:327-341 | after auto-assignment no character is held twice and all are scenario characters |
| Sessions.AutoAssignLeavesSurplus | server/src/services/gameManager.ts:327-341 | a player stays unassigned only when the free characters run out, and then exactly the surplus does |
| Sessions.AutoAssignSeatsEveryone | server/src/services/gameManager.ts:327-341 | when the scenario has a character per seat, every player is assigned |
| ServerScenarios.Lookup | server/src/services/scenarioService.ts:15 | the id lookup finds nothing exactly for an unknown id, and otherwise a listed scenario with that id |
| ServerScenarios.GetAllScenarios | server/src/services/scenarioService.ts:18-20 | every scenario the id lookup can find is listed, and every listed scenario carries a loaded id; `ServerScenarios.LookupFindsListed` gives the converse |
| ServerScenarios.GetScenario | server/src/services/scenarioService.ts:10-16 | with no id (or an empty one) the first loaded scenario, or nothing if none is loaded; otherwise exactly the scenario with that id, or nothing, with no fallback |
| ServerScenarios.LookupFindsListed | server/src/services/scenarioService.ts:10-20 | every listed scenario is found under its id, and everything found is listed |
| ServerScenarios.MissingHeiressShape | server/src/services/scenarioService.ts:29-192 | the built-in scenario has 6 characters and 6 clues with distinct ids, minPlayers 4 and maxPlayers 6, and no more seats than characters |
| ServerScenarios.DefaultCatalogLookup | server/src/services/scenarioService.ts:10-26 | the default catalog yields the built-in scenario for no id and for its own id, and nothing for any other id |
| GameManager.CreateGame | server/src/services/gameManager.ts:24-65 | an unknown scenario fails with nothing stored, and a known one always succeeds. Then a fresh, well-formed code is stored: a lobby session whose only player is the host, whose id is `hostId`. The caller's socket is mapped to it |
| GameManager.JoinGame | server/src/services/gameManager.ts:67-101 | the code is looked up upper-cased, and the checks run in order: not found, already started, full, name taken. A join passing all four checks succeeds: it appends one non-host player and maps the socket to the code as typed |
| GameManager.JoinGameNormalized | server/src/services/gameManager.ts:67-101 | the corrected join: the same checks and roster change as `JoinGame`, but the socket is mapped to the key the session is stored under |
| GameManager.ResolveCaller | server/src/services/gameManager.ts:306-326 | an unmapped socket is not in a game, a dangling code is not found, and a session without the socket does not seat the caller; otherwise it returns the caller's seat |
| GameManager.LeaveGame | server/src/services/gameManager.ts:103-142 | the caller's player and mapping are removed and nothing else. A departing host hands over to the earliest-joined remaining player; an emptied session is deleted and nothing returned |
| GameManager.HandleDisconnect | server/src/services/gameManager.ts:286-304 | only the caller's connected flag changes; seat, host and character stay, and so does the mapping |
| GameManager.StartGame | server/src/services/gameManager.ts:144-167 | fails for a non-host, then for too few players, then outside the lobby, without change. A host starting a lobby with enough players succeeds: characters are auto-assigned and the phase becomes introduction |
| GameManager.AssignCharacter | server/src/services/gameManager.ts:168-194 | host only; the target player and character must exist and the character must be unheld, and a call passing these checks succeeds. Only the target's character changes, possibly replacing an earlier one |
| GameManager.ChangePhase | server/src/services/gameManager.ts:196-206 | host only; only the phase changes, to any phase |
| GameManager.RevealSolution | server/src/services/gameManager.ts:274-284 | exactly a host phase change to the reveal phase |
| GameManager.ReleaseClue | server/src/services/gameManager.ts:208-227 | host only; an unknown clue fails, and a host releasing a listed clue succeeds. A clue already revealed changes nothing; otherwise its id is appended once |
| GameManager.SendMessage | server/src/services/gameManager.ts:229-245 | one message signed with the caller's id and name is appended, with no other change |
| GameManager.SubmitAccusation | server/src/services/gameManager.ts:247-272 | fails outside the accusation phase, then for a player who already accused; a first accusation in the accusation phase succeeds and appends exactly one accusation by the caller |
| RegistryInvariants.MappedCallerResolves | server/src/services/gameManager.ts:306-326 | in a consistent registry the caller lookup succeeds exactly for mapped sockets |
| RegistryInvariants.ChangePhaseKeepsInv | server/src/services/gameManager.ts:196-206 | a phase change keeps the registry consistent |
| RegistryInvariants.RevealSolutionKeepsInv | server/src/services/gameManager.ts:274-284 | revealing the solution keeps the registry consistent |
| RegistryInvariants.ReleaseClueKeepsInv | server/src/services/gameManager.ts:208-227 | releasing a clue keeps the revealed clues a duplicate-free subset of the scenario's, and the registry consistent |
| RegistryInvariants.SendMessageKeepsInv | server/src/services/gameManager.ts:229-245 | sending a message keeps the registry consistent |
| RegistryInvariants.SubmitAccusationKeepsInv | server/src/services/gameManager.ts:247-272 | accusing keeps at most one accusation per player, and the registry consistent |
| RegistryInvariants.HandleDisconnectKeepsInv | server/src/services/gameManager.ts:286-304 | a disconnect keeps the registry consistent |
| RegistryInvariants.SeatCharacterKeepsValid | server/src/services/gameManager.ts:186-192 | giving a player an unheld scenario character keeps the session valid, so no character is held twice |
| RegistryInvariants.AssignCharacterKeepsInv | server/src/services/gameManager.ts:168-194 | character assignment keeps the registry consistent |
| RegistryInvariants.StartedSessionValid | server/src/services/gameManager.ts:160-164 | starting keeps a session valid and every player seated |
| RegistryInvariants.StartGameKeepsInv | server/src/services/gameManager.ts:144-167 | starting keeps the registry consistent |
| RegistryInvariants.FreshSessionValid | server/src/services/gameManager.ts:36-62 | a new session holding only its host is valid |
| RegistryInvariants.CreateGameKeepsInv | server/src/services/gameManager.ts:24-65 | creating a game keeps the registry consistent |
| RegistryInvariants.AppendGuestKeepsValid | server/src/services/gameManager.ts:87-97 | appending a fresh guest under a unique name below capacity keeps the session valid and seats the guest |
| RegistryInvariants.JoinGameNormalizedKeepsInv | server/src/services/gameManager.ts:67-101 | the corrected join keeps the registry consistent, mappings included |
| RegistryInvariants.JoinGameKeepsGamesValid | server/src/services/gameManager.ts:67-101 | the join as written keeps every session valid |
| RegistryInvariants.StoredCodesAreUpper | server/src/services/gameManager.ts:352-359 | every stored code is unchanged by upper-casing |
| RegistryInvariants.JoinLowercaseStrandsPlayer | server/src/services/gameManager.ts:68-98 | a successful join with a lower-case code leaves a mapping to no stored session. Every later call from that socket fails with game-not-found, and leaving changes nothing |
| RegistryInvariants.HostLeavePromotes | server/src/services/gameManager.ts:122-131 | when the host leaves, the earliest-joined remaining player becomes the only host and `hostId` |
| RegistryInvariants.DepartureKeepsValid | server/src/services/gameManager.ts:103-142 | the session a player leaves stays valid and seats every other socket |
| RegistryInvariants.LeaveGameKeepsInv | server/src/services/gameManager.ts:103-142 | leaving keeps the registry consistent |
| RegistryInvariants.JoinThenLeaveRestores | server/src/services/gameManager.ts:67-142 | a corrected join followed by leaving, from a socket never seen, restores the registry exactly |
| GameLaws.ResolveAfterRewrite | server/src/services/gameManager.ts:306-326 | rewriting a session without moving a socket resolves every caller as before |
| GameLaws.ReleaseClueIdempotent | server/src/services/gameManager.ts:208-227 | releasing a clue twice is releasing it once |
| GameLaws.ReleasedClueListedOnce | server/src/services/gameManager.ts:208-227 | a released clue is revealed and listed exactly once |
| GameLaws.SecondAccusationRefused | server/src/services/gameManager.ts:257-259 | after a successful accusation any further accusation by the same player is refused |
| GameLaws.DisconnectKeepsSeat | server/src/services/gameManager.ts:286-304 | after a disconnect the socket still resolves to the same seat, and a second disconnect changes nothing |
| GameLaws.StartOnlyOnce | server/src/services/gameManager.ts:152-154 | a started session refuses a second start |
| GameLaws.AssignedCharacterTaken | server/src/services/gameManager.ts:186-190 | once assigned, a character cannot be assigned to anyone again |
| Cleanup.CleanupOldGames | server/src/services/gameManager.ts:368-389 | exactly the sessions over 2 h old, or finished and over 30 min old (strictly), are removed, with every socket mapping of their players; everything else is untouched |
| Cleanup.CleanupIdempotent | server/src/services/gameManager.ts:368-389 | a second sweep at the same time removes nothing more |
| Cleanup.CleanupMonotone | server/src/services/gameManager.ts:368-389 | a later sweep removes at least what an earlier one would have |
| Cleanup.YoungSessionsSurvive | server/src/services/gameManager.ts:373-377 | no session younger than 30 minutes is ever swept |
| Cleanup.CleanupKeepsInv | server/src/services/gameManager.ts:368-389 | the sweep keeps the registry consistent, and every socket of a swept session is afterwards not in a game |
| Stats.GetGameStats | server/src/services/gameManager.ts:404-416 | the totals are the session and player counts; a phase is listed exactly when some session is in it, with the number of such sessions |
| Stats.TallyIsCount | server/src/services/gameManager.ts:404-416 | the tally for any phase, listed or not, is the number of sessions in it |
| Stats.PhaseCountsAddUp | server/src/services/gameManager.ts:404-416 | the per-phase counts add up to the total number of sessions |
| Stats.CreateGameCounts | server/src/services/gameManager.ts:24-65 | creating a game adds one session and one player |
| Stats.JoinGameCounts | server/src/services/gameManager.ts:67-101 | joining adds one player and no session |
| Stats.LeaveGameCounts | server/src/services/gameManager.ts:103-142 | leaving removes one player, and the session too when it was the last player |
| Stats.CleanupGameCount | server/src/services/gameManager.ts:368-394 | the sweep removes exactly the expired sessions from the count |
| Stats.CleanupPlayerCount | server/src/services/gameManager.ts:368-402 | the sweep never adds a player |
| ClientScenarios.GetCharacterById | src/services/scenarioService.ts:48-53 | nothing for an unknown scenario; otherwise nothing exactly when no character has the id, else the first listed character with that id |
| ClientScenarios.GetClueById | src/services/scenarioService.ts:55-60 | nothing for an unknown scenario; otherwise nothing exactly when no clue has the id, else the first listed clue with that id |
| ClientScenarios.CharacterLookupFindsListed | src/services/scenarioService.ts:48-53 | a listed character is found again under its scenario's id and its own id |
| ClientScenarios.ClueLookupFindsListed | src/services/scenarioService.ts:55-60 | a listed clue is found again under its scenario's id and its own id |
| ClientScenarios.WithCategory | src/services/scenarioService.ts:66 | the filter keeps exactly the clues of the category, each as often as it occurs |
| ClientScenarios.WithCategoryAppend | src/services/scenarioService.ts:66 | the filter keeps the clues' order: it distributes over concatenation |
| ClientScenarios.GetCluesByCategory | src/services/scenarioService.ts:62-67 | empty for an unknown scenario; otherwise the category filter of the scenario's clues, keeping multiplicity and order |
| ClientScenarios.SortByKey | src/services/scenarioService.ts:73-75 | the sort returns a permutation of its input in ascending key order |
| ClientScenarios.SortByKeyStable | src/services/scenarioService.ts:73-75 | the sort is stable: the clues with one key keep their relative order |
| ClientScenarios.GetCluesByRevealOrder | src/services/scenarioService.ts:69-76 | empty for an unknown scenario; otherwise exactly the clues with a reveal order, each once, sorted ascending by it |
| ClientScenarios.RevealOrderStable | src/services/scenarioService.ts:69-76 | clues with equal reveal order appear in scenario order |
| ClientScenarios.DistinctIffNoDuplicates | src/services/scenarioService.ts:129-132 | the length-versus-set-size test detects exactly the lists with a repeated id |
| ClientScenarios.Run | src/services/scenarioService.ts:82-143 | running the checks reports exactly the failing ones, in check order |
| ClientScenarios.ValidateScenario | src/services/scenarioService.ts:78-149 | valid exactly when the error list is empty; the list holds exactly the failing checks, in order, each once |
| ClientScenarios.ValidIffWellFormed | src/services/scenarioService.ts:78-149 | the validator accepts exactly the scenarios that are well formed, a definition stated independently of the checks |
| ClientScenarios.ErrorsInCheckOrder | src/services/scenarioService.ts:82-143 | messages come in the order of the checks, each at most once |
| ClientScenarios.ReportsMissingFields | src/services/scenarioService.ts:85-87 | a missing id, title or description is reported, and only then |
| ClientScenarios.ReportsCharacterCount | src/services/scenarioService.ts:90-106 | too few characters (or none) and too many characters are each reported exactly when they occur |
| ClientScenarios.ReportsClueCount | src/services/scenarioService.ts:109-111 | fewer than three clues (or none) are reported, and only then |
| ClientScenarios.ReportsMissingSolution | src/services/scenarioService.ts:114-115 | a missing solution is reported, and only then |
| ClientScenarios.ReportsSolutionParts | src/services/scenarioService.ts:116-125 | an empty murderer, motive, method or explanation is reported exactly when a solution is present with that part empty |
| ClientScenarios.ReportsDuplicates | src/services/scenarioService.ts:127-143 | repeated character ids and repeated clue ids are each reported exactly when the list is present and repeats an id |
| ClientScenarios.MissingHeiressValidates | src/services/scenarioService.ts:78-149 | the built-in scenario passes the validator |
| GameStore.Apply | src/stores/gameStore.ts:90 | a field the patch sets takes the patch's value, and every field it does not set keeps the player's |
| GameStore.ApplyLaws | src/stores/gameStore.ts:90 | the empty patch changes nothing, and a patch applied twice acts once |
| GameStore.UpdateMatching | src/stores/gameStore.ts:89-91 | every player with the id is patched; the others and the order are unchanged |
| GameStore.WithoutId | src/stores/gameStore.ts:120 | the filter keeps exactly the players without the id, each as often as it occurs |
| GameStore.UpdatePlayer | src/stores/gameStore.ts:85-99 | a no-op without a session; otherwise only the matching players change, order kept, rest of the store untouched |
| GameStore.AddPlayer | src/stores/gameStore.ts:101-111 | a no-op without a session; otherwise the player is appended at the end and nothing else changes |
| GameStore.RemovePlayer | src/stores/gameStore.ts:113-123 | a no-op without a session; otherwise exactly the players with the id are dropped, the rest keeping multiplicity and order |
| GameStore.AddChatMessage | src/stores/gameStore.ts:125-135 | a no-op without a session; otherwise the message is appended to the list, a missing list counting as empty |
| GameStore.AddAccusation | src/stores/gameStore.ts:137-147 | a no-op without a session; otherwise the accusation is appended, a missing list counting as empty |
| GameStore.RevealClue | src/stores/gameStore.ts:149-162 | a no-op without a session or for an id already revealed; otherwise the id is appended |
| GameStore.ResetGame | src/stores/gameStore.ts:48-56 | reset yields the initial state: no session or player, disconnected, not host, not loading, no error, lobby |
| GameStore.NoSessionIgnoresActions | src/stores/gameStore.ts:85-164 | without a session every run of actions leaves the store unchanged; after reset every action is ignored |
| GameStore.ActionsOnlyTouchSession | src/stores/gameStore.ts:85-162 | no action changes anything but the current session, nor whether there is one |
| GameStore.WithoutIdKeepsSurvivors | src/stores/gameStore.ts:120 | a roster in which nobody has the id passes the filter unchanged |
| GameStore.RemovePlayerUndoesAddPlayer | src/stores/gameStore.ts:101-123 | removing a freshly added player's id restores the store |
| GameStore.WithoutIdAppend | src/stores/gameStore.ts:120 | removal keeps the remaining players in order: it distributes over concatenation |
| GameStore.RemovePlayerIdempotent | src/stores/gameStore.ts:113-123 | removing twice is removing once |
| GameStore.UpdatePlayerLaws | src/stores/gameStore.ts:85-99 | the empty patch changes nothing; a patch that keeps the id acts once however often applied |
| GameStore.RevealClueLaws | src/stores/gameStore.ts:149-162 | revealing is idempotent, never introduces a duplicate id, and leaves the clue revealed |
| GameStore.AppendLaws | src/stores/gameStore.ts:125-147 | chat messages and accusations grow by exactly the new entry at the end, the old ones kept |

## Left out

- Socket transport, room broadcasts, HTTP routes and logging are not modelled: they are I/O.
- The `setInterval` that schedules the sweep is not modelled. `Cleanup.CleanupOldGames` is the sweep, with the time passed in.
- uuids, `Date` and `Math.random` are not modelled; they are parameters.
  - `GameManager.JoinGame`, `JoinGameNormalized` and `CreateGame` take the new player id and `now`.
  - The callers assume the id is fresh (`FreshPlayerId`), which uuid v4 gives in practice.
- GameManager.CreateGame: the retry loop in the code generator is modelled as a finite list of attempts, and the caller must supply one that is free (`SomeAttemptIsFree`). With every attempt taken, the source would loop forever.
- The `revealedAt` timestamp that `releaseClue` writes on the shared scenario object is not modelled. Only the revealed-id list is.
- Codes.ToUpper: upper-cases ASCII letters only. JavaScript's `toUpperCase` also maps other Unicode characters, and a few of them land on the code alphabet: `ı` (U+0131) becomes `I`, `ſ` (U+017F) becomes `S`, and `ß` becomes `SS`. So the source's `joinGame("ıABCDE", …)` finds session `IABCDE`, where `GameManager.JoinGame` answers `GameNotFound`. Only such non-ASCII join codes are affected; full Unicode case mapping is out of scope.
- Narrative scenario fields (biographies, secrets, clue texts, images) are not modelled: no operation inspects them. The solution's `method` field is called `means`, a Dafny keyword being in the way.
- The browser's `getScenarioPreview`, `getAllScenarioPreviews` and the store's plain setters (`setCurrentGame`, `setLoading`, …) are not modelled. The previews only drop the solution field (and `getScenarioPreview` returns a name whose definition is commented out); each setter overwrites one field.
- The browser's `getScenario` is the same code as the server's, so it is modelled once, by `ServerScenarios.GetScenario`.
- The browser's bundled scenario data (`missingHeiress.json`) is not part of this model. The client catalog is a parameter.
- ClientScenarios.ValidateScenario: `minPlayers` and `maxPlayers` are assumed present. When one is missing, the source's length comparison with it is false. A present character list then gets no error from that bound. An absent character list is still reported as too few characters, because the first check also fires on `!scenario.characters`.
- Types.Clue: `revealOrder` is an integer. The source's field is an untyped JavaScript number, so a fractional reveal order is not modelled.
- ClientScenarios.GetCluesByRevealOrder: a `revealOrder` that is `null` rather than absent is not modelled. The source would keep it in the filter and sort it as 0.
- GameStore.UpdatePlayer: a patch field that is present but `undefined` is treated as absent for the required fields (`id`, `name`, `isHost`, `isConnected`). For `character`, present-but-undefined clears it.

## Findings

| source | as written | input that shows it | evidently intended | confidence | as-written member | corrected member |
|---|---|---|---|---|---|---|
| server/src/services/gameManager.ts:68-98 | `joinGame` looks the session up under the upper-cased code, but records the code as typed in `playerToGame` | joining session `ABC123` with the code `abc123` | the socket is mapped to the key the session is stored under, so later calls from it resolve | medium, not executed; the browser's join form upper-cases codes before sending, so the path needs a client that does not | GameManager.JoinGame, RegistryInvariants.JoinLowercaseStrandsPlayer | GameManager.JoinGameNormalized, RegistryInvariants.JoinGameNormalizedKeepsInv |
