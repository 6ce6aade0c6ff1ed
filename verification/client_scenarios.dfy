/** The browser's `ScenarioService`: the scenario validator and the id, category and
    reveal-order lookups. Its `getScenario` is the same code as the server's and is
    modelled once, by `ServerScenarios.GetScenario`; the client's catalog is the
    scenario data bundled with the app, passed in as a `Catalog`. */
module ClientScenarios {
  import opened Wrappers
  import opened Types
  import opened ServerScenarios

  // ----- Lookups -----

  /** `getCharacterById(scenarioId, characterId)`: the first character with that id in
      the selected scenario, or nothing when the scenario is not found. */
  function GetCharacterById(c: Catalog, scenarioId: string, characterId: string): (r: Option<Character>)
    ensures GetScenario(c, Some(scenarioId)).None? ==> r.None?
    ensures GetScenario(c, Some(scenarioId)).Some? ==>
              var chars := GetScenario(c, Some(scenarioId)).value.characters;
              && (r.None? <==> characterId !in CharacterIds(chars))
              && (r.Some? ==> r.value in chars && r.value.id == characterId)
              && (r.Some? ==> exists i :: 0 <= i < |chars| && chars[i] == r.value && characterId !in CharacterIds(chars[..i]))
  {
    match GetScenario(c, Some(scenarioId))
    case None => None
    case Some(s) => FindCharacter(s.characters, characterId)
  }

  /** `getClueById(scenarioId, clueId)`: the first clue with that id in the selected
      scenario, or nothing when the scenario is not found. */
  function GetClueById(c: Catalog, scenarioId: string, clueId: string): (r: Option<Clue>)
    ensures GetScenario(c, Some(scenarioId)).None? ==> r.None?
    ensures GetScenario(c, Some(scenarioId)).Some? ==>
              var clues := GetScenario(c, Some(scenarioId)).value.clues;
              && (r.None? <==> clueId !in ClueIds(clues))
              && (r.Some? ==> r.value in clues && r.value.id == clueId)
              && (r.Some? ==> exists i :: 0 <= i < |clues| && clues[i] == r.value && clueId !in ClueIds(clues[..i]))
  {
    match GetScenario(c, Some(scenarioId))
    case None => None
    case Some(s) => FindClue(s.clues, clueId)
  }

  /** With distinct ids, a character is found under its own id. */
  lemma FindListedCharacter(cs: seq<Character>, ch: Character)
    requires Distinct(CharacterIds(cs)) && ch in cs
    ensures FindCharacter(cs, ch.id) == Some(ch)
  {
    var r := FindCharacter(cs, ch.id);
    var i :| 0 <= i < |cs| && cs[i] == ch;
    assert CharacterIds(cs)[i] == ch.id;
    var j :| 0 <= j < |cs| && cs[j] == r.value;
    assert CharacterIds(cs)[j] == ch.id;
    assert i == j;
  }

  lemma FindListedClue(cs: seq<Clue>, cl: Clue)
    requires Distinct(ClueIds(cs)) && cl in cs
    ensures FindClue(cs, cl.id) == Some(cl)
  {
    var r := FindClue(cs, cl.id);
    var i :| 0 <= i < |cs| && cs[i] == cl;
    assert ClueIds(cs)[i] == cl.id;
    var j :| 0 <= j < |cs| && cs[j] == r.value;
    assert ClueIds(cs)[j] == cl.id;
    assert i == j;
  }

  /** A listed character is found again under its scenario's id and its own id. */
  lemma CharacterLookupFindsListed(c: Catalog, s: Scenario, ch: Character)
    requires WellKeyed(c) && s in GetAllScenarios(c) && s.id != ""
    requires Distinct(CharacterIds(s.characters)) && ch in s.characters
    ensures GetCharacterById(c, s.id, ch.id) == Some(ch)
  {
    LookupFindsListed(c);
    FindListedCharacter(s.characters, ch);
  }

  /** A listed clue is found again under its scenario's id and its own id. */
  lemma ClueLookupFindsListed(c: Catalog, s: Scenario, cl: Clue)
    requires WellKeyed(c) && s in GetAllScenarios(c) && s.id != ""
    requires Distinct(ClueIds(s.clues)) && cl in s.clues
    ensures GetClueById(c, s.id, cl.id) == Some(cl)
  {
    LookupFindsListed(c);
    FindListedClue(s.clues, cl);
  }

  /** `clues.filter(clue => clue.category === category)`. */
  function WithCategory(clues: seq<Clue>, category: string): (r: seq<Clue>)
    ensures forall k :: 0 <= k < |r| ==> r[k].category == category
    ensures forall cl :: cl in r <==> cl in clues && cl.category == category
    ensures forall cl :: multiset(r)[cl] == if cl.category == category then multiset(clues)[cl] else 0
  {
    if clues == [] then []
    else
      assert clues == [clues[0]] + clues[1..];
      (if clues[0].category == category then [clues[0]] else []) + WithCategory(clues[1..], category)
  }

  /** Filtering keeps the order of the clues: it distributes over concatenation. */
  lemma {:induction false} WithCategoryAppend(a: seq<Clue>, b: seq<Clue>, category: string)
    ensures WithCategory(a + b, category) == WithCategory(a, category) + WithCategory(b, category)
  {
    if a == [] {
      assert a + b == b;
    } else {
      assert (a + b)[0] == a[0];
      assert (a + b)[1..] == a[1..] + b;
      WithCategoryAppend(a[1..], b, category);
    }
  }

  /** `getCluesByCategory(scenarioId, category)`: empty for an unknown scenario. */
  function GetCluesByCategory(c: Catalog, scenarioId: string, category: string): (r: seq<Clue>)
    ensures GetScenario(c, Some(scenarioId)).None? ==> r == []
    ensures GetScenario(c, Some(scenarioId)).Some? ==>
              var clues := GetScenario(c, Some(scenarioId)).value.clues;
              && r == WithCategory(clues, category)
              && (forall cl :: cl in r <==> cl in clues && cl.category == category)
              && (forall cl :: multiset(r)[cl] == if cl.category == category then multiset(clues)[cl] else 0)
  {
    match GetScenario(c, Some(scenarioId))
    case None => []
    case Some(s) => WithCategory(s.clues, category)
  }

  // ----- Clues in reveal order -----

  /** `clues.filter(clue => clue.revealOrder !== undefined)`. */
  function Ordered(clues: seq<Clue>): (r: seq<Clue>)
    ensures forall k :: 0 <= k < |r| ==> r[k].revealOrder.Some?
    ensures forall cl :: cl in r <==> cl in clues && cl.revealOrder.Some?
  {
    if clues == [] then []
    else (if clues[0].revealOrder.Some? then [clues[0]] else []) + Ordered(clues[1..])
  }

  /** The sort key `clue.revealOrder || 0`. */
  function Key(cl: Clue): int {
    if cl.revealOrder.Some? then cl.revealOrder.value else 0
  }

  predicate SortedByKey(s: seq<Clue>) {
    forall i, j :: 0 <= i < j < |s| ==> Key(s[i]) <= Key(s[j])
  }

  /** The clues with one key, in their order. */
  function WithKey(s: seq<Clue>, k: int): seq<Clue> {
    if s == [] then [] else (if Key(s[0]) == k then [s[0]] else []) + WithKey(s[1..], k)
  }

  /** Places `x` after every clue whose key is not greater than its own. */
  function Insert(x: Clue, t: seq<Clue>): (r: seq<Clue>)
    ensures multiset(r) == multiset(t) + multiset{x}
  {
    if t == [] then [x]
    else if Key(x) < Key(t[0]) then [x] + t
    else
      assert t == [t[0]] + t[1..];
      [t[0]] + Insert(x, t[1..])
  }

  /** Inserting keeps a lower bound shared by `x` and `t`. */
  lemma {:induction false} InsertBound(x: Clue, t: seq<Clue>, b: int)
    requires b <= Key(x) && forall i :: 0 <= i < |t| ==> b <= Key(t[i])
    ensures forall i :: 0 <= i < |Insert(x, t)| ==> b <= Key(Insert(x, t)[i])
  {
    if t != [] && Key(x) >= Key(t[0]) {
      InsertBound(x, t[1..], b);
    }
  }

  lemma {:induction false} InsertSorted(x: Clue, t: seq<Clue>)
    requires SortedByKey(t)
    ensures SortedByKey(Insert(x, t))
  {
    if t != [] && Key(x) >= Key(t[0]) {
      InsertSorted(x, t[1..]);
      InsertBound(x, t[1..], Key(t[0]));
    }
  }

  /** A stable ascending sort by key (`Array.prototype.sort` is stable). */
  function SortByKey(s: seq<Clue>): (r: seq<Clue>)
    ensures SortedByKey(r)
    ensures multiset(r) == multiset(s)
  {
    if s == [] then []
    else
      assert s == s[..|s| - 1] + [s[|s| - 1]];
      InsertSorted(s[|s| - 1], SortByKey(s[..|s| - 1]));
      Insert(s[|s| - 1], SortByKey(s[..|s| - 1]))
  }

  lemma {:induction false} WithKeyAllAbove(t: seq<Clue>, k: int)
    requires forall i :: 0 <= i < |t| ==> Key(t[i]) > k
    ensures WithKey(t, k) == []
  {
    if t != [] {
      WithKeyAllAbove(t[1..], k);
    }
  }

  /** One step of `WithKey`. */
  lemma WithKeyCons(y: Clue, t: seq<Clue>, k: int)
    ensures WithKey([y] + t, k) == (if Key(y) == k then [y] else []) + WithKey(t, k)
  {
    assert ([y] + t)[0] == y && ([y] + t)[1..] == t;
  }

  lemma {:induction false} WithKeyInsert(x: Clue, t: seq<Clue>, k: int)
    requires SortedByKey(t)
    ensures WithKey(Insert(x, t), k) == WithKey(t, k) + (if Key(x) == k then [x] else [])
  {
    if t == [] {
      assert Insert(x, t) == [x] + [];
      WithKeyCons(x, [], k);
    } else if Key(x) < Key(t[0]) {
      WithKeyCons(x, t, k);
      if Key(x) == k {
        WithKeyAllAbove(t, k);
      }
    } else {
      assert SortedByKey(t[1..]);
      WithKeyInsert(x, t[1..], k);
      WithKeyInsertStep(x, t, k);
    }
  }

  lemma InsertPastHead(x: Clue, t: seq<Clue>)
    requires t != [] && Key(x) >= Key(t[0])
    ensures Insert(x, t) == [t[0]] + Insert(x, t[1..])
  {
  }

  /** The step of `WithKeyInsert` where `x` goes past the head of `t`. */
  lemma WithKeyInsertStep(x: Clue, t: seq<Clue>, k: int)
    requires t != [] && Key(x) >= Key(t[0])
    requires WithKey(Insert(x, t[1..]), k) == WithKey(t[1..], k) + (if Key(x) == k then [x] else [])
    ensures WithKey(Insert(x, t), k) == WithKey(t, k) + (if Key(x) == k then [x] else [])
  {
    var t' := t[1..];
    var head := if Key(t[0]) == k then [t[0]] else [];
    var tail := if Key(x) == k then [x] else [];
    var it := Insert(x, t');
    assert WithKey(t, k) == head + WithKey(t', k);
    assert WithKey(Insert(x, t), k) == head + WithKey(it, k) by {
      InsertPastHead(x, t);
      WithKeyCons(t[0], it, k);
    }
    ConcatAssoc(head, WithKey(t', k), tail);
  }

  lemma ConcatAssoc<T>(a: seq<T>, b: seq<T>, c: seq<T>)
    ensures a + (b + c) == (a + b) + c
  {
  }

  lemma {:induction false} WithKeyAppend(a: seq<Clue>, b: seq<Clue>, k: int)
    ensures WithKey(a + b, k) == WithKey(a, k) + WithKey(b, k)
  {
    if a == [] {
      assert a + b == b;
    } else {
      assert (a + b)[0] == a[0];
      assert (a + b)[1..] == a[1..] + b;
      WithKeyAppend(a[1..], b, k);
    }
  }

  lemma SortByKeyUnfold(s: seq<Clue>)
    requires s != []
    ensures SortByKey(s) == Insert(s[|s| - 1], SortByKey(s[..|s| - 1]))
  {
  }

  lemma WithKeySnoc(init: seq<Clue>, x: Clue, k: int)
    ensures WithKey(init + [x], k) == WithKey(init, k) + (if Key(x) == k then [x] else [])
  {
    WithKeyAppend(init, [x], k);
    assert [x] == [x] + [];
    WithKeyCons(x, [], k);
  }

  lemma WithKeyLast(s: seq<Clue>, k: int)
    requires s != []
    ensures WithKey(s, k) == WithKey(s[..|s| - 1], k) + (if Key(s[|s| - 1]) == k then [s[|s| - 1]] else [])
  {
    assert s == s[..|s| - 1] + [s[|s| - 1]];
    WithKeySnoc(s[..|s| - 1], s[|s| - 1], k);
  }

  /** Stability: for every key, the clues carrying it keep their relative order. */
  lemma {:induction false} SortByKeyStable(s: seq<Clue>, k: int)
    ensures WithKey(SortByKey(s), k) == WithKey(s, k)
  {
    if s != [] {
      var init, x := s[..|s| - 1], s[|s| - 1];
      SortByKeyStable(init, k);
      SortByKeyUnfold(s);
      WithKeyInsert(x, SortByKey(init), k);
      WithKeyLast(s, k);
    }
  }

  /** `getCluesByRevealOrder(scenarioId)`: the clues that have a reveal order, in
      ascending order of it, ties in scenario order; empty for an unknown scenario. */
  function GetCluesByRevealOrder(c: Catalog, scenarioId: string): (r: seq<Clue>)
    ensures GetScenario(c, Some(scenarioId)).None? ==> r == []
    ensures GetScenario(c, Some(scenarioId)).Some? ==>
              var clues := GetScenario(c, Some(scenarioId)).value.clues;
              && (forall k :: 0 <= k < |r| ==> r[k].revealOrder.Some?)
              && (forall i, j :: 0 <= i < j < |r| ==> r[i].revealOrder.value <= r[j].revealOrder.value)
              && multiset(r) == multiset(Ordered(clues))
  {
    match GetScenario(c, Some(scenarioId))
    case None => []
    case Some(s) =>
      var r := SortByKey(Ordered(s.clues));
      assert forall k :: 0 <= k < |r| ==> r[k] in multiset(Ordered(s.clues));
      r
  }

  /** Ties keep scenario order: for every reveal order the result lists the clues with
      it exactly as the scenario does. */
  lemma RevealOrderStable(c: Catalog, scenarioId: string, k: int)
    requires GetScenario(c, Some(scenarioId)).Some?
    ensures WithKey(GetCluesByRevealOrder(c, scenarioId), k) == WithKey(Ordered(GetScenario(c, Some(scenarioId)).value.clues), k)
  {
    SortByKeyStable(Ordered(GetScenario(c, Some(scenarioId)).value.clues), k);
  }

  // ----- Validation -----

  /** A scenario as `validateScenario` receives it: parsed data in which the character
      list, the clue list and the solution may be missing. A missing string and an
      empty one are both falsy, so strings are plain; an empty list is truthy and is
      not the same as a missing one. */
  datatype Draft = Draft(
    id: string,
    title: string,
    description: string,
    characters: Option<seq<Character>>,
    clues: Option<seq<Clue>>,
    solution: Option<Solution>,
    minPlayers: int,
    maxPlayers: int)

  /** One constructor per message the validator can report. */
  datatype ValidationError =
    | MissingId
    | MissingTitle
    | MissingDescription
    | TooFewCharacters    // quotes `minPlayers`
    | TooManyCharacters   // quotes `maxPlayers`
    | TooFewClues
    | MissingSolution
    | MissingMurderer
    | MissingMotive
    | MissingMethod
    | MissingExplanation
    | DuplicateCharacterIds
    | DuplicateClueIds

  datatype Validation = Validation(isValid: bool, errors: seq<ValidationError>)

  const MinClues: int := 3

  /** `ids.length !== new Set(ids).size`. */
  predicate HasDuplicates<T(==)>(ids: seq<T>) {
    |ids| != |set x | x in ids|
  }

  lemma {:induction false} SetSizeBound<T>(s: seq<T>)
    ensures |set x | x in s| <= |s|
  {
    if s != [] {
      SetSizeBound(s[1..]);
      assert (set x | x in s) == {s[0]} + (set x | x in s[1..]);
    }
  }

  /** The size test detects exactly the sequences with a repeated element. */
  lemma {:induction false} DistinctIffNoDuplicates<T>(s: seq<T>)
    ensures Distinct(s) <==> !HasDuplicates(s)
  {
    if s != [] {
      var t := s[1..];
      DistinctIffNoDuplicates(t);
      SetSizeBound(t);
      assert (set x | x in s) == {s[0]} + (set x | x in t);
      assert Distinct(s) <==> Distinct(t) && s[0] !in t by {
        if s[0] in t {
          var k :| 0 <= k < |t| && t[k] == s[0];
          assert s[k + 1] == s[0];
        }
        assert forall i :: 0 <= i < |t| ==> t[i] == s[i + 1];
      }
    }
  }

  /** The condition under which the validator pushes `e`. The solution's fields are
      only inspected when a solution is present, and the uniqueness checks only when
      the list is present. */
  predicate Fails(d: Draft, e: ValidationError) {
    match e
    case MissingId => d.id == ""
    case MissingTitle => d.title == ""
    case MissingDescription => d.description == ""
    case TooFewCharacters => d.characters.None? || |d.characters.value| < d.minPlayers
    case TooManyCharacters => d.characters.Some? && |d.characters.value| > d.maxPlayers
    case TooFewClues => d.clues.None? || |d.clues.value| < MinClues
    case MissingSolution => d.solution.None?
    case MissingMurderer => d.solution.Some? && d.solution.value.murderer == ""
    case MissingMotive => d.solution.Some? && d.solution.value.motive == ""
    case MissingMethod => d.solution.Some? && d.solution.value.means == ""
    case MissingExplanation => d.solution.Some? && d.solution.value.explanation == ""
    case DuplicateCharacterIds => d.characters.Some? && HasDuplicates(CharacterIds(d.characters.value))
    case DuplicateClueIds => d.clues.Some? && HasDuplicates(ClueIds(d.clues.value))
  }

  /** The position of each check in the validator. */
  function Rank(e: ValidationError): nat {
    match e
    case MissingId => 0
    case MissingTitle => 1
    case MissingDescription => 2
    case TooFewCharacters => 3
    case TooManyCharacters => 4
    case TooFewClues => 5
    case MissingSolution => 6
    case MissingMurderer => 7
    case MissingMotive => 8
    case MissingMethod => 9
    case MissingExplanation => 10
    case DuplicateCharacterIds => 11
    case DuplicateClueIds => 12
  }

  /** A list of messages in strictly increasing check order, so each at most once. */
  predicate Ranked(es: seq<ValidationError>) {
    forall i, j :: 0 <= i < j < |es| ==> Rank(es[i]) < Rank(es[j])
  }

  /** The number of checks. */
  const NumChecks: nat := 13

  /** The check run in position `n`. */
  function CheckAt(n: nat): (e: ValidationError)
    requires n < NumChecks
    ensures Rank(e) == n
    ensures forall x :: Rank(x) == n ==> x == e
  {
    if n == 0 then MissingId
    else if n == 1 then MissingTitle
    else if n == 2 then MissingDescription
    else if n == 3 then TooFewCharacters
    else if n == 4 then TooManyCharacters
    else if n == 5 then TooFewClues
    else if n == 6 then MissingSolution
    else if n == 7 then MissingMurderer
    else if n == 8 then MissingMotive
    else if n == 9 then MissingMethod
    else if n == 10 then MissingExplanation
    else if n == 11 then DuplicateCharacterIds
    else DuplicateClueIds
  }

  /** Runs the checks from position `n` on, in order, collecting the message of each
      that fails. */
  function Run(d: Draft, n: nat): (es: seq<ValidationError>)
    requires n <= NumChecks
    ensures forall e :: e in es <==> n <= Rank(e) && Fails(d, e)
    ensures Ranked(es)
    decreases NumChecks - n
  {
    if n == NumChecks then []
    else
      var e := CheckAt(n);
      var rest := Run(d, n + 1);
      if Fails(d, e) then
        RankedCons(e, rest);
        [e] + rest
      else rest
  }

  /** A message ranked below every message of a ranked list can go in front of it. */
  lemma RankedCons(e: ValidationError, rest: seq<ValidationError>)
    requires Ranked(rest)
    requires forall x :: x in rest ==> Rank(e) < Rank(x)
    ensures Ranked([e] + rest)
  {
    var xs := [e] + rest;
    forall i, j | 0 <= i < j < |xs| ensures Rank(xs[i]) < Rank(xs[j]) {
      assert xs[j] == rest[j - 1];
      if i > 0 {
        assert xs[i] == rest[i - 1];
      }
    }
  }

  /** `validateScenario(scenario)`: every check runs, in order, and reports its own
      message; the scenario is valid exactly when none fails. */
  function ValidateScenario(d: Draft): (v: Validation)
    ensures v.isValid <==> v.errors == []
    ensures forall e :: e in v.errors <==> Fails(d, e)
    ensures Ranked(v.errors)
  {
    var errors := Run(d, 0);
    Validation(|errors| == 0, errors)
  }

  /** What a valid scenario is, stated without the checks: all three text fields set,
      between `minPlayers` and `maxPlayers` characters, at least three clues, a
      solution with every part filled in, and no repeated character or clue id. */
  predicate WellFormed(d: Draft) {
    && d.id != "" && d.title != "" && d.description != ""
    && d.characters.Some? && d.minPlayers <= |d.characters.value| <= d.maxPlayers
    && d.clues.Some? && |d.clues.value| >= MinClues
    && d.solution.Some?
    && d.solution.value.murderer != "" && d.solution.value.motive != ""
    && d.solution.value.means != "" && d.solution.value.explanation != ""
    && Distinct(CharacterIds(d.characters.value))
    && Distinct(ClueIds(d.clues.value))
  }

  /** A scenario on which some check fails is not well formed. */
  lemma FailureBreaksWellFormed(d: Draft, e: ValidationError)
    requires Fails(d, e)
    ensures !WellFormed(d)
  {
    DistinctIffNoDuplicates(CharacterIds(d.characters.GetOr([])));
    DistinctIffNoDuplicates(ClueIds(d.clues.GetOr([])));
  }

  /** The validator accepts exactly the well-formed scenarios. */
  lemma ValidIffWellFormed(d: Draft)
    ensures ValidateScenario(d).isValid <==> WellFormed(d)
  {
    var es := ValidateScenario(d).errors;
    if es != [] {
      assert es[0] in es;
      FailureBreaksWellFormed(d, es[0]);
    }
    if !WellFormed(d) {
      assert WitnessFailure(d) in es;
    }
  }

  /** A failing check for a scenario that is not well formed. */
  function WitnessFailure(d: Draft): (e: ValidationError)
    ensures !WellFormed(d) ==> Fails(d, e)
  {
    DistinctIffNoDuplicates(CharacterIds(d.characters.GetOr([])));
    DistinctIffNoDuplicates(ClueIds(d.clues.GetOr([])));
    if d.id == "" then MissingId
    else if d.title == "" then MissingTitle
    else if d.description == "" then MissingDescription
    else if d.characters.None? || |d.characters.value| < d.minPlayers then TooFewCharacters
    else if |d.characters.value| > d.maxPlayers then TooManyCharacters
    else if d.clues.None? || |d.clues.value| < MinClues then TooFewClues
    else if d.solution.None? then MissingSolution
    else if d.solution.value.murderer == "" then MissingMurderer
    else if d.solution.value.motive == "" then MissingMotive
    else if d.solution.value.means == "" then MissingMethod
    else if d.solution.value.explanation == "" then MissingExplanation
    else if !Distinct(CharacterIds(d.characters.value)) then DuplicateCharacterIds
    else DuplicateClueIds
  }

  /** The messages come in the order of the checks, each at most once. */
  lemma ErrorsInCheckOrder(d: Draft)
    ensures var es := ValidateScenario(d).errors;
            forall i, j :: 0 <= i < j < |es| ==> Rank(es[i]) < Rank(es[j])
  {
  }

  /** A missing id, title or description is reported. */
  lemma ReportsMissingFields(d: Draft)
    ensures var es := ValidateScenario(d).errors;
            && (MissingId in es <==> d.id == "")
            && (MissingTitle in es <==> d.title == "")
            && (MissingDescription in es <==> d.description == "")
  {
    var es := ValidateScenario(d).errors;
    assert MissingId in es <==> Fails(d, MissingId);
    assert MissingTitle in es <==> Fails(d, MissingTitle);
    assert MissingDescription in es <==> Fails(d, MissingDescription);
  }

  /** Too few or too many characters are reported. */
  lemma ReportsCharacterCount(d: Draft)
    ensures var es := ValidateScenario(d).errors;
            && (TooFewCharacters in es <==> d.characters.None? || |d.characters.value| < d.minPlayers)
            && (TooManyCharacters in es <==> d.characters.Some? && |d.characters.value| > d.maxPlayers)
  {
    var es := ValidateScenario(d).errors;
    assert TooFewCharacters in es <==> Fails(d, TooFewCharacters);
    assert TooManyCharacters in es <==> Fails(d, TooManyCharacters);
  }

  /** Fewer than three clues are reported. */
  lemma ReportsClueCount(d: Draft)
    ensures TooFewClues in ValidateScenario(d).errors <==> d.clues.None? || |d.clues.value| < MinClues
  {
    var es := ValidateScenario(d).errors;
    assert TooFewClues in es <==> Fails(d, TooFewClues);
  }

  /** A missing solution is reported. */
  lemma ReportsMissingSolution(d: Draft)
    ensures MissingSolution in ValidateScenario(d).errors <==> d.solution.None?
  {
    var es := ValidateScenario(d).errors;
    assert MissingSolution in es <==> Fails(d, MissingSolution);
  }

  /** An empty murderer, motive, method or explanation is reported; the parts are only
      inspected when the solution is present. */
  lemma ReportsSolutionParts(d: Draft)
    ensures var es := ValidateScenario(d).errors;
            && (MissingMurderer in es <==> d.solution.Some? && d.solution.value.murderer == "")
            && (MissingMotive in es <==> d.solution.Some? && d.solution.value.motive == "")
            && (MissingMethod in es <==> d.solution.Some? && d.solution.value.means == "")
            && (MissingExplanation in es <==> d.solution.Some? && d.solution.value.explanation == "")
  {
    ErrorListed(d, MissingMurderer);
    ErrorListed(d, MissingMotive);
    ErrorListed(d, MissingMethod);
    ErrorListed(d, MissingExplanation);
  }

  /** The validator's report, one check at a time. */
  lemma ErrorListed(d: Draft, e: ValidationError)
    ensures e in ValidateScenario(d).errors <==> Fails(d, e)
  {
  }

  /** The uniqueness checks fail exactly on a present list with a repeated id. */
  lemma DuplicateChecks(d: Draft)
    ensures Fails(d, DuplicateCharacterIds) <==> d.characters.Some? && !Distinct(CharacterIds(d.characters.value))
    ensures Fails(d, DuplicateClueIds) <==> d.clues.Some? && !Distinct(ClueIds(d.clues.value))
  {
    DuplicateCharacterCheck(d);
    DuplicateClueCheck(d);
  }

  lemma DuplicateCharacterCheck(d: Draft)
    ensures Fails(d, DuplicateCharacterIds) <==> d.characters.Some? && !Distinct(CharacterIds(d.characters.value))
  {
    if d.characters.Some? {
      DistinctIffNoDuplicates(CharacterIds(d.characters.value));
    }
  }

  lemma DuplicateClueCheck(d: Draft)
    ensures Fails(d, DuplicateClueIds) <==> d.clues.Some? && !Distinct(ClueIds(d.clues.value))
  {
    if d.clues.Some? {
      DistinctIffNoDuplicates(ClueIds(d.clues.value));
    }
  }

  /** Repeated character ids and repeated clue ids are reported. */
  lemma ReportsDuplicates(d: Draft)
    ensures var es := ValidateScenario(d).errors;
            && (DuplicateCharacterIds in es <==> d.characters.Some? && !Distinct(CharacterIds(d.characters.value)))
            && (DuplicateClueIds in es <==> d.clues.Some? && !Distinct(ClueIds(d.clues.value)))
  {
    var es := ValidateScenario(d).errors;
    DuplicateChecks(d);
    assert DuplicateCharacterIds in es <==> Fails(d, DuplicateCharacterIds);
    assert DuplicateClueIds in es <==> Fails(d, DuplicateClueIds);
  }

  /** A scenario as the validator sees it once loaded. */
  function AsDraft(s: Scenario): Draft {
    Draft(s.id, s.title, s.description, Some(s.characters), Some(s.clues), Some(s.solution),
          s.minPlayers, s.maxPlayers)
  }

  /** The built-in scenario passes the validator. */
  lemma MissingHeiressValidates()
    ensures ValidateScenario(AsDraft(MissingHeiress())).isValid
  {
    MissingHeiressShape();
    ValidIffWellFormed(AsDraft(MissingHeiress()));
  }
}
