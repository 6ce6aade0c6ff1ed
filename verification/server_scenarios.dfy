/** The server's `ScenarioService`: scenarios kept in a `Map` keyed by scenario id
    (iteration in insertion order), the default-scenario lookup, and the one built-in
    scenario, "The Case of the Missing Heiress". */
module ServerScenarios {
  import opened Wrappers
  import opened Types

  /** The loaded scenarios in insertion order. */
  datatype Catalog = Catalog(scenarios: seq<Scenario>)

  function ScenarioIds(ss: seq<Scenario>): (ids: seq<string>)
    ensures |ids| == |ss|
    ensures forall i :: 0 <= i < |ss| ==> ids[i] == ss[i].id
  {
    if ss == [] then [] else [ss[0].id] + ScenarioIds(ss[1..])
  }

  /** A `Map` holds one entry per key. */
  predicate WellKeyed(c: Catalog) {
    Distinct(ScenarioIds(c.scenarios))
  }

  /** `scenarios.get(id)`. */
  function Lookup(ss: seq<Scenario>, id: string): (r: Option<Scenario>)
    ensures r.None? <==> id !in ScenarioIds(ss)
    ensures r.Some? ==> r.value in ss && r.value.id == id
  {
    if ss == [] then None
    else if ss[0].id == id then Some(ss[0])
    else Lookup(ss[1..], id)
  }

  /** `getScenario(scenarioId?)`. A missing or empty id (both falsy) selects the first
      loaded scenario; any other id is looked up exactly, with no fallback. */
  function GetScenario(c: Catalog, scenarioId: Option<string>): (r: Option<Scenario>)
    ensures (scenarioId.None? || scenarioId.value == "") ==>
              (r.Some? <==> c.scenarios != []) && (r.Some? ==> r.value == c.scenarios[0])
    ensures scenarioId.Some? && scenarioId.value != "" ==>
              (r.Some? <==> scenarioId.value in ScenarioIds(c.scenarios)) &&
              (r.Some? ==> r.value in c.scenarios && r.value.id == scenarioId.value)
  {
    if scenarioId.None? || scenarioId.value == "" then
      if c.scenarios == [] then None else Some(c.scenarios[0])
    else Lookup(c.scenarios, scenarioId.value)
  }

  /** `getAllScenarios()`: the loaded scenarios in insertion order. Everything the
      id lookup can find is listed, and every listed scenario carries a loaded id. */
  function GetAllScenarios(c: Catalog): (r: seq<Scenario>)
    ensures forall id :: Lookup(c.scenarios, id).Some? ==> Lookup(c.scenarios, id).value in r
    ensures forall s :: s in r ==> s.id in ScenarioIds(c.scenarios)
  {
    c.scenarios
  }

  /** Listing and lookup agree: every listed scenario is found under its own id, and
      every scenario found by id is listed. */
  lemma {:induction false} LookupFindsListed(c: Catalog)
    requires WellKeyed(c)
    ensures forall s :: s in GetAllScenarios(c) && s.id != "" ==> GetScenario(c, Some(s.id)) == Some(s)
    ensures forall id :: GetScenario(c, Some(id)).Some? ==> GetScenario(c, Some(id)).value in GetAllScenarios(c)
  {
    forall s | s in c.scenarios && s.id != "" ensures GetScenario(c, Some(s.id)) == Some(s) {
      LookupUnique(c.scenarios, s);
    }
  }

  lemma {:induction false} LookupUnique(ss: seq<Scenario>, s: Scenario)
    requires Distinct(ScenarioIds(ss))
    requires s in ss
    ensures Lookup(ss, s.id) == Some(s)
  {
    if ss[0] != s {
      assert ScenarioIds(ss[1..]) == ScenarioIds(ss)[1..];
      assert s in ss[1..];
      LookupUnique(ss[1..], s);
      var k :| 0 <= k < |ss[1..]| && ss[1..][k] == s;
      assert ScenarioIds(ss)[0] != ScenarioIds(ss)[k + 1];
    }
  }

  const HeiressCharacters: seq<Character> := [
    Character("char_butler", "James the Butler"),
    Character("char_nephew", "Richard Blackwood"),
    Character("char_doctor", "Dr. Margaret Thornfield"),
    Character("char_secretary", "Miss Eleanor Hartwell"),
    Character("char_gardener", "Thomas Green"),
    Character("char_maid", "Sarah Mills")]

  const HeiressClues: seq<Clue> := [
    Clue("clue_poison_bottle", "Empty Poison Bottle", "Physical Evidence", None),
    Clue("clue_threatening_letter", "Threatening Letter", "Documents", None),
    Clue("clue_financial_records", "Financial Discrepancies", "Financial", None),
    Clue("clue_medical_records", "Medical Records", "Medical", None),
    Clue("clue_witness_testimony", "Witness Account", "Witness", None),
    Clue("clue_forged_signature", "Forged Check", "Documents", None)]

  const HeiressSolution: Solution := Solution(
    "Dr. Margaret Thornfield",
    "To cover up her affair with Lord Blackwood and prevent Lady Blackwood from discovering she had been slowly poisoning her.",
    "Arsenic poisoning administered through her regular medication over several weeks, with a final lethal dose given the night of her death.",
    "Dr. Thornfield had been having an affair with Lord Blackwood before his death and had been slowly poisoning Lady Blackwood to inherit her fortune through a forged will. When Lady Blackwood became suspicious and threatened to change doctors, Dr. Thornfield administered a final lethal dose of arsenic.")

  const HeiressDescription: string :=
    "Lady Victoria Blackwood, a wealthy heiress, has been found dead in her locked study. The cause appears to be poisoning, but who among her household had motive and opportunity?"

  /** `createMissingHeiressScenario()`: the built-in scenario. */
  function MissingHeiress(): Scenario {
    Scenario("scenario_missing_heiress", "The Case of the Missing Heiress", HeiressDescription,
             HeiressCharacters, HeiressClues, HeiressSolution, 4, 6)
  }

  /** `loadDefaultScenarios()`: the catalog the server starts with. */
  function DefaultCatalog(): Catalog {
    Catalog([MissingHeiress()])
  }

  const HeiressCharacterIdList: seq<string> :=
    ["char_butler", "char_nephew", "char_doctor", "char_secretary", "char_gardener", "char_maid"]

  const HeiressClueIdList: seq<string> :=
    ["clue_poison_bottle", "clue_threatening_letter", "clue_financial_records",
     "clue_medical_records", "clue_witness_testimony", "clue_forged_signature"]

  lemma HeiressCharacterIds()
    ensures CharacterIds(HeiressCharacters) == HeiressCharacterIdList
    ensures Distinct(CharacterIds(HeiressCharacters))
  {
    HeiressCharacterIdsListed();
    HeiressCharacterIdsDistinct();
  }

  lemma HeiressCharacterIdsListed()
    ensures CharacterIds(HeiressCharacters) == HeiressCharacterIdList
  {
  }

  lemma HeiressCharacterIdsDistinct()
    ensures Distinct(HeiressCharacterIdList)
  {
    DistinctIdList(HeiressCharacterIdList);
  }

  lemma HeiressClueIds()
    ensures ClueIds(HeiressClues) == HeiressClueIdList
    ensures Distinct(ClueIds(HeiressClues))
  {
    HeiressClueIdsListed();
    HeiressClueIdsDistinct();
  }

  lemma HeiressClueIdsListed()
    ensures ClueIds(HeiressClues) == HeiressClueIdList
  {
  }

  lemma HeiressClueIdsDistinct()
    ensures Distinct(HeiressClueIdList)
  {
    DistinctIdList(HeiressClueIdList);
  }

  /** Ids tell themselves apart by their length or by their sixth character, the first
      one after a common prefix such as `clue_`. */
  lemma DistinctIdList(ids: seq<string>)
    requires forall i :: 0 <= i < |ids| ==> |ids[i]| > 5
    requires forall i, j :: 0 <= i < j < |ids| ==> |ids[i]| != |ids[j]| || ids[i][5] != ids[j][5]
    ensures Distinct(ids)
  {
  }

  /** The built-in scenario has six characters and six clues, each with a distinct id,
      and 4 <= minPlayers <= maxPlayers <= number of characters, so a full table can
      be seated. */
  lemma MissingHeiressShape()
    ensures var s := MissingHeiress();
            && |s.characters| == 6 && Distinct(CharacterIds(s.characters))
            && |s.clues| == 6 && Distinct(ClueIds(s.clues))
            && s.minPlayers == 4 && s.maxPlayers == 6
            && 1 <= s.minPlayers <= s.maxPlayers <= |s.characters|
  {
    HeiressCharacterIds();
    HeiressClueIds();
  }

  /** With no id, or the built-in id, the default catalog yields the built-in scenario;
      any other id yields nothing. */
  lemma DefaultCatalogLookup(id: string)
    ensures GetScenario(DefaultCatalog(), None) == Some(MissingHeiress())
    ensures id != "" ==>
              (GetScenario(DefaultCatalog(), Some(id)).Some? <==> id == "scenario_missing_heiress")
  {
  }
}
