/** The value types shared by the server and the client: phases, scenario
    content, chat messages and accusations. Narrative text that no operation
    inspects (biographies, secrets, clue bodies) is not part of the model. */
module Types {
  import opened Wrappers

  datatype Phase = Lobby | Introduction | Investigation | Accusation | Reveal | Finished

  datatype Character = Character(id: string, name: string)

  /** `revealOrder` is only present in the client's scenario data. */
  datatype Clue = Clue(id: string, title: string, category: string, revealOrder: Option<int>)

  /** `means` is the source's `method` field (a Dafny keyword). */
  datatype Solution = Solution(murderer: string, motive: string, means: string, explanation: string)

  datatype Scenario = Scenario(
    id: string,
    title: string,
    description: string,
    characters: seq<Character>,
    clues: seq<Clue>,
    solution: Solution,
    minPlayers: int,
    maxPlayers: int)

  /** Times are milliseconds since the epoch, as `Date.getTime()` returns them. */
  datatype ChatMessage = ChatMessage(
    id: string,
    senderId: string,
    senderName: string,
    content: string,
    timestamp: int,
    isPrivate: bool,
    recipientId: Option<string>)

  datatype Accusation = Accusation(
    playerId: string,
    playerName: string,
    murderer: string,
    motive: string,
    means: string,
    submittedAt: int)

  /** No value occurs twice in `s`. */
  predicate Distinct<T(==)>(s: seq<T>) {
    forall i, j :: 0 <= i < j < |s| ==> s[i] != s[j]
  }

  function CharacterIds(cs: seq<Character>): (ids: seq<string>)
    ensures |ids| == |cs|
    ensures forall i :: 0 <= i < |cs| ==> ids[i] == cs[i].id
  {
    if cs == [] then [] else [cs[0].id] + CharacterIds(cs[1..])
  }

  function ClueIds(cs: seq<Clue>): (ids: seq<string>)
    ensures |ids| == |cs|
    ensures forall i :: 0 <= i < |cs| ==> ids[i] == cs[i].id
  {
    if cs == [] then [] else [cs[0].id] + ClueIds(cs[1..])
  }

  /** `characters.find(c => c.id === id)`: the first character with that id. */
  function FindCharacter(cs: seq<Character>, id: string): (r: Option<Character>)
    ensures r.None? <==> id !in CharacterIds(cs)
    ensures r.Some? ==> r.value in cs && r.value.id == id
    ensures r.Some? ==> exists i :: 0 <= i < |cs| && cs[i] == r.value && id !in CharacterIds(cs[..i])
  {
    if cs == [] then None
    else if cs[0].id == id then (assert cs[..0] == []; Some(cs[0]))
    else
      var r := FindCharacter(cs[1..], id);
      if r.Some? then
        var i :| 0 <= i < |cs[1..]| && cs[1..][i] == r.value && id !in CharacterIds(cs[1..][..i]);
        assert CharacterIds(cs[..i + 1]) == [cs[0].id] + CharacterIds(cs[1..][..i]) by {
          assert cs[..i + 1][1..] == cs[1..][..i];
        }
        r
      else r
  }

  /** `clues.find(c => c.id === id)`: the first clue with that id. */
  function FindClue(cs: seq<Clue>, id: string): (r: Option<Clue>)
    ensures r.None? <==> id !in ClueIds(cs)
    ensures r.Some? ==> r.value in cs && r.value.id == id
    ensures r.Some? ==> exists i :: 0 <= i < |cs| && cs[i] == r.value && id !in ClueIds(cs[..i])
  {
    if cs == [] then None
    else if cs[0].id == id then (assert cs[..0] == []; Some(cs[0]))
    else
      var r := FindClue(cs[1..], id);
      if r.Some? then
        var i :| 0 <= i < |cs[1..]| && cs[1..][i] == r.value && id !in ClueIds(cs[1..][..i]);
        assert ClueIds(cs[..i + 1]) == [cs[0].id] + ClueIds(cs[1..][..i]) by {
          assert cs[..i + 1][1..] == cs[1..][..i];
        }
        r
      else r
  }
}
