/** Join codes: the six-character code generator of the game manager, the retry
    loop that keeps drawing until a code is not in use, and the upper-casing
    that `joinGame` applies before looking a code up. */
module Codes {
  import opened Wrappers

  const CodeLength: nat := 6

  const Alphabet: string := "ABCDEFGHIJKLMNOPQRSTUVWXYZ0123456789"

  /** The alphabet is the 26 capital letters followed by the 10 digits. */
  lemma AlphabetLayout()
    ensures |Alphabet| == 36
    ensures forall i :: 0 <= i < 26 ==> Alphabet[i] as int == 'A' as int + i
    ensures forall i :: 26 <= i < 36 ==> Alphabet[i] as int == '0' as int + i - 26
  {
  }

  predicate IsCodeChar(c: char) {
    ('A' <= c <= 'Z') || ('0' <= c <= '9')
  }

  /** The format `/^[A-Z0-9]{6}$/`. */
  predicate ValidCode(code: string) {
    |code| == CodeLength && forall i :: 0 <= i < |code| ==> IsCodeChar(code[i])
  }

  /** Six draws of `Math.floor(Math.random() * characters.length)`, each in [0, 36). */
  predicate ValidRolls(rolls: seq<nat>) {
    |rolls| == CodeLength && forall i :: 0 <= i < |rolls| ==> rolls[i] < |Alphabet|
  }

  /** A character is drawn from the alphabet exactly when it matches `[A-Z0-9]`. */
  lemma AlphabetIsCodeChars()
    ensures forall c :: IsCodeChar(c) <==> c in Alphabet
  {
    AlphabetLayout();
    forall c | IsCodeChar(c) ensures c in Alphabet {
      var i := RollOf(c);
    }
  }

  /** Position of a code character in the alphabet. */
  function RollOf(c: char): (i: nat)
    requires IsCodeChar(c)
    ensures i < |Alphabet| && Alphabet[i] == c
  {
    AlphabetLayout();
    if 'A' <= c <= 'Z' then c as int - 'A' as int else c as int - '0' as int + 26
  }

  /** `generateGameCode()` with its random draws supplied as `rolls`. */
  function GenerateGameCode(rolls: seq<nat>): (code: string)
    requires ValidRolls(rolls)
    ensures ValidCode(code)
  {
    AlphabetLayout();
    seq(CodeLength, i requires 0 <= i < CodeLength => Alphabet[rolls[i]])
  }

  /** The draws that produce a given code. */
  function CodeRolls(code: string): (rolls: seq<nat>)
    requires ValidCode(code)
    ensures ValidRolls(rolls)
  {
    seq(CodeLength, i requires 0 <= i < CodeLength => RollOf(code[i]))
  }

  /** Distinct draws give distinct codes ... */
  lemma RollsRoundTrip(rolls: seq<nat>)
    requires ValidRolls(rolls)
    ensures CodeRolls(GenerateGameCode(rolls)) == rolls
  {
    var code := GenerateGameCode(rolls);
    AlphabetLayout();
    forall i | 0 <= i < CodeLength ensures RollOf(code[i]) == rolls[i] {
      assert code[i] == Alphabet[rolls[i]];
    }
  }

  /** ... and every code of the right format is produced by some draws. */
  lemma CodesRoundTrip(code: string)
    requires ValidCode(code)
    ensures GenerateGameCode(CodeRolls(code)) == code
  {
  }

  /** The `do { ... } while (this.games.has(gameCode))` loop: the first attempt whose
      code is not already taken. `None` means every supplied attempt collided, so the
      source would still be looping. */
  function FirstFreeCode(taken: set<string>, attempts: seq<seq<nat>>): (r: Option<string>)
    requires forall k :: 0 <= k < |attempts| ==> ValidRolls(attempts[k])
    ensures r.Some? ==> ValidCode(r.value) && r.value !in taken
    ensures r.Some? <==> exists k :: 0 <= k < |attempts| && GenerateGameCode(attempts[k]) !in taken
  {
    if attempts == [] then None
    else if GenerateGameCode(attempts[0]) !in taken then Some(GenerateGameCode(attempts[0]))
    else
      assert forall k :: 1 <= k < |attempts| ==> attempts[k] == attempts[1..][k - 1];
      FirstFreeCode(taken, attempts[1..])
  }

  /** The chosen code is that of the first attempt that does not collide. */
  lemma {:induction false} FirstFreeCodeIsFirst(taken: set<string>, attempts: seq<seq<nat>>)
    requires forall k :: 0 <= k < |attempts| ==> ValidRolls(attempts[k])
    requires FirstFreeCode(taken, attempts).Some?
    ensures exists k :: 0 <= k < |attempts| && FirstFreeCode(taken, attempts).value == GenerateGameCode(attempts[k]) &&
                        forall m :: 0 <= m < k ==> GenerateGameCode(attempts[m]) in taken
  {
    if GenerateGameCode(attempts[0]) !in taken {
      assert FirstFreeCode(taken, attempts).value == GenerateGameCode(attempts[0]);
    } else {
      FirstFreeCodeIsFirst(taken, attempts[1..]);
      var k :| 0 <= k < |attempts[1..]| && FirstFreeCode(taken, attempts[1..]).value == GenerateGameCode(attempts[1..][k]) &&
               forall m :: 0 <= m < k ==> GenerateGameCode(attempts[1..][m]) in taken;
      forall m | 0 <= m < k + 1 ensures GenerateGameCode(attempts[m]) in taken {
        if m > 0 { assert attempts[m] == attempts[1..][m - 1]; }
      }
      assert FirstFreeCode(taken, attempts).value == GenerateGameCode(attempts[k + 1]);
    }
  }

  /** JavaScript's `toUpperCase`, restricted to ASCII letters. */
  function UpperChar(c: char): char {
    if 'a' <= c <= 'z' then (c as int - 'a' as int + 'A' as int) as char else c
  }

  function ToUpper(s: string): (u: string)
    ensures |u| == |s|
  {
    seq(|s|, i requires 0 <= i < |s| => UpperChar(s[i]))
  }

  lemma ToUpperIdempotent(s: string)
    ensures ToUpper(ToUpper(s)) == ToUpper(s)
  {
  }

  /** Generated codes are already upper case, so looking one up by `ToUpper` finds it. */
  lemma ValidCodeIsUpper(code: string)
    requires ValidCode(code)
    ensures ToUpper(code) == code
  {
  }

  /** A string is left alone by `ToUpper` exactly when it holds no lower-case ASCII letter. */
  lemma ToUpperFixedPoint(s: string)
    ensures ToUpper(s) == s <==> forall i :: 0 <= i < |s| ==> !('a' <= s[i] <= 'z')
  {
    if ToUpper(s) == s {
      forall i | 0 <= i < |s| ensures !('a' <= s[i] <= 'z') {
        assert ToUpper(s)[i] == UpperChar(s[i]);
      }
    }
  }
}
