/** Games as move lists over an arbitrary deterministic game: positions are codes, hashes need not be injective. */
module Chess {
  import opened Words

  type Hash = h: nat | h <= U64_MAX

  datatype Rules = Rules(start: nat, step: (nat, nat) -> nat, hash: nat -> Hash)

  /** A game as the store replays it. */
  datatype StoredGame = StoredGame(id: nat, moves: seq<nat>, result: int, whiteElo: Option<int>, blackElo: Option<int>)

  /** What the store guarantees about the games it replays: ascending row ids, and a decoded result. */
  predicate ValidStore(games: seq<StoredGame>) {
    && (forall i :: 0 <= i < |games| ==> 0 < games[i].id <= U32_MAX && -1 <= games[i].result <= 1)
    && (forall i, j :: 0 <= i < j < |games| ==> games[i].id < games[j].id)
  }

  function After(rules: Rules, moves: seq<nat>): nat {
    if moves == [] then rules.start else (rules.step)(After(rules, moves[..|moves| - 1]), moves[|moves| - 1])
  }

  function HashAfter(rules: Rules, moves: seq<nat>): Hash {
    (rules.hash)(After(rules, moves))
  }

  lemma AfterStep(rules: Rules, moves: seq<nat>, k: nat)
    requires k < |moves|
    ensures After(rules, moves[..k + 1]) == (rules.step)(After(rules, moves[..k]), moves[k])
  {
    assert moves[..k + 1][..k] == moves[..k];
  }
}
