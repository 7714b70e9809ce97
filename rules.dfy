/** The domination rules of Rock-Paper-Scissors-Lizard-Spock: the `beats`
    table and the pairwise winner function `getWinnerName`. */
module Rules {
  import opened Wrappers

  /** The five entity types. */
  datatype Kind = Rock | Paper | Scissors | Lizard | Spock

  /** The base types in the order the store is built from: ten of each. */
  const AllKinds: seq<Kind> := [Rock, Paper, Scissors, Lizard, Spock]

  /** The string the source uses as an entity's `name` and shows as the winner. */
  function Name(k: Kind): (s: string)
    ensures s != []
  {
    match k
    case Rock => "rock"
    case Paper => "paper"
    case Scissors => "scissors"
    case Lizard => "lizard"
    case Spock => "spock"
  }

  /** Comparing names is comparing kinds, so the model compares kinds. */
  lemma NamesIdentifyKinds(a: Kind, b: Kind)
    ensures Name(a) == Name(b) <==> a == b
  {
    if a != b {
      assert Name(a)[0] != Name(b)[0] || Name(a)[1] != Name(b)[1];
    }
  }

  /** Every value of the enumeration is one of the base types. */
  lemma AllKindsComplete(k: Kind)
    ensures k in AllKinds
    ensures |AllKinds| == 5
  {
  }

  /** `beats[k]`: the two types that k defeats, in the table's order. */
  function Beaten(k: Kind): (r: seq<Kind>)
    ensures |r| == 2 && r[0] != r[1]
    ensures k !in r
  {
    match k
    case Rock => [Scissors, Lizard]
    case Paper => [Rock, Spock]
    case Scissors => [Paper, Lizard]
    case Lizard => [Paper, Spock]
    case Spock => [Scissors, Rock]
  }

  /** `beats[a].includes(b)` */
  predicate Defeats(a: Kind, b: Kind) {
    b in Beaten(a)
  }

  /** `getWinnerName(a, b)`: no winner between equal types, otherwise the
      type that defeats the other. The table being a tournament, exactly one
      of the two defeats the other, so the final `null` is never reached. */
  function WinnerName(a: Kind, b: Kind): (r: Option<Kind>)
    ensures r.None? <==> a == b
    ensures r == Some(a) <==> Defeats(a, b)
    ensures r == Some(b) <==> Defeats(b, a)
  {
    if a == b then None
    else if Defeats(a, b) then Some(a)
    else if Defeats(b, a) then Some(b)
    else None
  }

  /** The set of types that k defeats (`ofWinner`) or that defeat k. */
  function Victims(k: Kind): set<Kind> {
    set b | b in AllKinds && Defeats(k, b)
  }

  function Victors(k: Kind): set<Kind> {
    set b | b in AllKinds && Defeats(b, k)
  }

  /** The `beats` table relates every two types in exactly one direction:
      no type beats itself, no two types beat each other, and of two distinct
      types one beats the other. */
  lemma Tournament(a: Kind, b: Kind)
    ensures !Defeats(a, a)
    ensures Defeats(a, b) ==> !Defeats(b, a)
    ensures a != b ==> Defeats(a, b) || Defeats(b, a)
  {
  }

  /** Every type beats exactly two types. */
  lemma BeatsTwo(a: Kind)
    ensures |Victims(a)| == 2 && a !in Victims(a)
  {
    match a
    case Rock => assert Victims(a) == {Scissors, Lizard};
    case Paper => assert Victims(a) == {Rock, Spock};
    case Scissors => assert Victims(a) == {Paper, Lizard};
    case Lizard => assert Victims(a) == {Paper, Spock};
    case Spock => assert Victims(a) == {Scissors, Rock};
  }

  /** Every type loses to exactly two types, which are not the ones it beats. */
  lemma LosesToTwo(a: Kind)
    ensures |Victors(a)| == 2 && a !in Victors(a)
    ensures Victors(a) !! Victims(a)
  {
    match a
    case Rock =>
      assert Victors(a) == {Paper, Spock};
      assert Victims(a) == {Scissors, Lizard};
    case Paper =>
      assert Victors(a) == {Scissors, Lizard};
      assert Victims(a) == {Rock, Spock};
    case Scissors =>
      assert Victors(a) == {Rock, Spock};
      assert Victims(a) == {Paper, Lizard};
    case Lizard =>
      assert Victors(a) == {Rock, Scissors};
      assert Victims(a) == {Paper, Spock};
    case Spock =>
      assert Victors(a) == {Paper, Lizard};
      assert Victims(a) == {Scissors, Rock};
  }

  /** The outcome of a meeting does not depend on the order of the two. */
  lemma WinnerSymmetric(a: Kind, b: Kind)
    ensures WinnerName(a, b) == WinnerName(b, a)
    ensures WinnerName(a, b).Some? ==> WinnerName(a, b).value in {a, b}
  {
    Tournament(a, b);
  }
}
