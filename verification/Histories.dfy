/** Uninterrupted rows at the end of a history. */
module Histories {

  /** How often e occurs at the end of a history without interruption. */
  function Trailing<T(==)>(history: seq<T>, e: T): (n: nat)
    ensures n <= |history|
  {
    if history == [] || history[|history| - 1] != e then 0
    else 1 + Trailing(history[..|history| - 1], e)
  }

  lemma TrailingNext<T>(history: seq<T>, x: T, e: T)
    ensures Trailing(history + [x], e) == if x == e then 1 + Trailing(history, e) else 0
  {
    assert (history + [x])[..|history|] == history;
  }

  function Capped(n: nat, most: nat): nat {
    if n < most then n else most
  }
}
