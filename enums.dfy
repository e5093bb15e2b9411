/** java.lang.Enum as the service uses it: a closed list of constants, each with an
    ordinal and a name; `name()` reads the name of a constant and `valueOf` finds the
    constant with a given name or throws IllegalArgumentException. */
module Enums {
  import opened Wrappers

  /** No two constants of an enumeration share a name. */
  ghost predicate Distinct(names: seq<string>) {
    forall i, j :: 0 <= i < j < |names| ==> names[i] != names[j]
  }

  /** The ordinal of the constant whose name is exactly `token` (no case folding, no trimming). */
  function Ordinal(names: seq<string>, token: string): (r: Option<nat>)
    ensures r.Some? ==> r.value < |names| && names[r.value] == token
    ensures r.None? <==> token !in names
  {
    if names == [] then None
    else if names[0] == token then Some(0)
    else match Ordinal(names[1..], token)
      case None => None
      case Some(k) => Some(k + 1)
  }

  /** Looking up the name of a constant finds that constant again. */
  lemma {:induction false} OrdinalOfName(names: seq<string>, k: nat)
    requires Distinct(names) && k < |names|
    ensures Ordinal(names, names[k]) == Some(k)
  {
    assert names[k] in names;
  }

  /** The message of the IllegalArgumentException thrown by Enum.valueOf. */
  function NoConstantMessage(canonicalClass: string, token: string): string {
    "No enum constant " + canonicalClass + "." + token
  }
}
