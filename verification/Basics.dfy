/** Notions several components share. */
module Basics {

  datatype Option<T> = None | Some(value: T)

  type byte = x: int | 0 <= x < 256

  /** Connector 0 stands for the whole charger. */
  const NUM_OF_CONNECTORS: nat := 4

  function Min(a: int, b: int): int { if a < b then a else b }

  function Max(a: int, b: int): int { if a > b then a else b }

  lemma ConcatAssociative<T>(a: seq<T>, b: seq<T>, c: seq<T>)
    ensures (a + b) + c == a + (b + c)
  {
  }

  /** Conservation over one more step: what came in is what went out and what is there. */
  lemma Conserve<T>(came: seq<T>, went: seq<T>, here: seq<T>, comes: seq<T>, goes: seq<T>, next: seq<T>)
    requires came == went + here && here + comes == goes + next
    ensures came + comes == (went + goes) + next
  {
    ConcatAssociative(went, here, comes);
    ConcatAssociative(went, goes, next);
  }

  function Flatten<T>(parts: seq<seq<T>>): seq<T> {
    if parts == [] then [] else Flatten(parts[..|parts| - 1]) + parts[|parts| - 1]
  }

  lemma {:induction false} FlattenConcat<T>(s: seq<seq<T>>, t: seq<seq<T>>)
    ensures Flatten(s + t) == Flatten(s) + Flatten(t)
  {
    if t == [] {
      assert s + t == s;
    } else {
      assert (s + t)[..|s + t| - 1] == s + t[..|t| - 1];
      FlattenConcat(s, t[..|t| - 1]);
    }
  }

  lemma FlattenSingle<T>(part: seq<T>)
    ensures Flatten([part]) == part
  {
    assert [part][..0] == [];
    assert [] + part == part;
  }
}
