/**
  Single-position edits: `p[:i] + c + p[i+1:]` with a one-character `c`, the
  shape of every substitution and case repair in the generator.
 */
module Edits {

  /** `p` with position `i` replaced by `c`. */
  function Edit(p: string, i: nat, c: char): (q: string)
    requires i < |p|
    ensures |q| == |p| && q[i] == c
    ensures forall j :: 0 <= j < |p| && j != i ==> q[j] == p[j]
  {
    p[..i] + [c] + p[i + 1..]
  }

  /** `q` differs from `p` at position `i` and nowhere else. */
  predicate OneEdit(p: string, q: string, i: int) {
    && |q| == |p|
    && 0 <= i < |p|
    && q[i] != p[i]
    && forall j :: 0 <= j < |p| && j != i ==> q[j] == p[j]
  }

  /** The edited position of a single-position edit is unique. */
  lemma OneEditUnique(p: string, q: string, i: int, j: int)
    requires OneEdit(p, q, i) && OneEdit(p, q, j)
    ensures i == j
  {
  }

  /** Edits at two different places, each changing its character, differ. */
  lemma EditsAtDifferentPlaces(p: string, i: nat, c: char, x: nat, d: char)
    requires i < |p| && x < |p| && i != x && d != p[x]
    ensures Edit(p, i, c) != Edit(p, x, d)
  {
    assert Edit(p, i, c)[x] == p[x];
  }

  /** Taking one position `x` out of `s` takes exactly its edit out of the image. */
  lemma EditImageStep(p: string, s: set<nat>, f: char -> char, x: nat)
    requires forall i :: i in s ==> i < |p| && f(p[i]) != p[i]
    requires x in s
    ensures (set i | i in s :: Edit(p, i, f(p[i])))
            == (set i | i in s - {x} :: Edit(p, i, f(p[i]))) + {Edit(p, x, f(p[x]))}
    ensures Edit(p, x, f(p[x])) !in (set i | i in s - {x} :: Edit(p, i, f(p[i])))
  {
    forall i | i in s - {x}
      ensures Edit(p, i, f(p[i])) != Edit(p, x, f(p[x]))
    {
      EditsAtDifferentPlaces(p, i, f(p[i]), x, f(p[x]));
    }
  }

  /** Editing distinct positions, each to a character other than the one
      there, gives distinct strings: the image has as many elements as there
      are positions. */
  lemma {:induction false} EditImageCard(p: string, s: set<nat>, f: char -> char)
    requires forall i :: i in s ==> i < |p| && f(p[i]) != p[i]
    ensures |set i | i in s :: Edit(p, i, f(p[i]))| == |s|
    decreases s
  {
    if s != {} {
      var x :| x in s;
      EditImageCard(p, s - {x}, f);
      EditImageStep(p, s, f, x);
    }
  }
}
