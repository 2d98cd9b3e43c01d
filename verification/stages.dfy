/**
  The six mutation stages of the generator (genpass.py lines 28-91). Each
  takes one word and returns the set of words it derives from it. The
  functions follow the source; the lemmas after each state what it promises.
 */
module Stages {
  import opened Chars
  import opened Tables
  import opened Edits

  // ensure_case

  /** `ensure_case`: always keeps the word; adds the word with its first
      character upper-cased when it has no upper-case letter, and with its first
      character lower-cased when it has no lower-case letter. The source indexes
      `password[0]`, so it needs a non-empty word. */
  function EnsureCase(p: string): set<string>
    requires |p| > 0
  {
    if HasUpper(p) && HasLower(p) then {p}
    else
      (if !HasUpper(p) then {[Upper(p[0])] + p[1..]} else {})
      + (if !HasLower(p) then {[Lower(p[0])] + p[1..]} else {})
      + {p}
  }

  /** Replacing the first character keeps the length and the rest of the word. */
  lemma ReplaceFirst(p: string, c: char)
    requires |p| > 0
    ensures |[c] + p[1..]| == |p| && ([c] + p[1..])[0] == c && ([c] + p[1..])[1..] == p[1..]
    ensures c == p[0] ==> [c] + p[1..] == p
  {
    if c == p[0] {
      assert p == [p[0]] + p[1..];
    }
  }

  /** The three shapes the result of `ensure_case` takes. */
  lemma EnsureCaseCases(p: string)
    requires |p| > 0
    ensures !HasUpper(p) && HasLower(p) ==> EnsureCase(p) == {[Upper(p[0])] + p[1..], p}
    ensures HasUpper(p) && !HasLower(p) ==> EnsureCase(p) == {[Lower(p[0])] + p[1..], p}
    ensures HasUpper(p) == HasLower(p) ==> EnsureCase(p) == {p}
  {
    if !HasUpper(p) && !HasLower(p) {
      assert !IsAlpha(p[0]);
      ReplaceFirst(p, p[0]);
    }
  }

  /** The word is kept, and every variant differs from it at most in its first
      character. */
  lemma EnsureCaseShape(p: string)
    requires |p| > 0
    ensures p in EnsureCase(p)
    ensures |EnsureCase(p)| <= 2
    ensures forall q :: q in EnsureCase(p) ==> |q| == |p| && q[1..] == p[1..]
    ensures forall q :: q in EnsureCase(p) ==> q[0] == p[0] || q[0] == Upper(p[0]) || q[0] == Lower(p[0])
  {
    EnsureCaseCases(p);
    ReplaceFirst(p, Upper(p[0]));
    ReplaceFirst(p, Lower(p[0]));
    ReplaceFirst(p, p[0]);
  }

  /** Only the word itself comes back exactly when it already mixes cases or
      its first character is not a letter. */
  lemma EnsureCaseSingletonIff(p: string)
    requires |p| > 0
    ensures EnsureCase(p) == {p} <==> (HasUpper(p) && HasLower(p)) || !IsAlpha(p[0])
  {
    var up := [Upper(p[0])] + p[1..];
    var low := [Lower(p[0])] + p[1..];
    assert up[0] == Upper(p[0]) && low[0] == Lower(p[0]);
    if IsLower(p[0]) {
      assert HasLower(p);
      assert up != p;
    } else if IsUpper(p[0]) {
      assert HasUpper(p);
      assert low != p;
    } else {
      assert p == [p[0]] + p[1..];
      assert up == p && low == p;
    }
  }

  /** When the first character is a letter, some variant has an upper-case
      letter and some variant has a lower-case letter. */
  lemma EnsureCaseCoverage(p: string)
    requires |p| > 0 && IsAlpha(p[0])
    ensures exists q :: q in EnsureCase(p) && HasUpper(q)
    ensures exists q :: q in EnsureCase(p) && HasLower(q)
  {
    var up := [Upper(p[0])] + p[1..];
    var low := [Lower(p[0])] + p[1..];
    assert up[0] == Upper(p[0]) && low[0] == Lower(p[0]);
    assert HasUpper(up) && HasLower(low);
    assert HasUpper(p) ==> p in EnsureCase(p);
    assert HasLower(p) ==> p in EnsureCase(p);
  }

  // pad_password

  /** The pad list `pad_password` draws from: text pads for an all-digit word,
      numeric pads otherwise. */
  function Pads(p: string): seq<string> {
    if IsDigits(p) then TEXT_PAD else NUM_PAD
  }

  /** `pad_password`: the word itself when it is long enough, and every
      padding of it that reaches 8 characters. */
  function PadPassword(p: string): set<string> {
    (if |p| >= 8 then {p} else {})
    + set pad | pad in Pads(p) && |p + pad| >= 8 :: p + pad
  }

  /** Every padded variant reaches 8 characters and starts with the word; the
      word itself is among them exactly when it is 8 characters or longer. */
  lemma PadPasswordShape(p: string)
    ensures forall q :: q in PadPassword(p) ==> |q| >= 8 && |p| <= |q| && q[..|p|] == p
    ensures p in PadPassword(p) <==> |p| >= 8
  {
    forall q | q in PadPassword(p)
      ensures |q| >= 8 && |p| <= |q| && q[..|p|] == p
    {
      if q != p {
        var pad :| pad in Pads(p) && |p + pad| >= 8 && q == p + pad;
        PrefixOfConcat(p, pad);
      } else {
        assert p[..|p|] == p;
      }
    }
  }

  lemma PrefixOfConcat(p: string, s: string)
    ensures (p + s)[..|p|] == p && (p + s)[|p|..] == s
  {
  }

  /** No padded variant is longer than the word followed by the longest pad of
      the chosen list. */
  lemma PadPasswordLengthBound(p: string)
    ensures forall q :: q in PadPassword(p) ==> |q| <= |p| + (if IsDigits(p) then 6 else 5)
  {
    PadLengths();
    forall q | q in PadPassword(p) && q != p
      ensures |q| <= |p| + (if IsDigits(p) then 6 else 5)
    {
      var pad :| pad in Pads(p) && |p + pad| >= 8 && q == p + pad;
    }
  }

  /** What follows the word in a padded variant is a text pad when the word is
      all digits and a numeric pad otherwise; every pad that reaches 8
      characters is used. */
  lemma PadPasswordSuffixes(p: string)
    ensures IsDigits(p) ==> forall q :: q in PadPassword(p) && q != p ==> q[|p|..] in TEXT_PAD
    ensures !IsDigits(p) ==> forall q :: q in PadPassword(p) && q != p ==> q[|p|..] in NUM_PAD
    ensures forall pad :: pad in Pads(p) && |p| + |pad| >= 8 ==> p + pad in PadPassword(p)
  {
    forall q | q in PadPassword(p) && q != p
      ensures q[|p|..] in Pads(p)
    {
      var pad :| pad in Pads(p) && |p + pad| >= 8 && q == p + pad;
      PrefixOfConcat(p, pad);
    }
  }

  /** Padding yields nothing exactly when even the longest pad of the chosen
      list (6 characters of text, 5 of digits) falls short of 8. */
  lemma PadPasswordEmptyIff(p: string)
    ensures PadPassword(p) == {} <==> |p| + (if IsDigits(p) then 6 else 5) < 8
  {
    PadLengths();
    PadPasswordShape(p);
    PadPasswordLengthBound(p);
    var longest := if IsDigits(p) then "qwerty" else "42069";
    if |p| + |longest| >= 8 {
      assert p + longest in PadPassword(p);
    }
  }

  // end_with_symbol

  /** `end_with_symbol`: one copy of the word per trailing symbol. */
  function EndWithSymbol(p: string): set<string> {
    set sym | sym in END_SYMBOLS :: p + sym
  }

  /** Exactly one variant per trailing symbol: the word followed by that one
      symbol character, and nothing else. */
  lemma EndWithSymbolShape(p: string)
    ensures |EndWithSymbol(p)| == |END_SYMBOLS|
    ensures forall q :: q in EndWithSymbol(p) <==> |q| == |p| + 1 && q[..|p|] == p && [q[|p|]] in END_SYMBOLS
  {
    var r := EndWithSymbol(p);
    assert r == {p + "!", p + "#"};
    assert (p + "!")[|p|] != (p + "#")[|p|];
    forall q | |q| == |p| + 1 && q[..|p|] == p && [q[|p|]] in END_SYMBOLS
      ensures q in r
    {
      assert q == p + [q[|p|]];
    }
  }

  // substitute_at

  /** The positions holding `a` or `A`. */
  function APositions(p: string): set<nat> {
    set i: nat | i < |p| && Lower(p[i]) == 'a'
  }

  /** `substitute_at`: one variant per `a`/`A`, with that letter replaced by `@`. */
  function SubstituteAt(p: string): set<string> {
    set i | i in APositions(p) :: Edit(p, i, '@')
  }

  /** Each variant replaces exactly one `a`/`A` by `@`, and every such
      replacement is a variant. */
  lemma SubstituteAtEdits(p: string)
    ensures forall q :: q in SubstituteAt(p) ==> exists i :: OneEdit(p, q, i) && Lower(p[i]) == 'a' && q[i] == '@'
    ensures forall i :: 0 <= i < |p| && Lower(p[i]) == 'a' ==> Edit(p, i, '@') in SubstituteAt(p)
  {
    assert forall i :: 0 <= i < |p| && Lower(p[i]) == 'a' ==> i in APositions(p);
  }

  /** There are as many variants as `a`/`A` positions, so none exactly when
      the word has no `a`/`A`. */
  lemma SubstituteAtCount(p: string)
    ensures |SubstituteAt(p)| == |APositions(p)|
    ensures SubstituteAt(p) == {} <==> forall i :: 0 <= i < |p| ==> Lower(p[i]) != 'a'
  {
    EditImageCard(p, APositions(p), c => '@');
    assert SubstituteAt(p) == set i | i in APositions(p) :: Edit(p, i, (c => '@')(p[i]));
    assert forall i :: 0 <= i < |p| && Lower(p[i]) == 'a' ==> i in APositions(p);
  }

  // apply_leetspeak and mutate_vowels

  /** The loop shared by `apply_leetspeak` and `mutate_vowels`: for every
      position whose lower-cased character is a key of the table, one variant
      per replacement of that key. */
  function Substitute(p: string, table: map<char, seq<string>>): set<string> {
    set i: nat, rep | i < |p| && Lower(p[i]) in table && rep in table[Lower(p[i])] :: p[..i] + rep + p[i + 1..]
  }

  /** `apply_leetspeak`: every single-character leetspeak substitution. */
  function ApplyLeetspeak(p: string): set<string> {
    Substitute(p, LEET_MAP)
  }

  /** `mutate_vowels`: every single-character vowel substitution. */
  function MutateVowels(p: string): set<string> {
    Substitute(p, VOWEL_MUTATE)
  }

  /** Each variant changes exactly one character of the word, and the new
      character is a replacement listed for the old one's lower-case form. */
  lemma SubstituteEdits(p: string, table: map<char, seq<string>>)
    requires WellFormedTable(table)
    ensures forall q :: q in Substitute(p, table) ==>
      exists i :: OneEdit(p, q, i) && Lower(p[i]) in table && [q[i]] in table[Lower(p[i])]
  {
    forall q | q in Substitute(p, table)
      ensures exists i :: OneEdit(p, q, i) && Lower(p[i]) in table && [q[i]] in table[Lower(p[i])]
    {
      var i: nat, rep :| i < |p| && Lower(p[i]) in table && rep in table[Lower(p[i])] && q == p[..i] + rep + p[i + 1..];
      SpliceIsEdit(p, i, rep);
      assert rep[0] != p[i] by {
        if IsUpper(p[i]) {
          CaseRoundTrip(Lower(p[i]));
        }
      }
      assert OneEdit(p, q, i);
    }
  }

  /** Splicing a one-character string into position `i` is a single edit. */
  lemma SpliceIsEdit(p: string, i: nat, rep: string)
    requires i < |p| && |rep| == 1
    ensures p[..i] + rep + p[i + 1..] == Edit(p, i, rep[0])
    ensures rep == [rep[0]]
  {
  }

  /** Every listed replacement at every matching position is a variant. */
  lemma SubstituteComplete(p: string, table: map<char, seq<string>>)
    ensures forall i, c :: 0 <= i < |p| && Lower(p[i]) in table && [c] in table[Lower(p[i])] ==>
      Edit(p, i, c) in Substitute(p, table)
  {
    forall i, c | 0 <= i < |p| && Lower(p[i]) in table && [c] in table[Lower(p[i])]
      ensures Edit(p, i, c) in Substitute(p, table)
    {
      assert Edit(p, i, c) == p[..i] + [c] + p[i + 1..];
    }
  }

  /** The word itself is never a variant, and there are none exactly when no
      character of the word is a key of the table, ignoring case. */
  lemma SubstituteExcludesWord(p: string, table: map<char, seq<string>>)
    requires WellFormedTable(table)
    ensures p !in Substitute(p, table)
    ensures Substitute(p, table) == {} <==> forall i :: 0 <= i < |p| ==> Lower(p[i]) !in table
  {
    SubstituteEdits(p, table);
    if exists i :: 0 <= i < |p| && Lower(p[i]) in table {
      var i :| 0 <= i < |p| && Lower(p[i]) in table;
      var rep := table[Lower(p[i])][0];
      assert p[..i] + rep + p[i + 1..] in Substitute(p, table);
    }
  }

  /** A character whose lower-case form is not a key of the table is left
      in place by every variant. */
  lemma SubstituteKeepsOthers(p: string, table: map<char, seq<string>>, k: int)
    requires WellFormedTable(table)
    requires 0 <= k < |p| && Lower(p[k]) !in table
    ensures forall q :: q in Substitute(p, table) ==> |q| == |p| && q[k] == p[k]
  {
    SubstituteEdits(p, table);
    forall q | q in Substitute(p, table)
      ensures |q| == |p| && q[k] == p[k]
    {
      var i :| OneEdit(p, q, i) && Lower(p[i]) in table && [q[i]] in table[Lower(p[i])];
    }
  }

  /** `apply_leetspeak`: each variant changes exactly one character, to a
      replacement the leetspeak table lists for its lower-case form; every such
      change is a variant; the word itself never is; and there are none
      exactly when no character is a key of the table, ignoring case. */
  lemma ApplyLeetspeakFacts(p: string)
    ensures forall q :: q in ApplyLeetspeak(p) ==>
      exists i :: OneEdit(p, q, i) && Lower(p[i]) in LEET_MAP && [q[i]] in LEET_MAP[Lower(p[i])]
    ensures forall i, c :: 0 <= i < |p| && Lower(p[i]) in LEET_MAP && [c] in LEET_MAP[Lower(p[i])] ==>
      Edit(p, i, c) in ApplyLeetspeak(p)
    ensures p !in ApplyLeetspeak(p)
    ensures ApplyLeetspeak(p) == {} <==> forall i :: 0 <= i < |p| ==> Lower(p[i]) !in LEET_MAP
  {
    LeetTableWellFormed();
    SubstituteEdits(p, LEET_MAP);
    SubstituteComplete(p, LEET_MAP);
    SubstituteExcludesWord(p, LEET_MAP);
  }

  /** `mutate_vowels`: the same four facts for the vowel table. */
  lemma MutateVowelsFacts(p: string)
    ensures forall q :: q in MutateVowels(p) ==>
      exists i :: OneEdit(p, q, i) && Lower(p[i]) in VOWEL_MUTATE && [q[i]] in VOWEL_MUTATE[Lower(p[i])]
    ensures forall i, c :: 0 <= i < |p| && Lower(p[i]) in VOWEL_MUTATE && [c] in VOWEL_MUTATE[Lower(p[i])] ==>
      Edit(p, i, c) in MutateVowels(p)
    ensures p !in MutateVowels(p)
    ensures MutateVowels(p) == {} <==> forall i :: 0 <= i < |p| ==> Lower(p[i]) !in VOWEL_MUTATE
  {
    VowelTableWellFormed();
    SubstituteEdits(p, VOWEL_MUTATE);
    SubstituteComplete(p, VOWEL_MUTATE);
    SubstituteExcludesWord(p, VOWEL_MUTATE);
  }

  /** All three substitution stages keep the length of the word. */
  lemma SubstitutionsKeepLength(p: string)
    ensures forall q :: q in ApplyLeetspeak(p) ==> |q| == |p|
    ensures forall q :: q in MutateVowels(p) ==> |q| == |p|
    ensures forall q :: q in SubstituteAt(p) ==> |q| == |p|
  {
    LeetTableWellFormed();
    VowelTableWellFormed();
    SubstituteEdits(p, LEET_MAP);
    SubstituteEdits(p, VOWEL_MUTATE);
    forall q | q in ApplyLeetspeak(p)
      ensures |q| == |p|
    {
      var i :| OneEdit(p, q, i);
    }
    forall q | q in MutateVowels(p)
      ensures |q| == |p|
    {
      var i :| OneEdit(p, q, i);
    }
  }

  /** `apply_leetspeak("cat")` is `{"c4t", "c@t", "ca7"}`. */
  lemma LeetspeakCat()
    ensures ApplyLeetspeak("cat") == {"c4t", "c@t", "ca7"}
  {
    var p := "cat";
    var r := ApplyLeetspeak(p);
    assert Lower(p[0]) !in LEET_MAP;
    assert Lower(p[1]) == 'a' && Lower(p[2]) == 't';
    assert "c4t" == p[..1] + "4" + p[2..];
    assert "c@t" == p[..1] + "@" + p[2..];
    assert "ca7" == p[..2] + "7" + p[3..];
    assert {"c4t", "c@t", "ca7"} <= r;
    forall q | q in r
      ensures q in {"c4t", "c@t", "ca7"}
    {
      var i: nat, rep :| i < |p| && Lower(p[i]) in LEET_MAP && rep in LEET_MAP[Lower(p[i])] && q == p[..i] + rep + p[i + 1..];
      assert i == 1 || i == 2;
    }
  }
}
