/**
  `generate_all_variants` (genpass.py lines 94-150): the stages chained per
  case variant of the stripped word, then the single-position case repair of
  everything accumulated.
 */
module Pipeline {
  import opened Chars
  import opened Tables
  import opened Edits
  import opened Stages

  /** Step 2: the case variant and its leetspeak substitutions. */
  function LeetStage(cv: string): set<string> {
    ApplyLeetspeak(cv) + {cv}
  }

  /** Step 3: every leet variant and its vowel mutations. */
  function VowelStage(cv: string): set<string> {
    set lv, v | lv in LeetStage(cv) && v in MutateVowels(lv) + {lv} :: v
  }

  /** Step 4: every padding of every vowel variant. */
  function PadStage(cv: string): set<string> {
    set vv, q | vv in VowelStage(cv) && q in PadPassword(vv) :: q
  }

  /** Steps 5 and 6: every padded variant and each of its `@`-substitutions,
      followed by a trailing symbol. */
  function SymbolStage(cv: string): set<string> {
    (set pv, q | pv in PadStage(cv) && q in EndWithSymbol(pv) :: q)
    + (set pv, av, q | pv in PadStage(cv) && av in SubstituteAt(pv) && q in EndWithSymbol(av) :: q)
  }

  /** The symbol-terminated variants of the given case variants. */
  function UnionStages(cs: set<string>): set<string> {
    set cv, q | cv in cs && q in SymbolStage(cv) :: q
  }

  /** The symbol-terminated variants gathered over all case variants of the
      word: the set `results` holds once the loop is done. */
  function Accumulated(base: string): set<string>
    requires |base| > 0
  {
    UnionStages(EnsureCase(base))
  }

  /** The positions holding letters. */
  function AlphaPositions(w: string): set<nat> {
    set i: nat | i < |w| && IsAlpha(w[i])
  }

  /** One sibling per letter, with only that letter mapped by `f`. */
  function Siblings(w: string, f: char -> char): set<string> {
    set i | i in AlphaPositions(w) :: Edit(w, i, f(w[i]))
  }

  /** The repair siblings of one word (lines 134-148): none without letters;
      otherwise the upper-cased siblings when it has no upper-case letter and
      the lower-cased siblings when it has no lower-case letter. */
  function RepairOf(w: string): set<string> {
    if !HasAlpha(w) then {}
    else
      (if !HasUpper(w) then Siblings(w, Upper) else {})
      + (if !HasLower(w) then Siblings(w, Lower) else {})
  }

  /** The repair pass over a whole set (lines 130-148). */
  function Repair(s: set<string>): set<string> {
    set w, v | w in s && v in RepairOf(w) :: v
  }

  /** The variants of a stripped word: none for the empty word (line 97);
      otherwise the accumulated variants together with their repair siblings. */
  function Variants(base: string): set<string> {
    if base == [] then {}
    else
      var acc := Accumulated(base);
      acc + Repair(acc)
  }

  /** `generate_all_variants`: the variants of the stripped line. */
  function GenerateAllVariants(word: string): set<string> {
    Variants(Strip(word))
  }

  // The repair pass.

  /** When `f` changes every letter of `w`, there is one sibling per letter,
      each changing that letter alone. */
  lemma SiblingsShape(w: string, f: char -> char)
    requires forall i :: i in AlphaPositions(w) ==> f(w[i]) != w[i]
    ensures |Siblings(w, f)| == |AlphaPositions(w)|
    ensures forall v :: v in Siblings(w, f) ==> exists i :: OneEdit(w, v, i) && IsAlpha(w[i]) && v[i] == f(w[i])
    ensures forall i :: 0 <= i < |w| && IsAlpha(w[i]) ==> Edit(w, i, f(w[i])) in Siblings(w, f)
  {
    EditImageCard(w, AlphaPositions(w), f);
    assert forall i :: 0 <= i < |w| && IsAlpha(w[i]) ==> i in AlphaPositions(w);
  }

  /** Every repair sibling changes the case of exactly one letter; a word
      without letters, or with letters of both cases, has none. */
  lemma RepairOfEdits(w: string)
    ensures !HasAlpha(w) ==> RepairOf(w) == {}
    ensures HasUpper(w) && HasLower(w) ==> RepairOf(w) == {}
    ensures forall v :: v in RepairOf(w) ==> exists i :: OneEdit(w, v, i) && IsAlpha(w[i]) && Lower(v[i]) == Lower(w[i])
  {
    if HasAlpha(w) && !HasUpper(w) {
      RepairOfNoUpper(w);
      forall v | v in RepairOf(w)
        ensures exists i :: OneEdit(w, v, i) && IsAlpha(w[i]) && Lower(v[i]) == Lower(w[i])
      {
        var i :| OneEdit(w, v, i) && IsLower(w[i]) && v[i] == Upper(w[i]);
        CaseRoundTrip(w[i]);
      }
    } else if HasAlpha(w) && !HasLower(w) {
      RepairOfNoLower(w);
      forall v | v in RepairOf(w)
        ensures exists i :: OneEdit(w, v, i) && IsAlpha(w[i]) && Lower(v[i]) == Lower(w[i])
      {
        var i :| OneEdit(w, v, i) && IsUpper(w[i]) && v[i] == Lower(w[i]);
      }
    }
  }

  /** A word with letters but no upper-case letter gets exactly one sibling per
      letter, that letter upper-cased, and each sibling has an upper-case letter. */
  lemma RepairOfNoUpper(w: string)
    requires HasAlpha(w) && !HasUpper(w)
    ensures |RepairOf(w)| == |AlphaPositions(w)|
    ensures forall v :: v in RepairOf(w) ==> exists i :: OneEdit(w, v, i) && IsLower(w[i]) && v[i] == Upper(w[i])
    ensures forall i :: 0 <= i < |w| && IsAlpha(w[i]) ==> Edit(w, i, Upper(w[i])) in RepairOf(w)
    ensures forall v :: v in RepairOf(w) ==> HasUpper(v)
  {
    assert HasLower(w);
    assert RepairOf(w) == Siblings(w, Upper);
    SiblingsShape(w, Upper);
    forall v | v in RepairOf(w)
      ensures HasUpper(v)
    {
      var i :| OneEdit(w, v, i) && IsAlpha(w[i]) && v[i] == Upper(w[i]);
    }
  }

  /** A word with letters but no lower-case letter gets exactly one sibling per
      letter, that letter lower-cased, and each sibling has a lower-case letter. */
  lemma RepairOfNoLower(w: string)
    requires HasAlpha(w) && !HasLower(w)
    ensures |RepairOf(w)| == |AlphaPositions(w)|
    ensures forall v :: v in RepairOf(w) ==> exists i :: OneEdit(w, v, i) && IsUpper(w[i]) && v[i] == Lower(w[i])
    ensures forall i :: 0 <= i < |w| && IsAlpha(w[i]) ==> Edit(w, i, Lower(w[i])) in RepairOf(w)
    ensures forall v :: v in RepairOf(w) ==> HasLower(v)
  {
    assert HasUpper(w);
    assert RepairOf(w) == Siblings(w, Lower);
    SiblingsShape(w, Lower);
    forall v | v in RepairOf(w)
      ensures HasLower(v)
    {
      var i :| OneEdit(w, v, i) && IsAlpha(w[i]) && v[i] == Lower(w[i]);
    }
  }

  /** Two letters of a word of one case: changing the case of one of them
      leaves a word that mixes cases. */
  lemma RecasedMixes(w: string, v: string, i: int, j: int)
    requires OneEdit(w, v, i) && 0 <= j < |w| && j != i
    requires (IsLower(w[j]) && IsUpper(v[i])) || (IsUpper(w[j]) && IsLower(v[i]))
    ensures HasUpper(v) && HasLower(v)
  {
    assert v[j] == w[j];
  }

  /** Two case flips of a letter give back the letter. */
  lemma FlipBack(a: char, b: char, c: char)
    requires IsAlpha(a) && b != a && Lower(b) == Lower(a)
    requires c != b && Lower(c) == Lower(b)
    ensures c == a
  {
  }

  /** A word whose only letter sits at `i`: repairing the word with that
      letter's case flipped gives back the word. */
  lemma LoneLetterRepair(w: string, v: string, i: int)
    requires OneEdit(w, v, i) && IsAlpha(w[i]) && Lower(v[i]) == Lower(w[i])
    requires forall j :: 0 <= j < |w| && j != i ==> !IsAlpha(w[j])
    ensures RepairOf(v) <= {w}
  {
    RepairOfEdits(v);
    forall u | u in RepairOf(v)
      ensures u == w
    {
      var k :| OneEdit(v, u, k) && IsAlpha(v[k]) && Lower(u[k]) == Lower(v[k]);
      assert k == i;
      FlipBack(w[i], v[i], u[i]);
      assert forall n :: 0 <= n < |u| ==> u[n] == w[n];
    }
  }

  /** Repairing a repair sibling gives back at most the word it came from. */
  lemma RepairOfSibling(w: string, v: string)
    requires v in RepairOf(w)
    ensures RepairOf(v) <= {w}
  {
    RepairOfEdits(w);
    var i :| OneEdit(w, v, i) && IsAlpha(w[i]) && Lower(v[i]) == Lower(w[i]);
    if j :| 0 <= j < |w| && j != i && IsAlpha(w[j]) {
      if !HasUpper(w) {
        RepairOfNoUpper(w);
        var i' :| OneEdit(w, v, i') && IsLower(w[i']) && v[i'] == Upper(w[i']);
        OneEditUnique(w, v, i, i');
        RecasedMixes(w, v, i, j);
      } else {
        assert !HasLower(w);
        RepairOfNoLower(w);
        var i' :| OneEdit(w, v, i') && IsUpper(w[i']) && v[i'] == Lower(w[i']);
        OneEditUnique(w, v, i, i');
        RecasedMixes(w, v, i, j);
      }
      RepairOfEdits(v);
    } else {
      LoneLetterRepair(w, v, i);
    }
  }

  /** The repaired set is closed under a further repair pass: feeding the
      siblings back would add nothing. */
  lemma RepairClosed(s: set<string>)
    ensures Repair(s + Repair(s)) <= s + Repair(s)
  {
    forall v | v in Repair(s + Repair(s))
      ensures v in s + Repair(s)
    {
      var w :| w in s + Repair(s) && v in RepairOf(w);
      if w !in s {
        var w0 :| w0 in s && w in RepairOf(w0);
        RepairOfSibling(w0, w);
      }
    }
  }

  /** A word with letters, together with its repair siblings, has a word with an
      upper-case letter and a word with a lower-case letter. */
  lemma RepairCoverage(w: string)
    requires HasAlpha(w)
    ensures exists u :: u in {w} + RepairOf(w) && HasUpper(u)
    ensures exists l :: l in {w} + RepairOf(w) && HasLower(l)
  {
    var i :| 0 <= i < |w| && IsAlpha(w[i]);
    if !HasUpper(w) {
      RepairOfNoUpper(w);
      assert Edit(w, i, Upper(w[i])) in RepairOf(w);
    }
    if !HasLower(w) {
      RepairOfNoLower(w);
      assert Edit(w, i, Lower(w[i])) in RepairOf(w);
    }
  }

  // Lengths and trailing symbols through the stages.

  /** A finished variant: at least nine characters, the last `!` or `#`. */
  predicate Terminated(w: string) {
    |w| >= 9 && (w[|w| - 1] == '!' || w[|w| - 1] == '#')
  }

  lemma VowelStageKeepsLength(cv: string)
    ensures forall v :: v in VowelStage(cv) ==> |v| == |cv|
  {
    SubstitutionsKeepLength(cv);
    assert forall lv :: lv in LeetStage(cv) ==> |lv| == |cv|;
    forall v | v in VowelStage(cv)
      ensures |v| == |cv|
    {
      var lv :| lv in LeetStage(cv) && v in MutateVowels(lv) + {lv};
      if v != lv {
        SubstitutionsKeepLength(lv);
      }
    }
  }

  lemma PadStageLength(cv: string)
    ensures forall pv :: pv in PadStage(cv) ==> |pv| >= 8
  {
    forall pv | pv in PadStage(cv)
      ensures |pv| >= 8
    {
      var vv :| vv in VowelStage(cv) && pv in PadPassword(vv);
      PadPasswordShape(vv);
    }
  }

  lemma EndWithSymbolTerminated(x: string)
    requires |x| >= 8
    ensures forall q :: q in EndWithSymbol(x) ==> Terminated(q)
  {
    EndWithSymbolShape(x);
    forall q | q in EndWithSymbol(x)
      ensures Terminated(q)
    {
      assert [q[|x|]] == END_SYMBOLS[0] || [q[|x|]] == END_SYMBOLS[1];
    }
  }

  lemma SymbolStageTerminated(cv: string)
    ensures forall q :: q in SymbolStage(cv) ==> Terminated(q)
  {
    PadStageLength(cv);
    forall pv | pv in PadStage(cv)
      ensures forall q :: q in EndWithSymbol(pv) ==> Terminated(q)
      ensures forall av, q :: av in SubstituteAt(pv) && q in EndWithSymbol(av) ==> Terminated(q)
    {
      EndWithSymbolTerminated(pv);
      SubstitutionsKeepLength(pv);
      forall av | av in SubstituteAt(pv)
        ensures forall q :: q in EndWithSymbol(av) ==> Terminated(q)
      {
        EndWithSymbolTerminated(av);
      }
    }
  }

  lemma AccumulatedTerminated(base: string)
    requires |base| > 0
    ensures forall q :: q in Accumulated(base) ==> Terminated(q)
  {
    forall q | q in Accumulated(base)
      ensures Terminated(q)
    {
      var cv :| cv in EnsureCase(base) && q in SymbolStage(cv);
      SymbolStageTerminated(cv);
    }
  }

  /** Changing a letter keeps the trailing symbol and the length. */
  lemma LetterEditKeepsTerminated(w: string, v: string, i: int)
    requires Terminated(w) && OneEdit(w, v, i) && IsAlpha(w[i])
    ensures Terminated(v)
  {
    assert i != |w| - 1;
    assert v[|v| - 1] == w[|w| - 1];
  }

  /** Repair only touches letters, so it keeps the trailing symbol and the length. */
  lemma RepairOfKeepsTerminated(w: string)
    requires Terminated(w)
    ensures forall v :: v in RepairOf(w) ==> Terminated(v)
  {
    RepairOfEdits(w);
    forall v | v in RepairOf(w)
      ensures Terminated(v)
    {
      var i :| OneEdit(w, v, i) && IsAlpha(w[i]) && Lower(v[i]) == Lower(w[i]);
      LetterEditKeepsTerminated(w, v, i);
    }
  }

  lemma RepairKeepsTerminated(s: set<string>)
    requires forall w :: w in s ==> Terminated(w)
    ensures forall v :: v in Repair(s) ==> Terminated(v)
  {
    forall v | v in Repair(s)
      ensures Terminated(v)
    {
      var w :| w in s && v in RepairOf(w);
      RepairOfKeepsTerminated(w);
    }
  }

  // What generate_all_variants returns.

  /** A blank line yields no variants. */
  lemma GenerateAllVariantsBlank(word: string)
    requires forall k :: 0 <= k < |word| ==> IsSpace(word[k])
    ensures GenerateAllVariants(word) == {}
  {
    StripEmptyIffBlank(word);
  }

  /** `main` hands over each line with its newline; stripping first would make
      no difference to the variants. */
  lemma GenerateAllVariantsStripped(word: string)
    ensures GenerateAllVariants(Strip(word)) == GenerateAllVariants(word)
  {
    StripIdempotent(word);
  }

  /** Every variant has at least nine characters and ends with `!` or `#`. */
  lemma VariantsTerminated(base: string)
    ensures forall w :: w in Variants(base) ==> Terminated(w)
  {
    if base != [] {
      AccumulatedTerminated(base);
      RepairKeepsTerminated(Accumulated(base));
    }
  }

  /** Every symbol variant of every case variant is returned, together with
      all its repair siblings, and the result is closed under the repair pass. */
  lemma VariantsRepaired(base: string)
    requires base != []
    ensures Accumulated(base) <= Variants(base)
    ensures forall w :: w in Accumulated(base) ==> RepairOf(w) <= Variants(base)
    ensures Repair(Variants(base)) <= Variants(base)
  {
    RepairClosed(Accumulated(base));
  }

  /** Every returned word with letters has, among itself and its repair
      siblings, all of them returned, one with an upper-case and one with a
      lower-case letter. */
  lemma VariantsCaseCoverage(base: string)
    requires base != []
    ensures forall w :: w in Variants(base) && HasAlpha(w) ==>
              (exists u :: u in Variants(base) && u in {w} + RepairOf(w) && HasUpper(u))
    ensures forall w :: w in Variants(base) && HasAlpha(w) ==>
              (exists l :: l in Variants(base) && l in {w} + RepairOf(w) && HasLower(l))
  {
    VariantsRepaired(base);
    forall w | w in Variants(base) && HasAlpha(w)
      ensures exists u :: u in Variants(base) && u in {w} + RepairOf(w) && HasUpper(u)
      ensures exists l :: l in Variants(base) && l in {w} + RepairOf(w) && HasLower(l)
    {
      RepairCoverage(w);
      assert RepairOf(w) <= Repair(Variants(base));
    }
  }

  /** A word of three or more characters always yields variants. */
  lemma VariantsNonEmpty(base: string)
    requires |base| >= 3
    ensures Variants(base) != {}
  {
    EnsureCaseShape(base);
    PadPasswordEmptyIff(base);
    var pv :| pv in PadPassword(base);
    EndWithSymbolShape(pv);
    var q :| q in EndWithSymbol(pv);
    assert base in LeetStage(base);
    assert base in MutateVowels(base) + {base};
    assert base in VowelStage(base);
    assert pv in PadStage(base);
    assert q in SymbolStage(base);
    assert q in Accumulated(base);
  }

  /** A character that is not a digit and whose lower-case form is a key of
      neither substitution table, such as `b`: no stage replaces it, and a word
      holding it is never all digits. */
  predicate Unreplaceable(c: char) {
    !IsDigit(c) && Lower(c) !in LEET_MAP && Lower(c) !in VOWEL_MUTATE
  }

  /** Case variants keep an unreplaceable character unreplaceable. */
  lemma EnsureCaseKeepsUnreplaceable(base: string, cv: string, k: int)
    requires |base| > 0 && cv in EnsureCase(base)
    requires 0 <= k < |base| && Unreplaceable(base[k])
    ensures |cv| == |base| && Unreplaceable(cv[k])
  {
    EnsureCaseShape(base);
    if k == 0 {
      CaseRoundTrip(base[0]);
    } else {
      assert cv[k] == cv[1..][k - 1] == base[1..][k - 1];
    }
  }

  /** An unreplaceable character stays where it is through the leetspeak and vowel
      stages. */
  lemma LeetStageKeepsUnreplaceable(cv: string, k: int)
    requires 0 <= k < |cv| && Unreplaceable(cv[k])
    ensures forall lv :: lv in LeetStage(cv) ==> |lv| == |cv| && lv[k] == cv[k]
  {
    LeetTableWellFormed();
    SubstituteKeepsOthers(cv, LEET_MAP, k);
  }

  lemma VowelStageKeepsUnreplaceable(cv: string, k: int)
    requires 0 <= k < |cv| && Unreplaceable(cv[k])
    ensures forall v :: v in VowelStage(cv) ==> |v| == |cv| && v[k] == cv[k]
  {
    LeetStageKeepsUnreplaceable(cv, k);
    VowelTableWellFormed();
    forall v | v in VowelStage(cv)
      ensures |v| == |cv| && v[k] == cv[k]
    {
      var lv :| lv in LeetStage(cv) && v in MutateVowels(lv) + {lv};
      if v != lv {
        SubstituteKeepsOthers(lv, VOWEL_MUTATE, k);
      }
    }
  }

  /** No padding reaches 8 characters for a vowel variant of at most two
      characters holding an unreplaceable one. */
  lemma ShortPadStageEmpty(cv: string, k: int)
    requires |cv| <= 2 && 0 <= k < |cv| && Unreplaceable(cv[k])
    ensures PadStage(cv) == {}
  {
    VowelStageKeepsUnreplaceable(cv, k);
    forall vv | vv in VowelStage(cv)
      ensures PadPassword(vv) == {}
    {
      assert !IsDigits(vv);
      PadPasswordEmptyIff(vv);
    }
  }

  /** A word of one or two characters, one of which is neither a digit nor
      replaced by any stage, yields no variants at all: no pad brings it to
      8 characters. */
  lemma ShortWordVanishes(base: string, k: int)
    requires 0 < |base| <= 2
    requires 0 <= k < |base| && Unreplaceable(base[k])
    ensures Variants(base) == {}
  {
    forall cv | cv in EnsureCase(base)
      ensures SymbolStage(cv) == {}
    {
      EnsureCaseKeepsUnreplaceable(base, cv, k);
      ShortPadStageEmpty(cv, k);
    }
    assert Accumulated(base) == {};
  }

  /** A case variant of one character has no padding: even the longest pad,
      six characters, leaves it at seven. */
  lemma OneCharPadStageEmpty(cv: string)
    requires |cv| == 1
    ensures PadStage(cv) == {}
  {
    VowelStageKeepsLength(cv);
    forall vv | vv in VowelStage(cv)
      ensures PadPassword(vv) == {}
    {
      PadPasswordEmptyIff(vv);
    }
  }

  /** Every word of one character, `"7"` or `"e"` as much as `"b"`, yields no
      variants at all. */
  lemma OneCharWordVanishes(base: string)
    requires |base| == 1
    ensures Variants(base) == {}
  {
    EnsureCaseShape(base);
    forall cv | cv in EnsureCase(base)
      ensures SymbolStage(cv) == {}
    {
      OneCharPadStageEmpty(cv);
    }
    assert Accumulated(base) == {};
  }

  /** A line such as `"ab"` or `" Hi "` yields nothing at all: once stripped it is
      at most two characters long and one of them is unreplaceable. */
  lemma ShortLineVanishes(word: string, k: int)
    requires 0 < |Strip(word)| <= 2
    requires 0 <= k < |Strip(word)| && Unreplaceable(Strip(word)[k])
    ensures GenerateAllVariants(word) == {}
  {
    ShortWordVanishes(Strip(word), k);
  }

  // The loops as written.

  /** One more case variant done: its symbol variants join `results`. */
  lemma UnionStagesStep(caseVars: set<string>, todo: set<string>, cv: string)
    requires cv in todo && todo <= caseVars
    ensures UnionStages(caseVars - (todo - {cv})) == UnionStages(caseVars - todo) + SymbolStage(cv)
  {
    assert caseVars - (todo - {cv}) == (caseVars - todo) + {cv};
  }

  lemma RepairAdd(s: set<string>, w: string)
    ensures Repair(s + {w}) == Repair(s) + RepairOf(w)
  {
  }

  /** Lines 130-148: `final_results` starts as a copy of `results` and gains
      the repair siblings of every word of `results`. */
  method RepairPass(results: set<string>) returns (finalResults: set<string>)
    ensures finalResults == results + Repair(results)
  {
    finalResults := results;
    var pending := results;
    while pending != {}
      invariant pending <= results
      invariant finalResults == results + Repair(results - pending)
      decreases pending
    {
      var w :| w in pending;
      RepairAdd(results - pending, w);
      assert results - (pending - {w}) == (results - pending) + {w};
      pending := pending - {w};
      finalResults := finalResults + RepairOf(w);
    }
    assert results - pending == results;
  }

  /** Lines 99-150 for a non-empty stripped word: for each case variant, add
      its symbol variants to `results`, then rebuild `final_results` by the
      repair pass over all of `results`. The set returned after the last case
      variant is the accumulated set with its repair siblings. */
  method VariantsLoop(base: string) returns (finalResults: set<string>)
    requires |base| > 0
    ensures finalResults == Variants(base)
  {
    var caseVars := EnsureCase(base);
    assert base in caseVars by {
      EnsureCaseShape(base);
    }
    var results: set<string> := {};
    finalResults := {};
    var todo := caseVars;
    while todo != {}
      invariant todo <= caseVars
      invariant results == UnionStages(caseVars - todo)
      invariant todo != caseVars ==> finalResults == results + Repair(results)
      decreases todo
    {
      var cv :| cv in todo;
      UnionStagesStep(caseVars, todo, cv);
      todo := todo - {cv};
      results := results + SymbolStage(cv);
      finalResults := RepairPass(results);
    }
    assert caseVars - todo == caseVars;
    assert results == Accumulated(base);
  }

  /** The union of `f` over the lines, taken in order. */
  function UnionOver(lines: seq<string>, f: string -> set<string>): set<string> {
    if lines == [] then {}
    else UnionOver(lines[..|lines| - 1], f) + f(lines[|lines| - 1])
  }

  /** A word is in the union exactly when some line gives it. */
  lemma {:induction false} UnionOverContents(lines: seq<string>, f: string -> set<string>)
    ensures forall w :: w in UnionOver(lines, f) <==> exists i :: 0 <= i < |lines| && w in f(lines[i])
  {
    if lines != [] {
      var init := lines[..|lines| - 1];
      UnionOverContents(init, f);
      forall w | w in UnionOver(lines, f)
        ensures exists i :: 0 <= i < |lines| && w in f(lines[i])
      {
        if w !in f(lines[|lines| - 1]) {
          assert w in UnionOver(init, f);
          var i :| 0 <= i < |init| && w in f(init[i]);
          assert lines[i] == init[i];
        }
      }
      forall w, i | 0 <= i < |lines| && w in f(lines[i])
        ensures w in UnionOver(lines, f)
      {
        if i < |init| {
          assert init[i] == lines[i];
        }
      }
    }
  }

  /** The union the command line writes out (lines 160-165): the variants of
      every line of the wordlist. */
  function Wordlist(lines: seq<string>): set<string> {
    UnionOver(lines, GenerateAllVariants)
  }

  /** Every word written out is a finished variant of some line, and every
      variant of every line is written out. */
  lemma WordlistContents(lines: seq<string>)
    ensures forall w :: w in Wordlist(lines) <==>
              exists i :: 0 <= i < |lines| && w in GenerateAllVariants(lines[i])
    ensures forall w :: w in Wordlist(lines) ==> Terminated(w)
  {
    UnionOverContents(lines, GenerateAllVariants);
    forall w | w in Wordlist(lines)
      ensures Terminated(w)
    {
      var i :| 0 <= i < |lines| && w in GenerateAllVariants(lines[i]);
      VariantsTerminated(Strip(lines[i]));
    }
  }

  /** `generate_all_variants` with the loops of the source. */
  method GenerateAllVariantsLoop(word: string) returns (r: set<string>)
    ensures r == GenerateAllVariants(word)
  {
    var base := Strip(word);
    if base == [] {
      r := {};
    } else {
      r := VariantsLoop(base);
    }
  }

  /** Lines 160-165: `out` gains the variants of each line in turn. */
  method WordlistLoop(lines: seq<string>) returns (out: set<string>)
    ensures out == Wordlist(lines)
  {
    out := {};
    var n := 0;
    while n < |lines|
      invariant 0 <= n <= |lines|
      invariant out == Wordlist(lines[..n])
    {
      var variants := GenerateAllVariantsLoop(lines[n]);
      WordlistStep(lines, n);
      out := out + variants;
      n := n + 1;
    }
    assert lines[..n] == lines;
  }

  /** One more line read: its variants join the union. */
  lemma WordlistStep(lines: seq<string>, n: nat)
    requires n < |lines|
    ensures Wordlist(lines[..n + 1]) == Wordlist(lines[..n]) + GenerateAllVariants(lines[n])
  {
    assert lines[..n + 1][..n] == lines[..n];
  }
}
