# genpass mutation pipeline in Dafny

This project models the password-variant generator `genpass.py`. The generator
reads a wordlist and expands every seed word into a set of candidate passwords.
It runs a fixed chain of string transforms on each stripped word:

1. `ensure_case` always keeps the word. When the word has no upper-case letter
   it also adds the word with its first character upper-cased. When it has no
   lower-case letter it also adds the word with its first character
   lower-cased.
2. `apply_leetspeak` and `mutate_vowels` each replace one character using a
   table.
3. `pad_password` keeps the word only when it already has 8 or more
   characters, and adds each padding of it that reaches 8 characters. The pads
   are text when the word is all digits and numbers otherwise. The result can
   be empty.
4. `end_with_symbol` appends `!` or `#`.
5. `substitute_at` replaces one `a`/`A` with `@`.

A final repair pass then gives every variant that has letters of only one case
some siblings, each with a single letter's case changed.

Every stage is a pure function from a string to a set of strings. The source's
`for i, c in enumerate(p)` loops are written as set comprehensions over
positions.

The modules are:

- `Chars` holds ASCII character classes, case mapping and `strip`.
- `Tables` holds the constant pad lists, symbols and substitution tables.
- `Edits` holds single-position edits and a counting lemma for them.
- `Stages` holds the six stage functions and their contracts.
- `Pipeline` holds `generate_all_variants` and the union over a wordlist.

`Pipeline` states the returned set as `R + Repair(R)`. Here `R` is the set of
symbol-terminated variants gathered over all case variants. Three loops of the
source are also written as loops:

- `VariantsLoop` is the `for cv in case_vars` loop (genpass.py line 104). Its
  body adds the symbol variants of one case variant, the set comprehension
  `SymbolStage` (steps 2-6, lines 105-127), to `results`. It then rebuilds
  `final_results` with `RepairPass`.
- `RepairPass` is the loop over `list(results)` (lines 130-148).
- `WordlistLoop` is the loop over the lines of the input file (lines 163-165).

Each loop is proved to return exactly the set-level definition.
`GenerateAllVariantsLoop` adds the strip and the empty-word short-circuit in
front of `VariantsLoop`.

Character semantics are ASCII only:

- Letters are `A`-`Z` and `a`-`z`.
- Digits are `0`-`9`.
- Whitespace is the ASCII set that Python's `str.isspace` accepts: space, tab,
  line feed, vertical tab, form feed, carriage return, and `0x1c`-`0x1f`.
- Case mapping changes only ASCII letters.
- Every other character is neither a letter, a digit nor whitespace, and case
  mapping leaves it unchanged.

Some consequences of the code:

- `apply_leetspeak("cat")` is `{"c4t", "c@t", "ca7"}`. Each substitution edits
  one position in place and keeps every other character (`Stages.LeetspeakCat`).
- `ensure_case` only ever changes the first character. When that character is
  not a letter, no variant is added and the result is just the word
  (`Stages.EnsureCaseSingletonIff`).
- Some short words yield no variants at all. Every word of one character does,
  `"7"` and `"e"` included, because even the longest pad of six characters
  leaves it at seven (`Pipeline.OneCharWordVanishes`). So does every word of two
  characters of which one is not a digit and is not replaced by either table,
  such as `"ab"`, because the word never becomes all digits and the longest
  numeric pad has five characters (`Pipeline.ShortWordVanishes`,
  `Pipeline.ShortLineVanishes`). These are examples, not the full condition.
- Every returned variant has at least nine characters, so a form such as
  `"cat420!"` is never produced (`Pipeline.VariantsTerminated`).
- `final_results` is rebuilt from `results` on every case-variant iteration, and
  repair siblings are never fed back into `results`. So the returned set is the
  accumulated set together with its repair siblings. That set is closed under a
  further repair pass (`Pipeline.RepairClosed`).

## Model

| member | source | states |
|---|---|---|
| `Chars.Upper` | genpass.py:38 | `str.upper` on one character: a lower-case letter becomes the upper-case form of the same letter, which `Lower` maps back to it; anything else is unchanged; being a letter is preserved |
| `Chars.Lower` | genpass.py:41 | `str.lower` on one character: an upper-case letter becomes the lower-case letter at the same position of the alphabet; anything else is unchanged; being a letter is preserved |
| `Chars.HasUpper` | genpass.py:30 | `any(c.isupper() for c in password)`, also at line 139; its meaning is used by `EnsureCaseCases`, `EnsureCaseSingletonIff`, `RepairOfNoUpper` and `RepairCoverage` |
| `Chars.HasLower` | genpass.py:31 | `any(c.islower() for c in password)`, also at line 145; its meaning is used by `EnsureCaseCases`, `EnsureCaseSingletonIff`, `RepairOfNoLower` and `RepairCoverage` |
| `Chars.HasAlpha` | genpass.py:135 | `any(ch.isalpha() for ch in w)`; `RepairOfEdits` states that a word without letters gets no siblings |
| `Chars.IsDigits` | genpass.py:48 | `p.isdigit()`, false for the empty word; `PadPasswordSuffixes` and `PadPasswordEmptyIff` state how it picks the pad list |
| `Chars.TrimStart` | genpass.py:95 | the result is a suffix of the line that does not start with whitespace, and everything cut off is whitespace |
| `Chars.TrimEnd` | genpass.py:95 | the result is a prefix of the line that does not end with whitespace, and everything cut off is whitespace |
| `Chars.StripIsInfix` | genpass.py:95 | `word.strip()` is a slice of the line whose cut-off ends are all whitespace and whose own ends are not whitespace |
| `Chars.StripEmptyIffBlank` | genpass.py:95-96 | the stripped line is empty exactly when every character of the line is whitespace |
| `Chars.Strip` | genpass.py:95 | `word.strip()`; its contract is carried by `StripIsInfix`, `StripEmptyIffBlank` and `StripIdempotent` |
| `Chars.StripIdempotent` | genpass.py:95 | stripping an already stripped line changes nothing, so the newline `main` leaves on each line does not affect its variants (`Pipeline.GenerateAllVariantsStripped`) |
| `Tables.LeetTableWellFormed` | genpass.py:9-16 | every leetspeak key is a lower-case letter with at least one replacement, and each replacement is one character that differs from the key in both cases |
| `Tables.VowelTableWellFormed` | genpass.py:19-25 | the same shape holds for the vowel table |
| `Tables.PadLengths` | genpass.py:4-5 | numeric pads have 2-5 characters and text pads 2-6; the longest of each list is `42069` and `qwerty` |
| `Tables.EndSymbolsShape` | genpass.py:6 | there are two distinct trailing symbols, each one non-letter character |
| `Edits.Edit` | genpass.py:70 | `p[:i] + c + p[i+1:]` keeps the length, puts `c` at `i` and keeps every other position |
| `Edits.OneEditUnique` | genpass.py:68-70 | a word that differs from `p` at exactly one position determines that position |
| `Edits.EditImageCard` | genpass.py:68-70 | editing distinct positions, each to a different character, gives as many distinct words as there are positions |
| `Stages.EnsureCase` | genpass.py:28-44 | `ensure_case`; its contract is carried by `EnsureCaseCases`, `EnsureCaseShape`, `EnsureCaseSingletonIff` and `EnsureCaseCoverage` |
| `Stages.EnsureCaseCases` | genpass.py:28-44 | the result is `{p}` when the word mixes cases or has neither case; otherwise it is `{p}` plus the word with its first character upper-cased (no upper case present) or lower-cased (no lower case present) |
| `Stages.EnsureCaseShape` | genpass.py:28-44 | the word is always kept; there are at most two variants; each has the word's length and agrees with it everywhere but index 0, where it holds the original, upper-cased or lower-cased first character |
| `Stages.EnsureCaseSingletonIff` | genpass.py:33-43 | the result is exactly `{p}` if and only if the word already mixes cases or its first character is not a letter |
| `Stages.EnsureCaseCoverage` | genpass.py:37-43 | when the first character is a letter, some variant has an upper-case letter and some variant has a lower-case letter |
| `Stages.Pads` | genpass.py:48 | the pad list choice; `PadPasswordSuffixes` states that suffixes come from `TEXT_PAD` for an all-digit word and from `NUM_PAD` otherwise, and that every pad reaching 8 characters is used |
| `Stages.PadPassword` | genpass.py:47-59 | `pad_password`; its contract is carried by `PadPasswordShape`, `PadPasswordLengthBound`, `PadPasswordSuffixes` and `PadPasswordEmptyIff` |
| `Stages.PadPasswordShape` | genpass.py:47-59 | every padded variant has at least 8 characters and starts with the word; the word itself is a variant if and only if it has 8 or more characters |
| `Stages.PadPasswordLengthBound` | genpass.py:48-57 | no padded variant exceeds the word plus the longest pad of the chosen list (6 for all-digit words, 5 otherwise) |
| `Stages.PadPasswordSuffixes` | genpass.py:48-57 | suffixes come only from the text pads for an all-digit word and only from the numeric pads otherwise; every pad reaching 8 characters is used |
| `Stages.PadPasswordEmptyIff` | genpass.py:47-59 | padding yields nothing if and only if the word plus the longest pad of its list is still shorter than 8 |
| `Stages.EndWithSymbol` | genpass.py:62-63 | `end_with_symbol`; its contract is carried by `EndWithSymbolShape` |
| `Stages.EndWithSymbolShape` | genpass.py:62-63 | there are exactly as many variants as trailing symbols, and a word is a variant if and only if it is `p` followed by one trailing symbol |
| `Stages.SubstituteAt` | genpass.py:66-71 | `substitute_at`; its contract is carried by `SubstituteAtEdits` and `SubstituteAtCount` |
| `Stages.SubstituteAtEdits` | genpass.py:66-71 | each variant differs from the word at exactly one position, which holds `a`/`A` in the word and `@` in the variant; every such replacement is a variant |
| `Stages.SubstituteAtCount` | genpass.py:66-71 | the number of variants equals the number of `a`/`A` positions, so there are none exactly when the word has no `a`/`A` |
| `Stages.Substitute` | genpass.py:76-80 | the substitution loop shared by `apply_leetspeak` and `mutate_vowels`; its contract is carried by `SubstituteEdits`, `SubstituteComplete`, `SubstituteExcludesWord` and `SubstituteKeepsOthers` |
| `Stages.ApplyLeetspeak` | genpass.py:74-81 | `apply_leetspeak`; its contract is carried by `ApplyLeetspeakFacts` and `LeetspeakCat` |
| `Stages.MutateVowels` | genpass.py:84-91 | `mutate_vowels`; its contract is carried by `MutateVowelsFacts` |
| `Stages.SubstituteEdits` | genpass.py:76-80 | each table substitution changes exactly one position, to a replacement listed for that character's lower-case form |
| `Stages.SubstituteComplete` | genpass.py:76-80 | every listed replacement at every position whose lower-cased character is a key is a variant |
| `Stages.SubstituteExcludesWord` | genpass.py:76-80 | the word itself is never a variant, and there are no variants if and only if no character is a key, ignoring case |
| `Stages.SubstituteKeepsOthers` | genpass.py:76-80 | a character whose lower-case form is not a key stays where it is in every variant |
| `Stages.ApplyLeetspeakFacts` | genpass.py:74-81 | the single-edit, completeness, word-excluded and empty-iff-no-key facts for the leetspeak table |
| `Stages.MutateVowelsFacts` | genpass.py:84-91 | the same four facts for the vowel table |
| `Stages.SubstitutionsKeepLength` | genpass.py:66-91 | leetspeak, vowel and `@` substitutions all keep the word's length |
| `Stages.LeetspeakCat` | genpass.py:74-81 | `apply_leetspeak("cat")` is exactly `{"c4t", "c@t", "ca7"}` |
| `Pipeline.RepairOf` | genpass.py:134-148 | the repair siblings of one word; its contract is carried by `RepairOfEdits`, `RepairOfNoUpper`, `RepairOfNoLower`, `RepairOfSibling` and `RepairCoverage` |
| `Pipeline.Repair` | genpass.py:130-148 | the repair pass over a set; its contract is carried by `RepairClosed`, `RepairKeepsTerminated` and `RepairPass` |
| `Pipeline.SiblingsShape` | genpass.py:140-148 | when the case change alters every letter, there is one sibling per letter position, each changing only that letter, and every letter position gives one |
| `Pipeline.RepairOfEdits` | genpass.py:134-148 | a word without letters, or with both cases, gets no siblings; every sibling changes the case of exactly one letter |
| `Pipeline.RepairOfNoUpper` | genpass.py:139-142 | a word with letters but no upper-case letter gets exactly one sibling per letter, with only that letter upper-cased, and each sibling has an upper-case letter |
| `Pipeline.RepairOfNoLower` | genpass.py:145-148 | a word with letters but no lower-case letter gets exactly one sibling per letter, with only that letter lower-cased, and each sibling has a lower-case letter |
| `Pipeline.RepairOfSibling` | genpass.py:130-148 | repairing a repair sibling gives back at most the word it came from |
| `Pipeline.RepairClosed` | genpass.py:130-148 | a second repair pass over the repaired set would add nothing |
| `Pipeline.RepairCoverage` | genpass.py:134-148 | a word with letters, together with its siblings, includes a word with an upper-case letter and a word with a lower-case letter |
| `Pipeline.LeetStage` | genpass.py:106-107 | `leet_vars`; `LeetStageKeepsUnreplaceable` states that an unreplaceable character (a non-digit whose lower-case form is no table key) stays in place, and `ApplyLeetspeakFacts` describes the added variants |
| `Pipeline.VowelStage` | genpass.py:110-113 | `vowel_vars`; its contract is carried by `VowelStageKeepsLength` and `VowelStageKeepsUnreplaceable` |
| `Pipeline.PadStage` | genpass.py:116-118 | `padded_vars`; its contract is carried by `PadStageLength` and `ShortPadStageEmpty` |
| `Pipeline.SymbolStage` | genpass.py:121-127 | what one case variant adds to `results`; its contract is carried by `SymbolStageTerminated` |
| `Pipeline.UnionStages` | genpass.py:104-127 | `results` after the given case variants; `VariantsLoop` keeps it as its loop invariant |
| `Pipeline.Accumulated` | genpass.py:99-127 | `results` after all case variants; its contract is carried by `AccumulatedTerminated`, `VariantsRepaired` and `VariantsLoop` |
| `Pipeline.VowelStageKeepsLength` | genpass.py:106-113 | every leetspeak and vowel variant of a case variant has its length |
| `Pipeline.PadStageLength` | genpass.py:116-118 | every padded variant has at least 8 characters |
| `Pipeline.SymbolStageTerminated` | genpass.py:121-127 | every symbol variant, with or without `@` substitution, has at least 9 characters and ends with `!` or `#` |
| `Pipeline.AccumulatedTerminated` | genpass.py:99-127 | everything accumulated over all case variants has at least 9 characters and ends with `!` or `#` |
| `Pipeline.RepairOfKeepsTerminated` | genpass.py:139-148 | a repair sibling of a finished variant keeps its length and trailing symbol |
| `Pipeline.RepairKeepsTerminated` | genpass.py:130-148 | the repair pass over finished variants yields finished variants |
| `Pipeline.Variants` | genpass.py:99-150 | `generate_all_variants` after the strip; its contract is carried by `VariantsTerminated`, `VariantsRepaired`, `VariantsCaseCoverage`, `VariantsNonEmpty`, `ShortWordVanishes`, `OneCharWordVanishes` and `VariantsLoop` |
| `Pipeline.GenerateAllVariants` | genpass.py:94-150 | `generate_all_variants`; its contract is carried by `GenerateAllVariantsBlank`, `GenerateAllVariantsStripped`, `ShortLineVanishes` and `GenerateAllVariantsLoop` |
| `Pipeline.GenerateAllVariantsBlank` | genpass.py:94-97 | an empty or whitespace-only line yields no variants |
| `Pipeline.GenerateAllVariantsStripped` | genpass.py:95 | a line and its stripped form have the same variants |
| `Pipeline.VariantsTerminated` | genpass.py:99-150 | every returned variant has at least 9 characters and ends with `!` or `#` |
| `Pipeline.VariantsRepaired` | genpass.py:129-150 | every accumulated symbol variant is returned along with all its repair siblings, and the result is closed under repair |
| `Pipeline.VariantsCaseCoverage` | genpass.py:129-150 | every returned word with letters has, among itself and its returned siblings, one word with an upper-case and one with a lower-case letter |
| `Pipeline.VariantsNonEmpty` | genpass.py:99-127 | a stripped word of three or more characters yields at least one variant |
| `Pipeline.ShortWordVanishes` | genpass.py:99-127 | a stripped word of one or two characters, one of which is unreplaceable (not a digit, and its lower-case form is a key of neither substitution table, such as `b`), yields no variants |
| `Pipeline.OneCharWordVanishes` | genpass.py:99-127 | every stripped word of one character yields no variants, whatever the character |
| `Pipeline.ShortLineVanishes` | genpass.py:94-127 | a line that strips to such a word yields no variants |
| `Pipeline.RepairPass` | genpass.py:130-148 | the loop over `list(results)` returns `results` together with the repair siblings of all its words |
| `Pipeline.VariantsLoop` | genpass.py:99-150 | the `for cv` loop, which adds `SymbolStage(cv)` to `results` and rebuilds `final_results` with `RepairPass` each time, returns the accumulated set together with its repair siblings |
| `Pipeline.GenerateAllVariantsLoop` | genpass.py:94-150 | the looped `generate_all_variants` equals the set-level definition for every line |
| `Pipeline.UnionOverContents` | genpass.py:160-165 | a word is in the union over the lines exactly when some line gives it |
| `Pipeline.Wordlist` | genpass.py:160-165 | the union `main` collects; its contract is carried by `WordlistContents` and `WordlistLoop` |
| `Pipeline.WordlistContents` | genpass.py:160-165 | the collected output holds exactly the variants of the lines, and every one has at least 9 characters and ends with `!` or `#` |
| `Pipeline.WordlistLoop` | genpass.py:160-165 | adding each line's variants in turn gives the union over all lines |
| `Pipeline.WordlistStep` | genpass.py:163-165 | reading one more line adds exactly that line's variants to the union |

## Left out

- Most of `main` (genpass.py:152-177) is left out: argument checking,
  `sys.exit`, opening and decoding the input file, sorting, writing
  `output.txt` and the status message are all I/O. Only the union over the lines
  is modelled (`Pipeline.Wordlist`), with the lines given as a sequence.
- Unicode semantics of `isupper`, `islower`, `isalpha`, `isdigit`, `upper`,
  `lower` and `strip` are left out. Characters outside ASCII are neither
  letters, digits nor whitespace, and whitespace is Python's ASCII set.
- The blank-line return value `[]` (genpass.py:97) is modelled as the empty set.
  The caller only takes a union of it, so the list-versus-set difference has no
  effect.
- Set iteration order is left out. The loops over sets (`for cv in case_vars`
  and `for w in list(results)`) pick an arbitrary element at each step, and the
  proofs show the result does not depend on the order. The loop over the lines
  goes through them in order.
- The exact size of a word's whole variant set is left out. It grows
  combinatorially. The per-stage counts are stated instead
  (`Stages.EndWithSymbolShape`, `Stages.SubstituteAtCount`,
  `Pipeline.RepairOfNoUpper`, `Pipeline.RepairOfNoLower`).
- `Stages.EnsureCase` requires a non-empty word, because the source indexes
  `password[0]`. Its only caller strips the line and skips empty results first.
