/**
  The constant tables of the generator: the two pad lists, the trailing
  symbols, and the two substitution tables from a lower-case letter to its
  replacement strings (genpass.py lines 4-25).
 */
module Tables {
  import opened Chars

  /** Pads for words that are not all digits. */
  const NUM_PAD: seq<string> := ["123", "999", "777", "666", "333", "111", "420", "69", "42069", "6969", "321"]

  /** Pads for words that are all digits. */
  const TEXT_PAD: seq<string> := ["asdf", "qwerty", "xoxo", "xo", "xox"]

  const END_SYMBOLS: seq<string> := ["!", "#"]

  const LEET_MAP: map<char, seq<string>> :=
    map['a' := ["4", "@"], 'e' := ["3"], 'i' := ["1", "!"], 'o' := ["0"], 's' := ["5"], 't' := ["7"]]

  const VOWEL_MUTATE: map<char, seq<string>> :=
    map['a' := ["4", "@"], 'e' := ["3"], 'i' := ["1"], 'o' := ["0"], 'u' := ["v"]]

  /** A substitution table keyed by lower-case letters, each with at least one
      replacement, whose every replacement
      is one character that differs from the key in either case. */
  predicate WellFormedTable(t: map<char, seq<string>>) {
    forall k :: k in t ==>
      && IsLower(k)
      && |t[k]| > 0
      && forall rep :: rep in t[k] ==> |rep| == 1 && rep[0] != k && rep[0] != Upper(k)
  }

  lemma LeetTableWellFormed()
    ensures WellFormedTable(LEET_MAP)
  {
    forall k | k in LEET_MAP
      ensures IsLower(k) && |LEET_MAP[k]| > 0
      ensures forall rep :: rep in LEET_MAP[k] ==> |rep| == 1 && rep[0] != k && rep[0] != Upper(k)
    {
      if k == 'a' {
        assert LEET_MAP[k] == ["4", "@"];
      } else if k == 'e' {
        assert LEET_MAP[k] == ["3"];
      } else if k == 'i' {
        assert LEET_MAP[k] == ["1", "!"];
      } else if k == 'o' {
        assert LEET_MAP[k] == ["0"];
      } else if k == 's' {
        assert LEET_MAP[k] == ["5"];
      } else {
        assert k == 't' && LEET_MAP[k] == ["7"];
      }
    }
  }

  lemma VowelTableWellFormed()
    ensures WellFormedTable(VOWEL_MUTATE)
  {
    forall k | k in VOWEL_MUTATE
      ensures IsLower(k) && |VOWEL_MUTATE[k]| > 0
      ensures forall rep :: rep in VOWEL_MUTATE[k] ==> |rep| == 1 && rep[0] != k && rep[0] != Upper(k)
    {
      if k == 'a' {
        assert VOWEL_MUTATE[k] == ["4", "@"];
      } else if k == 'e' {
        assert VOWEL_MUTATE[k] == ["3"];
      } else if k == 'i' {
        assert VOWEL_MUTATE[k] == ["1"];
      } else if k == 'o' {
        assert VOWEL_MUTATE[k] == ["0"];
      } else {
        assert k == 'u' && VOWEL_MUTATE[k] == ["v"];
      }
    }
  }

  /** Every pad is non-empty; the longest numeric pad has 5 characters and the
      longest text pad 6. */
  lemma PadLengths()
    ensures forall pad :: pad in NUM_PAD ==> 2 <= |pad| <= 5
    ensures forall pad :: pad in TEXT_PAD ==> 2 <= |pad| <= 6
    ensures "42069" in NUM_PAD && "qwerty" in TEXT_PAD
  {
  }

  /** The trailing symbols are two distinct one-character strings. */
  lemma EndSymbolsShape()
    ensures |END_SYMBOLS| == 2
    ensures forall sym :: sym in END_SYMBOLS ==> |sym| == 1 && !IsAlpha(sym[0])
    ensures END_SYMBOLS[0] != END_SYMBOLS[1]
  {
  }
}
