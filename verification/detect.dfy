/** `detect_direction` and `fix_layout` (main.py, lines 176-218): count the
    letters of each alphabet, pick a direction, and translate with the matching
    table. */
module Detect {
  import opened Layout

  /** `RU_CHARS`: the 64 Cyrillic letters а-я and А-Я in keyboard order,
      written as its lower-case and upper-case halves. `ё` and `Ё` are not
      among them, although both tables map them. */
  const RU_CHARS: string := "йцукенгшщзхъфывапролджэячсмитьбю" + "ЙЦУКЕНГШЩЗХЪФЫВАПРОЛДЖЭЯЧСМИТЬБЮ"
  /** `EN_CHARS`: the 52 Latin letters in keyboard order, in two halves. */
  const EN_CHARS: string := "qwertyuiopasdfghjklzxcvbnm" + "QWERTYUIOPASDFGHJKLZXCVBNM"

  predicate IsCyrillicLetter(c: char) {
    'А' <= c <= 'я'
  }

  predicate IsLatinLetter(c: char) {
    'a' <= c <= 'z' || 'A' <= c <= 'Z'
  }

  /** The key of the Latin layout that carries the k-th lower-case letter of
      `EN_CHARS`: the letters skip the bracket, semicolon, quote and comma keys. */
  function LetterKey(k: int): int {
    if k < 10 then k else if k < 19 then k + 2 else k + 4
  }

  // Facts about single positions of the literal rows, in small runs for the
  // same reason as the runs in `Layout`: each run is cheap to evaluate, one
  // quantifier over a whole row is not.
  lemma CyrillicChars0() ensures forall k | 0 <= k < 16 :: IsCyrillicLetter(RU_CHARS[k]) {}
  lemma CyrillicChars16() ensures forall k | 16 <= k < 32 :: IsCyrillicLetter(RU_CHARS[k]) {}
  lemma CyrillicChars32() ensures forall k | 32 <= k < 48 :: IsCyrillicLetter(RU_CHARS[k]) {}
  lemma CyrillicChars48() ensures forall k | 48 <= k < 64 :: IsCyrillicLetter(RU_CHARS[k]) {}

  lemma LatinChars0() ensures forall k | 0 <= k < 13 :: IsLatinLetter(EN_CHARS[k]) {}
  lemma LatinChars13() ensures forall k | 13 <= k < 26 :: IsLatinLetter(EN_CHARS[k]) {}
  lemma LatinChars26() ensures forall k | 26 <= k < 39 :: IsLatinLetter(EN_CHARS[k]) {}
  lemma LatinChars39() ensures forall k | 39 <= k < 52 :: IsLatinLetter(EN_CHARS[k]) {}

  lemma CyrillicRows0() ensures forall k | 0 <= k < 8 :: RU_CHARS[k] == RU[k] && RU_CHARS[k + 32] == RU_UPPER[k] {}
  lemma CyrillicRows8() ensures forall k | 8 <= k < 16 :: RU_CHARS[k] == RU[k] && RU_CHARS[k + 32] == RU_UPPER[k] {}
  lemma CyrillicRows16() ensures forall k | 16 <= k < 24 :: RU_CHARS[k] == RU[k] && RU_CHARS[k + 32] == RU_UPPER[k] {}
  lemma CyrillicRows24() ensures forall k | 24 <= k < 32 :: RU_CHARS[k] == RU[k] && RU_CHARS[k + 32] == RU_UPPER[k] {}

  lemma LatinLower0() ensures forall k | 0 <= k < 10 :: EN_CHARS[k] == EN[LetterKey(k)] {}
  lemma LatinUpper0() ensures forall k | 0 <= k < 10 :: EN_CHARS[k + 26] == EN_UPPER[LetterKey(k)] {}
  lemma LatinLower10() ensures forall k | 10 <= k < 19 :: EN_CHARS[k] == EN[LetterKey(k)] {}
  lemma LatinUpper10() ensures forall k | 10 <= k < 19 :: EN_CHARS[k + 26] == EN_UPPER[LetterKey(k)] {}
  lemma LatinLower19() ensures forall k | 19 <= k < 26 :: EN_CHARS[k] == EN[LetterKey(k)] {}
  lemma LatinUpper19() ensures forall k | 19 <= k < 26 :: EN_CHARS[k + 26] == EN_UPPER[LetterKey(k)] {}
  lemma RuRowsNotLatin0() ensures forall k | 0 <= k < 10 :: !IsLatinLetter(RU[k]) && !IsLatinLetter(RU_UPPER[k]) {}
  lemma RuRowsNotLatin10() ensures forall k | 10 <= k < 20 :: !IsLatinLetter(RU[k]) && !IsLatinLetter(RU_UPPER[k]) {}
  lemma RuRowsNotLatin20() ensures forall k | 20 <= k < 30 :: !IsLatinLetter(RU[k]) && !IsLatinLetter(RU_UPPER[k]) {}
  lemma RuRowsNotLatin30() ensures forall k | 30 <= k < 40 :: !IsLatinLetter(RU[k]) && !IsLatinLetter(RU_UPPER[k]) {}

  lemma EnRowsNotCyrillic0() ensures forall k | 0 <= k < 20 :: !IsCyrillicLetter(EN[k]) && !IsCyrillicLetter(EN_UPPER[k]) {}
  lemma EnRowsNotCyrillic20() ensures forall k | 20 <= k < 40 :: !IsCyrillicLetter(EN[k]) && !IsCyrillicLetter(EN_UPPER[k]) {}

  /** What the letter sets hold, located in the rows of the tables. */
  lemma LetterFacts()
    ensures |RU_CHARS| == 64 && |EN_CHARS| == 52
    ensures forall k | 0 <= k < 64 :: IsCyrillicLetter(RU_CHARS[k])
    ensures forall k | 0 <= k < 52 :: IsLatinLetter(EN_CHARS[k])
    ensures forall k | 0 <= k < 32 :: RU_CHARS[k] == RU[k] && RU_CHARS[k + 32] == RU_UPPER[k]
    ensures forall k | 0 <= k < 26 :: 0 <= LetterKey(k) < 32
    ensures forall k | 0 <= k < 26 :: EN_CHARS[k] == EN[LetterKey(k)] && EN_CHARS[k + 26] == EN_UPPER[LetterKey(k)]
    ensures forall k | 0 <= k < 40 :: !IsLatinLetter(RU[k]) && !IsLatinLetter(RU_UPPER[k])
    ensures forall k | 0 <= k < 40 :: !IsCyrillicLetter(EN[k]) && !IsCyrillicLetter(EN_UPPER[k])
  {
    CyrillicChars0(); CyrillicChars16(); CyrillicChars32(); CyrillicChars48();
    LatinChars0(); LatinChars13(); LatinChars26(); LatinChars39();
    CyrillicRows0(); CyrillicRows8(); CyrillicRows16(); CyrillicRows24();
    LatinLower0(); LatinUpper0(); LatinLower10(); LatinUpper10(); LatinLower19(); LatinUpper19();
    RuRowsNotLatin0(); RuRowsNotLatin10(); RuRowsNotLatin20(); RuRowsNotLatin30();
    EnRowsNotCyrillic0(); EnRowsNotCyrillic20();
  }

  /** Every Latin letter is a key of `en_to_ru` and turns into a counted
      Cyrillic letter of the same key. */
  lemma LatinToCyrillic(c: char)
    requires c in EN_CHARS
    ensures c in EnToRu && EnToRu[c] in RU_CHARS
  {
    LetterFacts();
    var i :| 0 <= i < |EN_CHARS| && EN_CHARS[i] == c;
    var k := if i < 26 then i else i - 26;
    var key := LetterKey(k);
    TablesByKey(key);
    assert RU_CHARS[key] == RU[key] && RU_CHARS[key + 32] == RU_UPPER[key];
  }

  /** Every counted Cyrillic letter is a key of `ru_to_en`. */
  lemma CyrillicIsKey(c: char)
    requires c in RU_CHARS
    ensures c in RuToEn
  {
    LetterFacts();
    var i :| 0 <= i < |RU_CHARS| && RU_CHARS[i] == c;
    TablesByKey(if i < 32 then i else i - 32);
  }

  /** Nothing `en_to_ru` produces is a Latin letter. */
  lemma EnToRuGivesNoLatin(c: char)
    requires c in EnToRu
    ensures EnToRu[c] !in EN_CHARS
  {
    LetterFacts();
    TablesAt();
    MakeTransKeys(EN_ALL, RU_ALL);
    var i :| 0 <= i < |EN_ALL| && EN_ALL[i] == c;
    assert RU_ALL[i] == if i < 40 then RU[i] else RU_UPPER[i - 40];
  }

  /** Nothing `ru_to_en` produces is a counted Cyrillic letter. */
  lemma RuToEnGivesNoCyrillic(c: char)
    requires c in RuToEn
    ensures RuToEn[c] !in RU_CHARS
  {
    LetterFacts();
    TablesAt();
    MakeTransKeys(RU_ALL, EN_ALL);
    var i :| 0 <= i < |RU_ALL| && RU_ALL[i] == c;
    assert EN_ALL[i] == if i < 40 then EN[i] else EN_UPPER[i - 40];
  }

  /** `sum(1 for ch in t if ch in chars)`. */
  function CountIn(t: string, chars: string): (n: nat)
    ensures n <= |t|
  {
    if |t| == 0 then 0
    else CountIn(t[..|t| - 1], chars) + (if t[|t| - 1] in chars then 1 else 0)
  }

  /** The positions of `t` that hold a character of `chars`. */
  ghost function Positions(t: string, chars: string): set<int> {
    set i | 0 <= i < |t| && t[i] in chars
  }

  /** `CountIn` counts exactly the positions that hold a character of `chars`. */
  lemma {:induction false} CountInPositions(t: string, chars: string)
    ensures CountIn(t, chars) == |Positions(t, chars)|
  {
    if |t| > 0 {
      var n := |t| - 1;
      CountInPositions(t[..n], chars);
      if t[n] in chars {
        assert Positions(t, chars) == Positions(t[..n], chars) + {n};
      } else {
        assert Positions(t, chars) == Positions(t[..n], chars);
      }
    }
  }

  /** Counting distributes over concatenation. */
  lemma {:induction false} CountInConcat(a: string, b: string, chars: string)
    ensures CountIn(a + b, chars) == CountIn(a, chars) + CountIn(b, chars)
  {
    if |b| == 0 {
      assert a + b == a;
    } else {
      var n := |b| - 1;
      assert (a + b)[..|a + b| - 1] == a + b[..n];
      CountInConcat(a, b[..n], chars);
    }
  }

  /** The count is zero exactly when no character of `t` is in `chars`. */
  lemma CountInZero(t: string, chars: string)
    ensures CountIn(t, chars) == 0 <==> forall i | 0 <= i < |t| :: t[i] !in chars
  {
    CountInPositions(t, chars);
    if CountIn(t, chars) == 0 {
      forall i | 0 <= i < |t|
        ensures t[i] !in chars
      {
        assert t[i] in chars ==> i in Positions(t, chars);
      }
    } else {
      var i :| i in Positions(t, chars);
    }
  }

  /** A text made only of characters of `chars` counts in full. */
  lemma {:induction false} CountInAll(t: string, chars: string)
    requires forall i | 0 <= i < |t| :: t[i] in chars
    ensures CountIn(t, chars) == |t|
  {
    if |t| > 0 {
      CountInAll(t[..|t| - 1], chars);
    }
  }

  /** When every counted position of `t` is a counted position of `u`, `u`
      counts at least as many. */
  lemma {:induction false} CountInMonotone(t: string, u: string, a: string, b: string)
    requires |t| == |u|
    requires forall i | 0 <= i < |t| :: t[i] in a ==> u[i] in b
    ensures CountIn(t, a) <= CountIn(u, b)
  {
    if |t| > 0 {
      var n := |t| - 1;
      CountInMonotone(t[..n], u[..n], a, b);
    }
  }

  /** The three answers of `detect_direction`. */
  datatype Direction = Ru | En | Neither

  /** `detect_direction`: `Ru` (convert to Cyrillic) when the text has more
      Latin than Cyrillic letters, `En` when it has more Cyrillic ones,
      `Neither` on a tie. */
  function DetectDirection(t: string): (d: Direction)
    ensures d == Ru <==> |Positions(t, EN_CHARS)| > |Positions(t, RU_CHARS)|
    ensures d == En <==> |Positions(t, RU_CHARS)| > |Positions(t, EN_CHARS)|
  {
    CountInPositions(t, RU_CHARS);
    CountInPositions(t, EN_CHARS);
    var ru := CountIn(t, RU_CHARS);
    var en := CountIn(t, EN_CHARS);
    if en > ru then Ru else if ru > en then En else Neither
  }

  /** A character outside both letter sets has no influence on the direction,
      wherever it stands. */
  lemma DetectIgnoresOthers(a: string, b: string, c: char)
    requires c !in RU_CHARS && c !in EN_CHARS
    ensures DetectDirection(a + [c] + b) == DetectDirection(a + b)
  {
    CountInConcat(a + [c], b, RU_CHARS);
    CountInConcat(a + [c], b, EN_CHARS);
    CountInConcat(a, [c], RU_CHARS);
    CountInConcat(a, [c], EN_CHARS);
    CountInConcat(a, b, RU_CHARS);
    CountInConcat(a, b, EN_CHARS);
    CountInPositions(a + [c] + b, RU_CHARS);
    CountInPositions(a + [c] + b, EN_CHARS);
    CountInPositions(a + b, RU_CHARS);
    CountInPositions(a + b, EN_CHARS);
  }

  /** The letter sets hold letters of their own alphabet only; in particular
      `ё`, `Ё`, digits and punctuation are counted by neither. */
  lemma LetterSetsInRanges()
    ensures forall c | c in RU_CHARS :: IsCyrillicLetter(c)
    ensures forall c | c in EN_CHARS :: IsLatinLetter(c)
    ensures 'ё' !in RU_CHARS && 'Ё' !in RU_CHARS
  {
    LetterFacts();
  }

  /** A text without letters of either set, the empty text and digits among
      them, has no direction. */
  lemma NoLettersNoDirection(t: string)
    requires forall i | 0 <= i < |t| :: t[i] !in RU_CHARS && t[i] !in EN_CHARS
    ensures DetectDirection(t) == Neither
  {
    CountInZero(t, RU_CHARS);
    CountInZero(t, EN_CHARS);
    CountInPositions(t, RU_CHARS);
    CountInPositions(t, EN_CHARS);
  }

  /** `fix_layout`: translate with the table the direction picks, or leave the
      text alone. */
  function FixLayout(t: string): (r: string)
    ensures |r| == |t|
    ensures DetectDirection(t) == Neither ==> r == t
    ensures DetectDirection(t) == Ru ==> forall i | 0 <= i < |t| :: r[i] == Sub(EnToRu, t[i])
    ensures DetectDirection(t) == En ==> forall i | 0 <= i < |t| :: r[i] == Sub(RuToEn, t[i])
  {
    match DetectDirection(t)
    case Ru => Translate(t, EnToRu)
    case En => Translate(t, RuToEn)
    case Neither => t
  }

  /** Converting Latin-heavy text leaves no Latin letter and at least as many
      Cyrillic letters as there were Latin ones, so the result reads as
      Cyrillic-heavy. */
  lemma FixToCyrillic(t: string)
    requires DetectDirection(t) == Ru
    ensures CountIn(FixLayout(t), EN_CHARS) == 0
    ensures CountIn(FixLayout(t), RU_CHARS) >= CountIn(t, EN_CHARS) > 0
    ensures DetectDirection(FixLayout(t)) == En
  {
    var r := FixLayout(t);
    forall i | 0 <= i < |t|
      ensures r[i] !in EN_CHARS && (t[i] in EN_CHARS ==> r[i] in RU_CHARS)
    {
      if t[i] in EN_CHARS {
        LatinToCyrillic(t[i]);
      }
      if t[i] in EnToRu {
        EnToRuGivesNoLatin(t[i]);
      }
    }
    CountInZero(r, EN_CHARS);
    CountInMonotone(t, r, EN_CHARS, RU_CHARS);
    CountInPositions(t, RU_CHARS);
    CountInPositions(t, EN_CHARS);
    CountInPositions(r, RU_CHARS);
    CountInPositions(r, EN_CHARS);
  }

  /** Converting Cyrillic-heavy text leaves no counted Cyrillic letter, so the
      result never reads as Cyrillic-heavy again. */
  lemma FixToLatin(t: string)
    requires DetectDirection(t) == En
    ensures CountIn(FixLayout(t), RU_CHARS) == 0
    ensures DetectDirection(FixLayout(t)) != En
  {
    var r := FixLayout(t);
    forall i | 0 <= i < |t|
      ensures r[i] !in RU_CHARS
    {
      if t[i] in RU_CHARS {
        CyrillicIsKey(t[i]);
      }
      if t[i] in RuToEn {
        RuToEnGivesNoCyrillic(t[i]);
      }
    }
    CountInZero(r, RU_CHARS);
    CountInPositions(r, RU_CHARS);
    CountInPositions(r, EN_CHARS);
  }

  /** Fixing Latin-heavy text twice gives it back when every character is a
      key of `en_to_ru`: the second fix goes the other way and undoes the first. */
  lemma FixTwiceRestores(t: string)
    requires DetectDirection(t) == Ru
    requires forall i | 0 <= i < |t| :: t[i] in EnToRu
    ensures FixLayout(FixLayout(t)) == t
  {
    FixToCyrillic(t);
    EnRuRoundTrip(t);
  }

  /** A text of Latin letters only reads as Latin-heavy; one of counted
      Cyrillic letters only reads as Cyrillic-heavy. */
  lemma SingleAlphabet(t: string)
    requires |t| > 0
    ensures (forall i | 0 <= i < |t| :: t[i] in EN_CHARS) ==> DetectDirection(t) == Ru
    ensures (forall i | 0 <= i < |t| :: t[i] in RU_CHARS) ==> DetectDirection(t) == En
  {
    LetterSetsInRanges();
    if forall i | 0 <= i < |t| :: t[i] in EN_CHARS {
      CountInAll(t, EN_CHARS);
      CountInZero(t, RU_CHARS);
    }
    if forall i | 0 <= i < |t| :: t[i] in RU_CHARS {
      CountInAll(t, RU_CHARS);
      CountInZero(t, EN_CHARS);
    }
  }

  // Worked examples. The first three lemmas give the single table images the
  // examples use, one lookup each. The examples take their literal as a
  // parameter constrained by a `requires` (`t == "Ghbdtn"`), which states the
  // same fact as `FixLayout("Ghbdtn") == "Привет"`: written with the literal
  // in place, the verifier unfolds every function on the literal eagerly,
  // which costs far more than reasoning about a variable known to equal it.
  lemma GhbImages()
    ensures Sub(EnToRu, 'G') == 'П' && Sub(EnToRu, 'h') == 'р' && Sub(EnToRu, 'b') == 'и'
  {
    TablesByKey(16);
    TablesByKey(17);
    TablesByKey(27);
    assert EN_UPPER[16] == 'G' && RU_UPPER[16] == 'П';
    assert EN[17] == 'h' && RU[17] == 'р';
    assert EN[27] == 'b' && RU[27] == 'и';
  }

  lemma DtnImages()
    ensures Sub(EnToRu, 'd') == 'в' && Sub(EnToRu, 't') == 'е' && Sub(EnToRu, 'n') == 'т'
  {
    TablesByKey(14);
    TablesByKey(4);
    TablesByKey(28);
    assert EN[14] == 'd' && RU[14] == 'в';
    assert EN[4] == 't' && RU[4] == 'е';
    assert EN[28] == 'n' && RU[28] == 'т';
  }

  lemma BracketImages()
    ensures Sub(RuToEn, 'х') == '[' && Sub(RuToEn, 'ъ') == ']'
  {
    TablesByKey(10);
    TablesByKey(11);
    assert RU[10] == 'х' && EN[10] == '[';
    assert RU[11] == 'ъ' && EN[11] == ']';
  }

  /** `Ghbdtn` has Latin letters only. */
  lemma LatinExample(t: string)
    requires t == "Ghbdtn"
    ensures DetectDirection(t) == Ru
  {
    assert t[0] == EN_CHARS[40] && t[1] == EN_CHARS[15] && t[2] == EN_CHARS[23];
    assert t[3] == EN_CHARS[12] && t[4] == EN_CHARS[4] && t[5] == EN_CHARS[24];
    SingleAlphabet(t);
  }

  /** `Ghbdtn`, typed on the Latin layout, is fixed to `Привет`, each letter
      keeping its case. */
  lemma FixExample(t: string)
    requires t == "Ghbdtn"
    ensures FixLayout(t) == "Привет"
  {
    LatinExample(t);
    GhbImages();
    DtnImages();
    var r := FixLayout(t);
    assert r[0] == 'П' && r[1] == 'р' && r[2] == 'и';
    assert r[3] == 'в' && r[4] == 'е' && r[5] == 'т';
  }

  /** `хъ` has counted Cyrillic letters only. */
  lemma CyrillicExample(t: string)
    requires t == "хъ"
    ensures DetectDirection(t) == En
  {
    assert t[0] == RU_CHARS[10] && t[1] == RU_CHARS[11];
    SingleAlphabet(t);
  }

  /** `хъ` is Cyrillic-heavy and is fixed to `[]`. */
  lemma BracketsExample(t: string)
    requires t == "хъ"
    ensures DetectDirection(t) == En
    ensures FixLayout(t) == "[]"
  {
    CyrillicExample(t);
    BracketImages();
    var r := FixLayout(t);
    assert r[0] == '[' && r[1] == ']';
  }

  /** A text without counted letters is left alone by the fixer. */
  lemma FixNoLetters(t: string)
    requires forall i | 0 <= i < |t| :: t[i] !in RU_CHARS && t[i] !in EN_CHARS
    ensures FixLayout(t) == t
  {
    NoLettersNoDirection(t);
  }

  /** `[]` holds no counted letter. */
  lemma BracketsNoLetters(t: string)
    requires t == "[]"
    ensures forall i | 0 <= i < |t| :: t[i] !in RU_CHARS && t[i] !in EN_CHARS
  {
    LetterSetsInRanges();
    assert !IsCyrillicLetter('[') && !IsLatinLetter('[');
    assert !IsCyrillicLetter(']') && !IsLatinLetter(']');
  }

  /** Fixing is not an involution: `хъ` becomes `[]`, which has no letters,
      so a second fix leaves `[]` alone. */
  lemma FixTwiceLosesText(t: string)
    requires t == "хъ"
    ensures FixLayout(FixLayout(t)) == "[]" != t
  {
    BracketsExample(t);
    var r := FixLayout(t);
    BracketsNoLetters(r);
    FixNoLetters(r);
  }
}
