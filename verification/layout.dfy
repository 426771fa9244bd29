/** The transliteration tables of main.py (lines 35-39): the rows of the
    Cyrillic (ЙЦУКЕН) and Latin (QWERTY) layouts, key by key, and the two
    character maps `str.maketrans` builds from them. */
module Layout {

  /** Unshifted characters of the 40 mapped keys on the Cyrillic layout. */
  const RU: string := "йцукенгшщзхъфывапролджэячсмитьбюё,.\"№;:?"
  /** The same 40 keys on the Latin layout. */
  const EN: string := "qwertyuiop[]asdfghjkl;'zxcvbnm,.`?/@#$^&"
  /** The shifted Latin characters of those keys. It is written out rather
      than computed: `EN.upper()` would leave `[`, `;`, `,` ... unchanged. */
  const EN_UPPER: string := "QWERTYUIOP{}ASDFGHJKL:\"ZXCVBNM<>~?/@#$^&"
  /** `RU.upper()`, written out; `RuUpperIsUpper` shows it is that value:
      the letters change case, the punctuation stays. */
  const RU_UPPER: string := "ЙЦУКЕНГШЩЗХЪФЫВАПРОЛДЖЭЯЧСМИТЬБЮЁ,.\"№;:?"

  /** `str.upper()` on one character, for Latin letters and the basic
      Cyrillic block (а-я and ѐ-џ), which covers every letter of the tables. */
  function UpperChar(c: char): char {
    if 'a' <= c <= 'z' || 'а' <= c <= 'я' then (c as int - 32) as char
    else if 'ѐ' <= c <= 'џ' then (c as int - 80) as char
    else c
  }

  function Upper(s: string): string {
    seq(|s|, i requires 0 <= i < |s| => UpperChar(s[i]))
  }

  lemma RuUpperIsUpper()
    ensures RU_UPPER == Upper(RU)
  {
    UpperRun0(); UpperRun8(); UpperRun16(); UpperRun24(); UpperRun32();
  }

  /** `str.maketrans(x, y)`: position i of `x` maps to position i of `y`;
      when a character occurs twice in `x` the later position wins. */
  function MakeTrans(x: string, y: string): (m: map<char, char>)
    requires |x| == |y|
  {
    if |x| == 0 then map[]
    else MakeTrans(x[..|x| - 1], y[..|y| - 1])[x[|x| - 1] := y[|y| - 1]]
  }

  /** The keys of `str.maketrans(x, y)` are exactly the characters of `x`. */
  lemma {:induction false} MakeTransKeys(x: string, y: string)
    requires |x| == |y|
    ensures forall c :: c in MakeTrans(x, y) <==> c in x
  {
    if |x| > 0 {
      MakeTransKeys(x[..|x| - 1], y[..|y| - 1]);
      assert x == x[..|x| - 1] + [x[|x| - 1]];
    }
  }

  /** Position i holds the last occurrence of its character in x. */
  predicate LastAt(x: string, i: int)
    requires 0 <= i < |x|
  {
    forall j | i < j < |x| :: x[j] != x[i]
  }

  /** No character of `x` is asked to map to two different characters of `y`. */
  predicate Consistent(x: string, y: string)
    requires |x| == |y|
  {
    forall i, j | 0 <= i < |x| && 0 <= j < |x| && x[i] == x[j] :: y[i] == y[j]
  }

  /** The later-wins rule of `str.maketrans`: a position holding the last
      occurrence of its character decides that character's image. */
  lemma {:induction false} MakeTransLast(x: string, y: string)
    requires |x| == |y|
    ensures forall i | 0 <= i < |x| && LastAt(x, i) :: x[i] in MakeTrans(x, y) && MakeTrans(x, y)[x[i]] == y[i]
  {
    MakeTransKeys(x, y);
    if |x| > 0 {
      MakeTransLast(x[..|x| - 1], y[..|y| - 1]);
      assert forall i | 0 <= i < |x| - 1 && LastAt(x, i) :: LastAt(x[..|x| - 1], i);
    }
  }

  /** Without conflicting duplicates the later-wins rule is invisible: every
      position of `x` maps to the same position of `y`. */
  lemma {:induction false} MakeTransAt(x: string, y: string)
    requires |x| == |y| && Consistent(x, y)
    ensures forall i | 0 <= i < |x| :: x[i] in MakeTrans(x, y) && MakeTrans(x, y)[x[i]] == y[i]
  {
    if |x| > 0 {
      var n := |x| - 1;
      assert Consistent(x[..n], y[..n]);
      MakeTransAt(x[..n], y[..n]);
      forall i | 0 <= i < |x|
        ensures MakeTrans(x, y)[x[i]] == y[i]
      {
        if i < n && x[i] != x[n] {
          assert x[..n][i] == x[i] && y[..n][i] == y[i];
        }
      }
    }
  }

  /** Both cases of the Cyrillic side, the first argument of `ru_to_en`. */
  const RU_ALL: string := RU + RU_UPPER
  /** Both cases of the Latin side, the first argument of `en_to_ru`. */
  const EN_ALL: string := EN + EN_UPPER

  /** The Cyrillic-to-Latin table `ru_to_en`. */
  const RuToEn: map<char, char> := MakeTrans(RU_ALL, EN_ALL)
  /** The Latin-to-Cyrillic table `en_to_ru`. */
  const EnToRu: map<char, char> := MakeTrans(EN_ALL, RU_ALL)

  /** What `str.translate` does to one character: replace it when the table
      has it, pass it through otherwise. */
  function Sub(m: map<char, char>, c: char): char {
    if c in m then m[c] else c
  }

  /** `t.translate(m)`. */
  function Translate(t: string, m: map<char, char>): (r: string)
    ensures |r| == |t|
    ensures forall i | 0 <= i < |t| :: r[i] == Sub(m, t[i])
  {
    seq(|t|, i requires 0 <= i < |t| => Sub(m, t[i]))
  }

  /** Translating with `n` undoes translating with `m`. */
  predicate Inverse(m: map<char, char>, n: map<char, char>) {
    forall c | c in m :: m[c] in n && n[m[c]] == c
  }

  predicate Injective(m: map<char, char>) {
    forall c, d | c in m && d in m && c != d :: m[c] != m[d]
  }

  lemma InverseImpliesInjective(m: map<char, char>, n: map<char, char>)
    requires Inverse(m, n)
    ensures Injective(m)
  {
  }

  /** Round trip of `str.translate`: a text made only of keys of `m` comes
      back unchanged through `m` and then `n`. */
  lemma TranslateRoundTrip(t: string, m: map<char, char>, n: map<char, char>)
    requires Inverse(m, n)
    requires forall i | 0 <= i < |t| :: t[i] in m
    ensures Translate(Translate(t, m), n) == t
  {
    var u := Translate(Translate(t, m), n);
    assert forall i | 0 <= i < |t| :: u[i] == t[i];
  }

  /** The position of `c` in the unshifted Cyrillic row `RU`, or -1. */
  function RuRowKey(c: char): int {
    match c
    case 'й' => 0
    case 'ц' => 1
    case 'у' => 2
    case 'к' => 3
    case 'е' => 4
    case 'н' => 5
    case 'г' => 6
    case 'ш' => 7
    case 'щ' => 8
    case 'з' => 9
    case 'х' => 10
    case 'ъ' => 11
    case 'ф' => 12
    case 'ы' => 13
    case 'в' => 14
    case 'а' => 15
    case 'п' => 16
    case 'р' => 17
    case 'о' => 18
    case 'л' => 19
    case 'д' => 20
    case 'ж' => 21
    case 'э' => 22
    case 'я' => 23
    case 'ч' => 24
    case 'с' => 25
    case 'м' => 26
    case 'и' => 27
    case 'т' => 28
    case 'ь' => 29
    case 'б' => 30
    case 'ю' => 31
    case 'ё' => 32
    case ',' => 33
    case '.' => 34
    case '\"' => 35
    case '№' => 36
    case ';' => 37
    case ':' => 38
    case '?' => 39
    case _ => -1
  }

  /** The key of the Cyrillic layout whose shifted letter is `c`, or -1. */
  function RuShiftedKey(c: char): int {
    match c
    case 'Й' => 0
    case 'Ц' => 1
    case 'У' => 2
    case 'К' => 3
    case 'Е' => 4
    case 'Н' => 5
    case 'Г' => 6
    case 'Ш' => 7
    case 'Щ' => 8
    case 'З' => 9
    case 'Х' => 10
    case 'Ъ' => 11
    case 'Ф' => 12
    case 'Ы' => 13
    case 'В' => 14
    case 'А' => 15
    case 'П' => 16
    case 'Р' => 17
    case 'О' => 18
    case 'Л' => 19
    case 'Д' => 20
    case 'Ж' => 21
    case 'Э' => 22
    case 'Я' => 23
    case 'Ч' => 24
    case 'С' => 25
    case 'М' => 26
    case 'И' => 27
    case 'Т' => 28
    case 'Ь' => 29
    case 'Б' => 30
    case 'Ю' => 31
    case 'Ё' => 32
    case _ => -1
  }

  /** The key of the Cyrillic layout that carries `c`, shifted or not, or -1. */
  function RuKey(c: char): int {
    if 'А' <= c <= 'Я' || c == 'Ё' then RuShiftedKey(c) else RuRowKey(c)
  }

  /** The position of `c` in the unshifted Latin row `EN`, or -1. */
  function EnRowKey(c: char): int {
    match c
    case 'q' => 0
    case 'w' => 1
    case 'e' => 2
    case 'r' => 3
    case 't' => 4
    case 'y' => 5
    case 'u' => 6
    case 'i' => 7
    case 'o' => 8
    case 'p' => 9
    case '[' => 10
    case ']' => 11
    case 'a' => 12
    case 's' => 13
    case 'd' => 14
    case 'f' => 15
    case 'g' => 16
    case 'h' => 17
    case 'j' => 18
    case 'k' => 19
    case 'l' => 20
    case ';' => 21
    case '\'' => 22
    case 'z' => 23
    case 'x' => 24
    case 'c' => 25
    case 'v' => 26
    case 'b' => 27
    case 'n' => 28
    case 'm' => 29
    case ',' => 30
    case '.' => 31
    case '`' => 32
    case '?' => 33
    case '/' => 34
    case '@' => 35
    case '#' => 36
    case '$' => 37
    case '^' => 38
    case '&' => 39
    case _ => -1
  }

  /** The key of the Latin layout whose shifted character is `c` (for the
      33 keys whose shifted character differs), or -1. */
  function EnShiftedKey(c: char): int {
    match c
    case 'Q' => 0
    case 'W' => 1
    case 'E' => 2
    case 'R' => 3
    case 'T' => 4
    case 'Y' => 5
    case 'U' => 6
    case 'I' => 7
    case 'O' => 8
    case 'P' => 9
    case '{' => 10
    case '}' => 11
    case 'A' => 12
    case 'S' => 13
    case 'D' => 14
    case 'F' => 15
    case 'G' => 16
    case 'H' => 17
    case 'J' => 18
    case 'K' => 19
    case 'L' => 20
    case ':' => 21
    case '\"' => 22
    case 'Z' => 23
    case 'X' => 24
    case 'C' => 25
    case 'V' => 26
    case 'B' => 27
    case 'N' => 28
    case 'M' => 29
    case '<' => 30
    case '>' => 31
    case '~' => 32
    case _ => -1
  }

  predicate IsShiftedLatin(c: char) {
    'A' <= c <= 'Z' || c == '{' || c == '}' || c == ':' || c == '\"' || c == '<' || c == '>' || c == '~'
  }

  /** The key of the Latin layout that carries `c`, shifted or not, or -1. */
  function EnKey(c: char): int {
    if IsShiftedLatin(c) then EnShiftedKey(c) else EnRowKey(c)
  }

  // Per-position facts about the four literal rows, each a body-less lemma
  // over a run of a few positions: the verifier evaluates a literal string
  // position by position, and one quantifier over all forty positions costs
  // far more than several over a few. `RuUpperIsUpper`, `RowKeys` and
  // `SharedKeys` combine the runs. In order, the runs say that the shifted
  // Cyrillic row is the upper case of the plain one, that the key functions
  // locate every character of the four rows, and which keys carry the same
  // character in both cases.
  lemma UpperRun0() ensures forall k | 0 <= k < 8 :: RU_UPPER[k] == UpperChar(RU[k]) {}
  lemma UpperRun8() ensures forall k | 8 <= k < 16 :: RU_UPPER[k] == UpperChar(RU[k]) {}
  lemma UpperRun16() ensures forall k | 16 <= k < 24 :: RU_UPPER[k] == UpperChar(RU[k]) {}
  lemma UpperRun24() ensures forall k | 24 <= k < 32 :: RU_UPPER[k] == UpperChar(RU[k]) {}
  lemma UpperRun32() ensures forall k | 32 <= k < 40 :: RU_UPPER[k] == UpperChar(RU[k]) {}

  lemma RuKeys0() ensures forall k | 0 <= k < 8 :: RuKey(RU[k]) == k {}
  lemma RuKeys8() ensures forall k | 8 <= k < 16 :: RuKey(RU[k]) == k {}
  lemma RuKeys16() ensures forall k | 16 <= k < 24 :: RuKey(RU[k]) == k {}
  lemma RuKeys24() ensures forall k | 24 <= k < 32 :: RuKey(RU[k]) == k {}
  lemma RuKeys32() ensures forall k | 32 <= k < 40 :: RuKey(RU[k]) == k {}

  lemma RuUpperKeys0() ensures forall k | 0 <= k < 8 :: RuKey(RU_UPPER[k]) == k {}
  lemma RuUpperKeys8() ensures forall k | 8 <= k < 16 :: RuKey(RU_UPPER[k]) == k {}
  lemma RuUpperKeys16() ensures forall k | 16 <= k < 24 :: RuKey(RU_UPPER[k]) == k {}
  lemma RuUpperKeys24() ensures forall k | 24 <= k < 32 :: RuKey(RU_UPPER[k]) == k {}
  lemma RuUpperKeys32() ensures forall k | 32 <= k < 40 :: RuKey(RU_UPPER[k]) == k {}

  lemma EnKeys0() ensures forall k | 0 <= k < 8 :: EnKey(EN[k]) == k {}
  lemma EnKeys8() ensures forall k | 8 <= k < 16 :: EnKey(EN[k]) == k {}
  lemma EnKeys16() ensures forall k | 16 <= k < 24 :: EnKey(EN[k]) == k {}
  lemma EnKeys24() ensures forall k | 24 <= k < 32 :: EnKey(EN[k]) == k {}
  lemma EnKeys32() ensures forall k | 32 <= k < 40 :: EnKey(EN[k]) == k {}

  lemma EnUpperKeys0() ensures forall k | 0 <= k < 8 :: EnKey(EN_UPPER[k]) == k {}
  lemma EnUpperKeys8() ensures forall k | 8 <= k < 16 :: EnKey(EN_UPPER[k]) == k {}
  lemma EnUpperKeys16() ensures forall k | 16 <= k < 24 :: EnKey(EN_UPPER[k]) == k {}
  lemma EnUpperKeys24() ensures forall k | 24 <= k < 32 :: EnKey(EN_UPPER[k]) == k {}
  lemma EnUpperKeys32() ensures forall k | 32 <= k < 40 :: EnKey(EN_UPPER[k]) == k {}

  lemma RuShared0() ensures forall k | 0 <= k < 20 :: RU[k] == RU_UPPER[k] <==> 33 <= k {}
  lemma RuShared20() ensures forall k | 20 <= k < 40 :: RU[k] == RU_UPPER[k] <==> 33 <= k {}
  lemma EnShared0() ensures forall k | 0 <= k < 20 :: EN[k] == EN_UPPER[k] <==> 33 <= k {}
  lemma EnShared20() ensures forall k | 20 <= k < 40 :: EN[k] == EN_UPPER[k] <==> 33 <= k {}

  lemma RowKeys()
    ensures forall k | 0 <= k < 40 :: RuKey(RU[k]) == k && RuKey(RU_UPPER[k]) == k
    ensures forall k | 0 <= k < 40 :: EnKey(EN[k]) == k && EnKey(EN_UPPER[k]) == k
  {
    RuKeys0(); RuKeys8(); RuKeys16(); RuKeys24(); RuKeys32();
    RuUpperKeys0(); RuUpperKeys8(); RuUpperKeys16(); RuUpperKeys24(); RuUpperKeys32();
    EnKeys0(); EnKeys8(); EnKeys16(); EnKeys24(); EnKeys32();
    EnUpperKeys0(); EnUpperKeys8(); EnUpperKeys16(); EnUpperKeys24(); EnUpperKeys32();
  }

  /** A key carries the same character in both cases on one layout exactly
      when it does on the other: the seven shared punctuation keys. */
  lemma SharedKeys()
    ensures |RU| == 40 && |RU_UPPER| == 40 && |EN| == 40 && |EN_UPPER| == 40
    ensures forall k | 0 <= k < 40 :: RU[k] == RU_UPPER[k] <==> 33 <= k
    ensures forall k | 0 <= k < 40 :: EN[k] == EN_UPPER[k] <==> 33 <= k
  {
    RuShared0(); RuShared20(); EnShared0(); EnShared20();
  }

  /** Two rows of a layout, located by a key function, give a conflict-free
      `maketrans` argument when the shared characters sit over shared targets. */
  lemma {:induction false} RowsConsistent(lower: string, upper: string, lowerT: string, upperT: string, key: char -> int)
    requires |lower| == |upper| == |lowerT| == |upperT|
    requires forall k | 0 <= k < |lower| :: key(lower[k]) == k && key(upper[k]) == k
    requires forall k | 0 <= k < |lower| :: lower[k] == upper[k] ==> lowerT[k] == upperT[k]
    ensures Consistent(lower + upper, lowerT + upperT)
  {
    var x, y, n := lower + upper, lowerT + upperT, |lower|;
    forall i, j | 0 <= i < |x| && 0 <= j < |x| && x[i] == x[j]
      ensures y[i] == y[j]
    {
      var ki := if i < n then i else i - n;
      var kj := if j < n then j else j - n;
      assert key(x[i]) == ki && key(x[j]) == kj;
    }
  }

  lemma TablesConsistent()
    ensures |RU_ALL| == |EN_ALL| == 80
    ensures Consistent(RU_ALL, EN_ALL) && Consistent(EN_ALL, RU_ALL)
  {
    RowKeys();
    SharedKeys();
    RowsConsistent(RU, RU_UPPER, EN, EN_UPPER, RuKey);
    RowsConsistent(EN, EN_UPPER, RU, RU_UPPER, EnKey);
  }

  /** Every position of the two `maketrans` arguments maps to the same
      position of the other one: the later-wins rule never drops a pair. */
  lemma TablesAt()
    ensures |RU_ALL| == |EN_ALL| == 80
    ensures forall i | 0 <= i < |RU_ALL| :: RU_ALL[i] in RuToEn && RuToEn[RU_ALL[i]] == EN_ALL[i]
    ensures forall i | 0 <= i < |EN_ALL| :: EN_ALL[i] in EnToRu && EnToRu[EN_ALL[i]] == RU_ALL[i]
  {
    TablesConsistent();
    MakeTransAt(RU_ALL, EN_ALL);
    MakeTransAt(EN_ALL, RU_ALL);
  }

  /** Each key's Cyrillic character maps to the same key's Latin character in
      the same case, and back. */
  lemma TablesByKey(k: int)
    requires 0 <= k < 40
    ensures RU[k] in RuToEn && RuToEn[RU[k]] == EN[k]
    ensures RU_UPPER[k] in RuToEn && RuToEn[RU_UPPER[k]] == EN_UPPER[k]
    ensures EN[k] in EnToRu && EnToRu[EN[k]] == RU[k]
    ensures EN_UPPER[k] in EnToRu && EnToRu[EN_UPPER[k]] == RU_UPPER[k]
  {
    TablesAt();
    SharedKeys();
    RowsAt(RU, RU_UPPER, EN, EN_UPPER, RuToEn, k);
    RowsAt(EN, EN_UPPER, RU, RU_UPPER, EnToRu, k);
  }

  /** A table that maps every position of `lower + upper` to the same
      position of `lowerT + upperT` maps each row position to its partner. */
  lemma RowsAt(lower: string, upper: string, lowerT: string, upperT: string, m: map<char, char>, k: int)
    requires |lower| == |upper| == |lowerT| == |upperT|
    requires 0 <= k < |lower|
    requires forall i | 0 <= i < |lower + upper| :: (lower + upper)[i] in m && m[(lower + upper)[i]] == (lowerT + upperT)[i]
    ensures lower[k] in m && m[lower[k]] == lowerT[k]
    ensures upper[k] in m && m[upper[k]] == upperT[k]
  {
    var n := |lower|;
    assert (lower + upper)[k] == lower[k] && (lowerT + upperT)[k] == lowerT[k];
    assert (lower + upper)[k + n] == upper[k] && (lowerT + upperT)[k + n] == upperT[k];
  }

  /** `en_to_ru` is the exact inverse of `ru_to_en` and vice versa. */
  lemma TablesInverse()
    ensures Inverse(RuToEn, EnToRu) && Inverse(EnToRu, RuToEn)
  {
    TablesAt();
    MakeTransKeys(RU_ALL, EN_ALL);
    MakeTransKeys(EN_ALL, RU_ALL);
    forall c | c in RuToEn
      ensures RuToEn[c] in EnToRu && EnToRu[RuToEn[c]] == c
    {
      var i :| 0 <= i < |RU_ALL| && RU_ALL[i] == c;
    }
    forall c | c in EnToRu
      ensures EnToRu[c] in RuToEn && RuToEn[EnToRu[c]] == c
    {
      var i :| 0 <= i < |EN_ALL| && EN_ALL[i] == c;
    }
  }

  /** No two characters share a replacement in either table. */
  lemma TablesInjective()
    ensures Injective(RuToEn) && Injective(EnToRu)
  {
    TablesInverse();
    InverseImpliesInjective(RuToEn, EnToRu);
    InverseImpliesInjective(EnToRu, RuToEn);
  }

  /** Round trip through both tables, Cyrillic side first. */
  lemma RuEnRoundTrip(t: string)
    requires forall i | 0 <= i < |t| :: t[i] in RuToEn
    ensures Translate(Translate(t, RuToEn), EnToRu) == t
  {
    TablesInverse();
    TranslateRoundTrip(t, RuToEn, EnToRu);
  }

  /** Round trip through both tables, Latin side first. */
  lemma EnRuRoundTrip(t: string)
    requires forall i | 0 <= i < |t| :: t[i] in EnToRu
    ensures Translate(Translate(t, EnToRu), RuToEn) == t
  {
    TablesInverse();
    TranslateRoundTrip(t, EnToRu, RuToEn);
  }

  /** The key sets overlap: `,` is a key of both tables, and `ru_to_en` sends
      `б` to `,` and `,` to `?`. So applying `ru_to_en` twice is not the
      identity. */
  lemma DomainsOverlap()
    ensures ',' in RuToEn && ',' in EnToRu
    ensures 'б' in RuToEn && RuToEn['б'] == ',' && RuToEn[','] == '?'
    ensures Translate(Translate("б", RuToEn), RuToEn) == "?"
  {
    TablesByKey(30);
    TablesByKey(33);
    assert RU[30] == 'б' && EN[30] == ',' && RU[33] == ',' && EN[33] == '?';
    var once := Translate("б", RuToEn);
    assert once[0] == Sub(RuToEn, 'б') == ',';
    assert once == ",";
  }
}
