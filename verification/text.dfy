/** The few Python string operations the program relies on: truthiness of
    `str | None`, `str.strip()` and `str.split(sep)`, over strings as
    sequences of characters. */
module Text {

  datatype Option<+T> = None | Some(value: T)

  /** Python truthiness of a `str | None` value: `None` and `""` are false. */
  predicate Truthy(s: Option<string>) {
    s.Some? && s.value != ""
  }

  /** `a or b` on `str | None` values. */
  function Or(a: Option<string>, b: Option<string>): Option<string> {
    if Truthy(a) then a else b
  }

  /** The characters `str.isspace()` accepts, which are the ones `str.strip()`
      removes when called without arguments. */
  predicate IsSpace(c: char) {
    var n := c as int;
    || 0x09 <= n <= 0x0D || 0x1C <= n <= 0x20 || n == 0x85 || n == 0xA0
    || n == 0x1680 || 0x2000 <= n <= 0x200A || n == 0x2028 || n == 0x2029
    || n == 0x202F || n == 0x205F || n == 0x3000
  }

  predicate AllSpace(s: string) {
    forall i | 0 <= i < |s| :: IsSpace(s[i])
  }

  /** `s.lstrip()`: the longest suffix of `s` that does not start with whitespace. */
  function TrimStart(s: string): (r: string)
    ensures |r| <= |s| && r == s[|s| - |r|..]
    ensures AllSpace(s[..|s| - |r|])
    ensures r == [] || !IsSpace(r[0])
  {
    if |s| > 0 && IsSpace(s[0]) then TrimStart(s[1..]) else s
  }

  /** `s.rstrip()`: the longest prefix of `s` that does not end with whitespace. */
  function TrimEnd(s: string): (r: string)
    ensures |r| <= |s| && r == s[..|r|]
    ensures AllSpace(s[|r|..])
    ensures r == [] || !IsSpace(r[|r| - 1])
  {
    if |s| > 0 && IsSpace(s[|s| - 1]) then TrimEnd(s[..|s| - 1]) else s
  }

  /** `s.strip()`: never longer than `s`, and it neither starts nor ends
      with whitespace. `StripTrimmed` says when it is empty. */
  function Strip(s: string): (r: string)
    ensures |r| <= |s|
    ensures r == [] || (!IsSpace(r[0]) && !IsSpace(r[|r| - 1]))
  {
    TrimEnd(TrimStart(s))
  }

  /** The strip of `s` neither starts nor ends with whitespace, and it is
      empty exactly when `s` is all whitespace. */
  lemma StripTrimmed(s: string)
    ensures var r := Strip(s); r == [] || (!IsSpace(r[0]) && !IsSpace(r[|r| - 1]))
    ensures Strip(s) == [] <==> AllSpace(s)
  {
    var t := TrimStart(s);
    var r := TrimEnd(t);
    if r == [] {
      assert s == s[..|s| - |t|] + t;
      assert t == t[|r|..];
    }
  }

  /** `r` sits at position `i` of `s` with only whitespace before and after it. */
  predicate PaddedAt(s: string, r: string, i: int) {
    0 <= i <= |s| - |r| && r == s[i..i + |r|] && AllSpace(s[..i]) && AllSpace(s[i + |r|..])
  }

  /** The strip of `s` is a piece of `s` with only whitespace before and
      after it. Together with `StripTrimmed`, which says the piece neither
      starts nor ends with whitespace, this determines the strip. */
  lemma StripKeepsMiddle(s: string)
    ensures exists i :: PaddedAt(s, Strip(s), i)
  {
    var t := TrimStart(s);
    var r := TrimEnd(t);
    assert Strip(s) == r;
    TrimmedPadded(s, t, r);
  }

  /** What the two trims promise places `r`, the prefix `TrimEnd` keeps of
      the suffix `t` that `TrimStart` keeps, at position `|s| - |t|` of `s`
      with only whitespace around it. */
  lemma TrimmedPadded(s: string, t: string, r: string)
    requires |t| <= |s| && t == s[|s| - |t|..] && AllSpace(s[..|s| - |t|])
    requires |r| <= |t| && r == t[..|r|] && AllSpace(t[|r|..])
    ensures PaddedAt(s, r, |s| - |t|)
  {
    var i := |s| - |t|;
    assert s[i + |r|..] == t[|r|..];
    assert r == s[i..i + |r|];
  }

  /** A string with no surrounding whitespace is its own strip. */
  lemma {:induction false} StripUnpadded(s: string)
    requires s == [] || (!IsSpace(s[0]) && !IsSpace(s[|s| - 1]))
    ensures Strip(s) == s
  {
  }

  /** Stripping twice is stripping once. */
  lemma StripIdempotent(s: string)
    ensures Strip(Strip(s)) == Strip(s)
  {
    StripTrimmed(s);
    StripUnpadded(Strip(s));
  }

  /** The inverse of `Split`: the pieces glued together with `sep` between
      neighbours, `sep.join(pieces)` in Python. */
  function Join(pieces: seq<string>, sep: char): string
    requires |pieces| >= 1
  {
    if |pieces| == 1 then pieces[0]
    else Join(pieces[..|pieces| - 1], sep) + [sep] + pieces[|pieces| - 1]
  }

  /** `s.split(sep)` for a one-character separator: never empty, and empty
      pieces are kept, so `"a++b"` gives `["a", "", "b"]` and `""` gives `[""]`. */
  function Split(s: string, sep: char): (r: seq<string>)
    ensures |r| >= 1
    ensures Join(r, sep) == s
    ensures forall i | 0 <= i < |r| :: sep !in r[i]
  {
    if |s| == 0 then [""]
    else
      var init := Split(s[..|s| - 1], sep);
      var c := s[|s| - 1];
      assert s == s[..|s| - 1] + [c];
      if c == sep then init + [""]
      else
        var r := init[..|init| - 1] + [init[|init| - 1] + [c]];
        assert r[..|r| - 1] == init[..|init| - 1];
        r
  }

  /** Appending a character to the last piece appends it to the joined string. */
  lemma JoinExtendLast(pieces: seq<string>, sep: char, c: char)
    requires |pieces| >= 1
    ensures Join(pieces[..|pieces| - 1] + [pieces[|pieces| - 1] + [c]], sep) == Join(pieces, sep) + [c]
  {
    var n := |pieces|;
    var longer := pieces[..n - 1] + [pieces[n - 1] + [c]];
    assert longer[..n - 1] == pieces[..n - 1];
    if n > 1 {
      calc {
        Join(longer, sep);
        Join(pieces[..n - 1], sep) + [sep] + (pieces[n - 1] + [c]);
        Join(pieces[..n - 1], sep) + [sep] + pieces[n - 1] + [c];
      }
    }
  }

  /** `Split` is the only way to cut `s` into separator-free pieces: any such
      cutting that joins back to `s` is the one `Split` returns. */
  lemma {:induction false} SplitUnique(pieces: seq<string>, sep: char)
    requires |pieces| >= 1
    requires forall i | 0 <= i < |pieces| :: sep !in pieces[i]
    ensures Split(Join(pieces, sep), sep) == pieces
    decreases |pieces|, |pieces[|pieces| - 1]|
  {
    var n := |pieces|;
    var last := pieces[n - 1];
    if |Join(pieces, sep)| == 0 {
    } else if |last| == 0 {
      var init := pieces[..n - 1];
      assert pieces == init + [""];
      SplitUnique(init, sep);
      SplitAfterSeparator(init, sep);
    } else {
      var c := last[|last| - 1];
      var shorter := pieces[..n - 1] + [last[..|last| - 1]];
      assert shorter[..n - 1] == pieces[..n - 1];
      assert last[..|last| - 1] + [c] == last;
      assert pieces == shorter[..n - 1] + [shorter[n - 1] + [c]];
      assert forall i | 0 <= i < |shorter| :: sep !in shorter[i];
      assert c in last;
      SplitUnique(shorter, sep);
      SplitAfterChar(shorter, sep, c);
    }
  }

  /** A separator after the last piece starts an empty piece. */
  lemma SplitAfterSeparator(init: seq<string>, sep: char)
    requires |init| >= 1
    requires Split(Join(init, sep), sep) == init
    ensures Split(Join(init + [""], sep), sep) == init + [""]
  {
    var pieces := init + [""];
    assert pieces[..|pieces| - 1] == init;
    var s := Join(pieces, sep);
    assert s == Join(init, sep) + [sep];
    assert s[..|s| - 1] == Join(init, sep);
  }

  /** Any other character after the last piece extends that piece. */
  lemma SplitAfterChar(shorter: seq<string>, sep: char, c: char)
    requires |shorter| >= 1 && c != sep
    requires Split(Join(shorter, sep), sep) == shorter
    ensures var n := |shorter|;
      Split(Join(shorter[..n - 1] + [shorter[n - 1] + [c]], sep), sep) == shorter[..n - 1] + [shorter[n - 1] + [c]]
  {
    JoinExtendLast(shorter, sep, c);
    var s := Join(shorter, sep) + [c];
    assert s[..|s| - 1] == Join(shorter, sep);
  }
}
