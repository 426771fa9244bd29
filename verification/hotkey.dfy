/** The names a hotkey string may use for keys (`HOTKEY_PH`, main.py lines
    42-56) and the loop of `on_hotkey` that turns the hotkey string into the
    keys to release (main.py lines 237-244). */
module Hotkey {
  import opened Text

  /** The `pynput` keys `HOTKEY_PH` refers to. */
  datatype Key =
    | Ctrl | CtrlL | CtrlR
    | Alt | AltL | AltR
    | Shift | ShiftL | ShiftR
    | Space | Backspace | Enter | End

  /** `HOTKEY_PH`: the lower-case names that stand for special keys. */
  const HOTKEY_PH: map<string, Key> := map[
    "ctrl" := Ctrl, "lctrl" := CtrlL, "rctrl" := CtrlR,
    "alt" := Alt, "lalt" := AltL, "ralt" := AltR,
    "shift" := Shift, "lshift" := ShiftL, "rshift" := ShiftR,
    "space" := Space, "backspace" := Backspace, "enter" := Enter, "end" := End
  ]

  /** What `kb.release` is called with: a named special key, or the piece of
      the hotkey string itself. */
  datatype Token = Named(key: Key) | Literal(text: string)

  /** One trimmed, non-empty piece: a name of `HOTKEY_PH` (matched exactly,
      so `Ctrl` is not a name) or a literal. */
  function Resolve(k: string): Token {
    if k in HOTKEY_PH then Named(HOTKEY_PH[k]) else Literal(k)
  }

  /** One turn of the loop: strip the piece, skip it when empty, resolve it
      otherwise. */
  function Piece(p: string): (toks: seq<Token>)
    ensures |toks| <= 1
  {
    var k := Strip(p);
    if k == [] then [] else [Resolve(k)]
  }

  /** The loop over the pieces: the tokens each turn gives, in order. */
  function Collect(turn: string -> seq<Token>, pieces: seq<string>): seq<Token> {
    if |pieces| == 0 then [] else turn(pieces[0]) + Collect(turn, pieces[1..])
  }

  /** The keys `on_hotkey` releases for `hotkey`, in order: at most one per
      `+`-separated piece. */
  function ReleaseTokens(hotkey: string): (toks: seq<Token>)
    ensures |toks| <= |Split(hotkey, '+')|
  {
    CollectAtMost(Piece, Split(hotkey, '+'));
    Collect(Piece, Split(hotkey, '+'))
  }

  /** A loop whose turns give at most one token gives at most one per piece. */
  lemma {:induction false} CollectAtMost(turn: string -> seq<Token>, pieces: seq<string>)
    requires forall p :: |turn(p)| <= 1
    ensures |Collect(turn, pieces)| <= |pieces|
  {
    if |pieces| > 0 {
      CollectAtMost(turn, pieces[1..]);
    }
  }

  /** Every index one higher. */
  function Bump(idx: seq<int>): (r: seq<int>)
    ensures |r| == |idx|
    ensures forall j | 0 <= j < |idx| :: r[j] == idx[j] + 1
  {
    seq(|idx|, j requires 0 <= j < |idx| => idx[j] + 1)
  }

  lemma BumpMembers(idx: seq<int>)
    requires forall j | 0 <= j < |idx| :: 0 <= idx[j]
    ensures 0 !in Bump(idx)
    ensures forall i | 1 <= i :: i in Bump(idx) <==> i - 1 in idx
  {
    var r := Bump(idx);
    forall i | 1 <= i
      ensures i in r <==> i - 1 in idx
    {
      if i - 1 in idx {
        var j :| 0 <= j < |idx| && idx[j] == i - 1;
        assert r[j] == i;
      }
    }
  }

  /** The indices of the pieces that give a token, in increasing order. */
  function Kept(turn: string -> seq<Token>, pieces: seq<string>): (idx: seq<int>)
    ensures forall j | 0 <= j < |idx| :: 0 <= idx[j] < |pieces|
  {
    if |pieces| == 0 then []
    else
      var rest := Bump(Kept(turn, pieces[1..]));
      if turn(pieces[0]) == [] then rest else [0] + rest
  }

  /** Entry j of `idx` is the position of a piece for which `turn` gives
      exactly the token `toks[j]`. */
  predicate Picks(turn: string -> seq<Token>, pieces: seq<string>, toks: seq<Token>, idx: seq<int>) {
    && |idx| == |toks|
    && forall j | 0 <= j < |idx| :: 0 <= idx[j] < |pieces| && turn(pieces[idx[j]]) == [toks[j]]
  }

  predicate Increasing(idx: seq<int>) {
    forall j, l | 0 <= j < l < |idx| :: idx[j] < idx[l]
  }

  /** `idx` holds exactly the positions of the pieces `turn` gives a token for. */
  predicate Covers(turn: string -> seq<Token>, pieces: seq<string>, idx: seq<int>) {
    forall i | 0 <= i < |pieces| :: turn(pieces[i]) != [] <==> i in idx
  }

  /** `toks` lists, in increasing order of position, the token that `turn`
      gives for every piece that gives one, and nothing else. */
  predicate SelectsBy(turn: string -> seq<Token>, pieces: seq<string>, toks: seq<Token>, idx: seq<int>) {
    Picks(turn, pieces, toks, idx) && Increasing(idx) && Covers(turn, pieces, idx)
  }

  lemma PicksSkip(turn: string -> seq<Token>, p: string, tail: seq<string>, toks: seq<Token>, idx: seq<int>)
    requires Picks(turn, tail, toks, idx)
    ensures Picks(turn, [p] + tail, toks, Bump(idx))
  {
    var pieces, r := [p] + tail, Bump(idx);
    forall j | 0 <= j < |r|
      ensures 0 <= r[j] < |pieces| && turn(pieces[r[j]]) == [toks[j]]
    {
      assert pieces[r[j]] == tail[idx[j]];
    }
  }

  lemma PicksTake(turn: string -> seq<Token>, p: string, t: Token, tail: seq<string>, toks: seq<Token>, idx: seq<int>)
    requires turn(p) == [t]
    requires Picks(turn, tail, toks, idx)
    ensures Picks(turn, [p] + tail, [t] + toks, [0] + Bump(idx))
  {
    var pieces, r, ts := [p] + tail, [0] + Bump(idx), [t] + toks;
    forall j | 0 <= j < |r|
      ensures 0 <= r[j] < |pieces| && turn(pieces[r[j]]) == [ts[j]]
    {
      if j > 0 {
        assert r[j] == idx[j - 1] + 1;
        assert pieces[r[j]] == tail[idx[j - 1]];
      }
    }
  }

  lemma IncreasingBump(idx: seq<int>)
    requires Increasing(idx) && forall j | 0 <= j < |idx| :: 0 <= idx[j]
    ensures Increasing(Bump(idx)) && Increasing([0] + Bump(idx))
  {
    var r := [0] + Bump(idx);
    forall j, l | 0 <= j < l < |r|
      ensures r[j] < r[l]
    {
      assert r[l] == idx[l - 1] + 1;
      if j > 0 {
        assert r[j] == idx[j - 1] + 1;
      }
    }
  }

  lemma CoversSkip(turn: string -> seq<Token>, p: string, tail: seq<string>, idx: seq<int>)
    requires turn(p) == []
    requires Covers(turn, tail, idx) && forall j | 0 <= j < |idx| :: 0 <= idx[j]
    ensures Covers(turn, [p] + tail, Bump(idx))
  {
    var pieces := [p] + tail;
    BumpMembers(idx);
    forall i | 0 <= i < |pieces|
      ensures turn(pieces[i]) != [] <==> i in Bump(idx)
    {
      if i > 0 {
        assert pieces[i] == tail[i - 1];
      }
    }
  }

  lemma CoversTake(turn: string -> seq<Token>, p: string, tail: seq<string>, idx: seq<int>)
    requires turn(p) != []
    requires Covers(turn, tail, idx) && forall j | 0 <= j < |idx| :: 0 <= idx[j]
    ensures Covers(turn, [p] + tail, [0] + Bump(idx))
  {
    var pieces, r := [p] + tail, [0] + Bump(idx);
    BumpMembers(idx);
    forall i | 0 <= i < |pieces|
      ensures turn(pieces[i]) != [] <==> i in r
    {
      if i > 0 {
        assert pieces[i] == tail[i - 1];
        assert i in r <==> i in Bump(idx);
      }
    }
  }

  /** Prepending a piece that gives no token shifts every index by one. */
  lemma SelectsSkip(turn: string -> seq<Token>, p: string, tail: seq<string>, toks: seq<Token>, idx: seq<int>)
    requires turn(p) == []
    requires SelectsBy(turn, tail, toks, idx)
    ensures SelectsBy(turn, [p] + tail, toks, Bump(idx))
  {
    PicksSkip(turn, p, tail, toks, idx);
    IncreasingBump(idx);
    CoversSkip(turn, p, tail, idx);
  }

  /** Prepending a piece that gives token `t` puts `t` and index 0 in front. */
  lemma SelectsTake(turn: string -> seq<Token>, p: string, t: Token, tail: seq<string>, toks: seq<Token>, idx: seq<int>)
    requires turn(p) == [t]
    requires SelectsBy(turn, tail, toks, idx)
    ensures SelectsBy(turn, [p] + tail, [t] + toks, [0] + Bump(idx))
  {
    PicksTake(turn, p, t, tail, toks, idx);
    IncreasingBump(idx);
    CoversTake(turn, p, tail, idx);
  }

  /** When each turn gives at most one token, the loop keeps the order of
      the pieces, drops exactly the ones that give nothing and takes the token
      of each of the others. */
  lemma {:induction false} CollectSelects(turn: string -> seq<Token>, pieces: seq<string>)
    requires forall p :: |turn(p)| <= 1
    ensures SelectsBy(turn, pieces, Collect(turn, pieces), Kept(turn, pieces))
  {
    if |pieces| > 0 {
      var tail := pieces[1..];
      var h := turn(pieces[0]);
      var toks, idx := Collect(turn, tail), Kept(turn, tail);
      assert pieces == [pieces[0]] + tail;
      assert Collect(turn, pieces) == h + toks;
      CollectSelects(turn, tail);
      if h == [] {
        assert Kept(turn, pieces) == Bump(idx);
        SelectsSkip(turn, pieces[0], tail, toks, idx);
      } else {
        assert Kept(turn, pieces) == [0] + Bump(idx);
        SelectsTake(turn, pieces[0], h[0], tail, toks, idx);
      }
    }
  }

  /** `on_hotkey` releases, in the order they appear in the hotkey, one key
      for every `+`-separated piece that is not blank after stripping, and
      nothing else. */
  lemma ReleaseTokensSelect(hotkey: string)
    ensures var pieces := Split(hotkey, '+');
      SelectsBy(Piece, pieces, ReleaseTokens(hotkey), Kept(Piece, pieces))
  {
    CollectSelects(Piece, Split(hotkey, '+'));
  }

  /** One turn gives nothing exactly for a blank piece, and otherwise the
      stripped piece resolved against `HOTKEY_PH`. */
  lemma PieceBlank(p: string)
    ensures Piece(p) == [] <==> AllSpace(p)
    ensures !AllSpace(p) ==> Piece(p) == [Resolve(Strip(p))]
  {
    StripTrimmed(p);
  }

  /** Blank pieces, such as the empty ones `++` produces, release nothing. */
  lemma {:induction false} BlankPiecesReleaseNothing(pieces: seq<string>)
    requires forall i | 0 <= i < |pieces| :: AllSpace(pieces[i])
    ensures Collect(Piece, pieces) == []
  {
    if |pieces| > 0 {
      PieceBlank(pieces[0]);
      BlankPiecesReleaseNothing(pieces[1..]);
    }
  }

  // As in `Detect`, the examples take their literal through a `requires` on a
  // parameter rather than in place, which keeps the verifier from unfolding
  // `Split` and `Strip` on the literal eagerly.

  /** The default hotkey splits into three pieces. */
  lemma DefaultHotkeyPieces(hotkey: string)
    requires hotkey == "ctrl+shift+q"
    ensures Split(hotkey, '+') == ["ctrl", "shift", "q"]
  {
    var pieces := ["ctrl", "shift", "q"];
    assert Join(pieces[..2], '+') == "ctrl+shift";
    assert Join(pieces, '+') == hotkey;
    SplitUnique(pieces, '+');
  }

  /** A piece with no surrounding whitespace gives itself, resolved. */
  lemma PieceUnpadded(p: string)
    requires p != [] && !IsSpace(p[0]) && !IsSpace(p[|p| - 1])
    ensures Piece(p) == [Resolve(p)]
  {
    StripUnpadded(p);
  }

  /** Each piece of the default hotkey gives its own key; with
      `DefaultHotkeyPieces` and `ReleaseThree` the default hotkey releases
      Ctrl, Shift and the letter `q`, in that order. */
  lemma DefaultHotkeyTurns(a: string, b: string, c: string)
    requires a == "ctrl" && b == "shift" && c == "q"
    ensures Piece(a) == [Named(Ctrl)] && Piece(b) == [Named(Shift)] && Piece(c) == [Literal("q")]
  {
    CtrlTurn(a);
    ShiftTurn(b);
    QTurn(c);
  }

  lemma CtrlTurn(a: string)
    requires a == "ctrl"
    ensures Piece(a) == [Named(Ctrl)]
  {
    PieceUnpadded(a);
    assert a in HOTKEY_PH && HOTKEY_PH[a] == Ctrl;
  }

  lemma ShiftTurn(b: string)
    requires b == "shift"
    ensures Piece(b) == [Named(Shift)]
  {
    PieceUnpadded(b);
    assert b in HOTKEY_PH && HOTKEY_PH[b] == Shift;
  }

  lemma QTurn(c: string)
    requires c == "q"
    ensures Piece(c) == [Literal("q")]
  {
    PieceUnpadded(c);
    assert c !in HOTKEY_PH by {
      assert |c| == 1;
    }
  }

  /** A hotkey of three pieces releases what each of them gives, in order. */
  lemma ReleaseThree(hotkey: string, a: string, b: string, c: string)
    requires Split(hotkey, '+') == [a, b, c]
    ensures ReleaseTokens(hotkey) == Piece(a) + Piece(b) + Piece(c)
  {
    var pieces := [a, b, c];
    assert Collect(Piece, pieces[2..]) == Piece(c);
    assert Collect(Piece, pieces[1..]) == Piece(b) + Piece(c);
  }

  /** Names are matched exactly: a capitalised name is released as a literal. */
  lemma CapitalisedNameIsLiteral(k: string)
    requires k == "Ctrl"
    ensures Resolve(k) == Literal("Ctrl")
  {
    assert k !in HOTKEY_PH by {
      assert k[0] == 'C';
    }
  }
}
