/** `on_hotkey` (main.py lines 222-269) as a trace of effects over an abstract
    clipboard. Each clipboard call is summarised by its `Outcome` (the
    retry loop's result, see `GetTextOutcome` and `SetTextOutcome`), taken in
    order from a sequence the caller supplies. The foreground application is
    modelled by two rules: Ctrl+C puts the selection, if there is one, on the
    clipboard, and Ctrl+V pastes whatever the clipboard holds. */
module Workflow {
  import opened Text
  import opened Clipboard
  import opened Hotkey
  import opened Detect

  /** One effect of the handler: a clipboard read with the text it returned,
      a clipboard write, a key release, the Ctrl+C or the Ctrl+V keystrokes
      (with what the application pastes). */
  datatype Event =
    | ReadClip(got: string, o: Outcome)
    | WriteClip(text: string, o: Outcome)
    | Release(t: Token)
    | Copy
    | Paste(what: Content)

  /** The handler part way through: the clipboard, the outcomes of the
      clipboard calls still to come, the effects so far, and the code of the
      error that ended the handler, if one did. */
  datatype Session = Session(clipboard: Content, outcomes: seq<Outcome>, trace: seq<Event>, raised: Option<int>)

  function Raise(o: Outcome): (r: Option<int>)
    ensures r.Some? <==> o.Failed?
  {
    if o.Failed? then Some(o.code) else None
  }

  /** The outcomes of the clipboard calls along a trace, in order. */
  function Calls(t: seq<Event>): seq<Outcome> {
    if |t| == 0 then []
    else
      var e := t[|t| - 1];
      Calls(t[..|t| - 1]) + (if e.ReadClip? || e.WriteClip? then [e.o] else [])
  }

  lemma {:induction false} CallsConcat(a: seq<Event>, b: seq<Event>)
    ensures Calls(a + b) == Calls(a) + Calls(b)
    decreases |b|
  {
    if |b| == 0 {
      assert a + b == a;
    } else {
      var n := |b| - 1;
      assert (a + b)[..|a + b| - 1] == a + b[..n];
      CallsConcat(a, b[..n]);
    }
  }

  /** Every outcome the session was given: those its clipboard calls used,
      in order, then those still to come. */
  function Supplied(s: Session): seq<Outcome> {
    Calls(s.trace) + s.outcomes
  }

  /** No clipboard call before the last one failed, and the session has
      raised exactly when its last call failed, with that call's code. */
  predicate Stops(s: Session) {
    var c := Calls(s.trace);
    && (forall i | 0 <= i < |c| - 1 :: !c[i].Failed?)
    && s.raised == (if |c| == 0 then None else Raise(c[|c| - 1]))
  }

  /** A clipboard call that uses the next outcome keeps the outcomes in
      order. */
  lemma CallStep(s: Session, e: Event, c: Content)
    requires |s.outcomes| >= 1 && s.raised.None?
    requires (e.ReadClip? || e.WriteClip?) && e.o == s.outcomes[0]
    ensures var s' := s.(clipboard := c, outcomes := s.outcomes[1..], trace := s.trace + [e], raised := Raise(e.o));
      Supplied(s') == Supplied(s) && (Stops(s) ==> Stops(s'))
  {
    assert (s.trace + [e])[..|s.trace|] == s.trace;
    assert [e.o] + s.outcomes[1..] == s.outcomes;
  }

  /** `get_clipboard_text()`: the clipboard's text when the call goes
      through, `""` when it runs out of attempts; a failure ends the handler.
      After an error nothing happens any more. */
  function ReadStep(s: Session): (res: (Session, string))
    requires |s.outcomes| >= 1
    ensures res.0.clipboard == s.clipboard
    ensures |res.0.outcomes| + 1 >= |s.outcomes|
    ensures s.raised.Some? ==> res == (s, "")
    ensures s.raised.None? ==>
      && res.1 == (if s.outcomes[0] == Done then TextOf(s.clipboard) else "")
      && res.0.outcomes == s.outcomes[1..]
      && res.0.trace == s.trace + [ReadClip(res.1, s.outcomes[0])]
      && res.0.raised == Raise(s.outcomes[0])
  {
    if s.raised.Some? then (s, "")
    else
      var o := s.outcomes[0];
      var got := if o == Done then TextOf(s.clipboard) else "";
      (s.(outcomes := s.outcomes[1..], trace := s.trace + [ReadClip(got, o)], raised := Raise(o)), got)
  }

  /** `set_clipboard_text(text)`: the clipboard holds `text` afterwards
      exactly when the call went through. */
  function WriteStep(s: Session, text: string): (s': Session)
    requires |s.outcomes| >= 1
    ensures |s'.outcomes| + 1 >= |s.outcomes|
    ensures s.raised.Some? ==> s' == s
    ensures s.raised.None? ==>
      && s'.clipboard == (if s.outcomes[0] == Done then HasText(text) else s.clipboard)
      && s'.outcomes == s.outcomes[1..]
      && s'.trace == s.trace + [WriteClip(text, s.outcomes[0])]
      && s'.raised == Raise(s.outcomes[0])
  {
    if s.raised.Some? then s
    else
      var o := s.outcomes[0];
      var c := if o == Done then HasText(text) else s.clipboard;
      s.(clipboard := c, outcomes := s.outcomes[1..], trace := s.trace + [WriteClip(text, o)], raised := Raise(o))
  }

  /** Effects that touch neither the clipboard nor the outcomes. */
  function Emit(s: Session, events: seq<Event>): (s': Session)
    ensures s'.clipboard == s.clipboard && s'.outcomes == s.outcomes && s'.raised == s.raised
    ensures s'.trace == if s.raised.Some? then s.trace else s.trace + events
  {
    if s.raised.Some? then s else s.(trace := s.trace + events)
  }

  /** One `kb.release` per parsed piece of the hotkey, in order; no
      clipboard call among them. */
  function Releases(toks: seq<Token>): (es: seq<Event>)
    ensures |es| == |toks|
    ensures forall i | 0 <= i < |toks| :: es[i] == Release(toks[i])
  {
    seq(|toks|, i requires 0 <= i < |toks| => Release(toks[i]))
  }

  /** Ctrl+C; the application copies the selection, if there is one. */
  function CopyStep(s: Session, selection: Option<string>): (s': Session)
    ensures s'.outcomes == s.outcomes && s'.raised == s.raised
    ensures s.raised.None? ==> s'.trace == s.trace + [Copy]
    ensures s'.clipboard == if s.raised.None? && selection.Some? then HasText(selection.value) else s.clipboard
  {
    var t := Emit(s, [Copy]);
    if s.raised.None? && selection.Some? then t.(clipboard := HasText(selection.value)) else t
  }

  /** Ctrl+V; the application pastes what the clipboard holds. */
  function PasteStep(s: Session): (s': Session)
    ensures s'.clipboard == s.clipboard && s'.outcomes == s.outcomes && s'.raised == s.raised
    ensures s.raised.None? ==> s'.trace == s.trace + [Paste(s.clipboard)]
  {
    Emit(s, [Paste(s.clipboard)])
  }

  function Start(clipboard: Content, outcomes: seq<Outcome>): Session {
    Session(clipboard, outcomes, [], None)
  }

  /** Releasing keys makes no clipboard call. */
  lemma {:induction false} ReleasesNoCalls(toks: seq<Token>)
    ensures Calls(Releases(toks)) == []
  {
    if |toks| > 0 {
      var n := |toks| - 1;
      assert Releases(toks)[..n] == Releases(toks[..n]);
      ReleasesNoCalls(toks[..n]);
    }
  }

  /** A fresh session has used no outcome. */
  lemma StartInOrder(clipboard: Content, outcomes: seq<Outcome>)
    ensures Supplied(Start(clipboard, outcomes)) == outcomes && Stops(Start(clipboard, outcomes))
  {
    assert Calls([]) == [];
  }

  /** Each step keeps the outcomes in order: a clipboard call uses the next
      one, and the other effects use none. */
  lemma ReadInOrder(s: Session)
    requires |s.outcomes| >= 1
    ensures var s' := ReadStep(s).0; Supplied(s') == Supplied(s) && (Stops(s) ==> Stops(s'))
  {
    if s.raised.None? {
      var o := s.outcomes[0];
      CallStep(s, ReadClip(if o == Done then TextOf(s.clipboard) else "", o), s.clipboard);
    }
  }

  lemma WriteInOrder(s: Session, text: string)
    requires |s.outcomes| >= 1
    ensures var s' := WriteStep(s, text); Supplied(s') == Supplied(s) && (Stops(s) ==> Stops(s'))
  {
    if s.raised.None? {
      var o := s.outcomes[0];
      CallStep(s, WriteClip(text, o), if o == Done then HasText(text) else s.clipboard);
    }
  }

  lemma EmitInOrder(s: Session, events: seq<Event>)
    requires Calls(events) == []
    ensures var s' := Emit(s, events); Supplied(s') == Supplied(s) && (Stops(s) ==> Stops(s'))
  {
    CallsConcat(s.trace, events);
  }

  lemma CopyInOrder(s: Session, toks: seq<Token>, selection: Option<string>)
    ensures var s' := CopyStep(Emit(s, Releases(toks)), selection); Supplied(s') == Supplied(s) && (Stops(s) ==> Stops(s'))
  {
    ReleasesNoCalls(toks);
    EmitInOrder(s, Releases(toks));
    EmitInOrder(Emit(s, Releases(toks)), [Copy]);
  }

  lemma PasteInOrder(s: Session)
    ensures var s' := PasteStep(s); Supplied(s') == Supplied(s) && (Stops(s) ==> Stops(s'))
  {
    EmitInOrder(s, [Paste(s.clipboard)]);
  }

  /** The first half of `on_hotkey`: snapshot the clipboard, empty it,
      release the keys `toks`, copy, and read what was copied. Gives the
      session, the snapshot and the text read. */
  function Capture(toks: seq<Token>, clipboard: Content, selection: Option<string>, outcomes: seq<Outcome>): (res: (Session, string, string))
    requires |outcomes| >= 5
    ensures |res.0.outcomes| >= 2
  {
    var (s1, snapshot) := ReadStep(Start(clipboard, outcomes));
    var s2 := WriteStep(s1, "");
    var s3 := CopyStep(Emit(s2, Releases(toks)), selection);
    var (s4, selected) := ReadStep(s3);
    (s4, snapshot, selected)
  }

  /** The second half: with nothing read, put the snapshot back; otherwise
      write the text `fix` makes of it, paste, and put the snapshot back. */
  function Finish(fix: string -> string, s: Session, snapshot: string, selected: string): Session
    requires |s.outcomes| >= 2
  {
    if selected == [] then WriteStep(s, snapshot)
    else WriteStep(PasteStep(WriteStep(s, fix(selected))), snapshot)
  }

  /** The first half uses the outcomes in order, one per clipboard call,
      and stops at the first call that fails. */
  lemma CaptureInOrder(toks: seq<Token>, clipboard: Content, selection: Option<string>, outcomes: seq<Outcome>)
    requires |outcomes| >= 5
    ensures var s := Capture(toks, clipboard, selection, outcomes).0;
      Supplied(s) == outcomes && Stops(s)
  {
    var (s1, snapshot) := ReadStep(Start(clipboard, outcomes));
    var s2 := WriteStep(s1, "");
    var s3 := CopyStep(Emit(s2, Releases(toks)), selection);
    StartInOrder(clipboard, outcomes);
    ReadInOrder(Start(clipboard, outcomes));
    WriteInOrder(s1, "");
    CopyInOrder(s2, toks, selection);
    ReadInOrder(s3);
  }

  /** So does the second half, from where the first one left off. */
  lemma FinishInOrder(fix: string -> string, s: Session, snapshot: string, selected: string)
    requires |s.outcomes| >= 2
    ensures var f := Finish(fix, s, snapshot, selected);
      Supplied(f) == Supplied(s) && (Stops(s) ==> Stops(f))
  {
    if selected == [] {
      WriteInOrder(s, snapshot);
    } else {
      var s1 := WriteStep(s, fix(selected));
      WriteInOrder(s, fix(selected));
      PasteInOrder(s1);
      WriteInOrder(PasteStep(s1), snapshot);
    }
  }

  /** The handler with the keys to release and the fixer given. */
  function Handle(toks: seq<Token>, fix: string -> string, clipboard: Content, selection: Option<string>, outcomes: seq<Outcome>): (h: Session)
    requires |outcomes| >= 5
    ensures Supplied(h) == outcomes && Stops(h)
  {
    var (s, snapshot, selected) := Capture(toks, clipboard, selection, outcomes);
    CaptureInOrder(toks, clipboard, selection, outcomes);
    FinishInOrder(fix, s, snapshot, selected);
    Finish(fix, s, snapshot, selected)
  }

  /** `on_hotkey(hotkey)` while the clipboard holds `clipboard` and the
      foreground application has `selection` selected; `outcomes` has one
      entry per clipboard call, of which there are at most five. Each call
      uses the next outcome, and an error other than access denied ends the
      handler where it happens, as the exception does. Every call is made
      with the default five attempts; `Clipboard.DefaultReadOutcomes` and
      `Clipboard.DefaultWriteOutcomes` say which outcomes those can give. */
  function OnHotkey(hotkey: string, clipboard: Content, selection: Option<string>, outcomes: seq<Outcome>): (h: Session)
    requires |outcomes| >= 5
    ensures Supplied(h) == outcomes && Stops(h)
  {
    Handle(ReleaseTokens(hotkey), FixLayout, clipboard, selection, outcomes)
  }

  /** What the clipboard holds after the copy: the selection if there is one,
      otherwise empty text if it was emptied and the old content if the
      emptying write ran out of attempts. */
  function AfterCopy(clipboard: Content, selection: Option<string>, arm: Outcome): Content {
    if selection.Some? then HasText(selection.value) else if arm == Done then HasText("") else clipboard
  }

  /** The snapshot read and the emptying write, when neither fails. */
  lemma OpeningSteps(clipboard: Content, o: seq<Outcome>)
    requires |o| >= 5
    requires !o[0].Failed? && !o[1].Failed?
    ensures var (s1, snapshot) := ReadStep(Start(clipboard, o));
      && snapshot == (if o[0] == Done then TextOf(clipboard) else "")
      && WriteStep(s1, "") == Session(if o[1] == Done then HasText("") else clipboard, o[2..], [ReadClip(snapshot, o[0]), WriteClip("", o[1])], None)
  {
  }

  /** The releases, the copy and the second read, after an opening without
      an error. */
  lemma CopyAndRead(s: Session, toks: seq<Token>, selection: Option<string>)
    requires |s.outcomes| >= 1 && s.raised.None?
    ensures var s3 := CopyStep(Emit(s, Releases(toks)), selection);
      var (s4, selected) := ReadStep(s3);
      && s4.raised == Raise(s.outcomes[0])
      && s3.clipboard == (if selection.Some? then HasText(selection.value) else s.clipboard)
      && selected == (if s.outcomes[0] == Done then TextOf(s3.clipboard) else "")
      && s4.trace == s.trace + Releases(toks) + [Copy, ReadClip(selected, s.outcomes[0])]
      && s4.clipboard == s3.clipboard
      && s4.outcomes == s.outcomes[1..]
  {
  }

  /** Unless the snapshot read or the emptying write fails, the first half
      reads the snapshot, writes `""`, releases the keys in order, copies and
      reads again. The snapshot is the clipboard's text if the first read
      went through and `""` otherwise; the text read is that of what the
      copy left on the clipboard if the second read went through and `""`
      otherwise. */
  lemma CaptureTrace(toks: seq<Token>, clipboard: Content, selection: Option<string>, o: seq<Outcome>)
    requires |o| >= 5
    requires !o[0].Failed? && !o[1].Failed?
    ensures var (s, snapshot, selected) := Capture(toks, clipboard, selection, o);
      && s.raised == Raise(o[2])
      && snapshot == (if o[0] == Done then TextOf(clipboard) else "")
      && selected == (if o[2] == Done then TextOf(AfterCopy(clipboard, selection, o[1])) else "")
      && s.trace == [ReadClip(snapshot, o[0]), WriteClip("", o[1])] + Releases(toks) + [Copy, ReadClip(selected, o[2])]
      && s.clipboard == AfterCopy(clipboard, selection, o[1])
      && s.outcomes == o[3..]
  {
    var (s1, snapshot) := ReadStep(Start(clipboard, o));
    OpeningSteps(clipboard, o);
    var s2 := WriteStep(s1, "");
    CopyAndRead(s2, toks, selection);
    assert s2.outcomes[0] == o[2] && s2.outcomes[1..] == o[3..];
  }

  /** Without an error before it, the second half writes the snapshot back
      when nothing was read; otherwise it writes the fixed text, pastes what
      the clipboard then holds, and writes the snapshot back, stopping at a
      failed call. */
  lemma FinishTrace(fix: string -> string, s: Session, snapshot: string, selected: string)
    requires |s.outcomes| >= 2
    requires s.raised.None?
    ensures var f, o := Finish(fix, s, snapshot, selected), s.outcomes;
      && (selected == "" ==>
            && f.trace == s.trace + [WriteClip(snapshot, o[0])]
            && f.clipboard == (if o[0] == Done then HasText(snapshot) else s.clipboard)
            && f.raised == Raise(o[0]))
      && (selected != "" && o[0].Failed? ==>
            && f.trace == s.trace + [WriteClip(fix(selected), o[0])]
            && f.clipboard == s.clipboard
            && f.raised == Raise(o[0]))
      && (selected != "" && !o[0].Failed? ==>
            var pasted := if o[0] == Done then HasText(fix(selected)) else s.clipboard;
            && f.trace == s.trace + [WriteClip(fix(selected), o[0]), Paste(pasted), WriteClip(snapshot, o[1])]
            && f.clipboard == (if o[1] == Done then HasText(snapshot) else pasted)
            && f.raised == Raise(o[1]))
  {
    if selected != "" {
      var s5 := WriteStep(s, fix(selected));
      assert s5.outcomes == s.outcomes[1..];
    }
  }

  /** What is pasted along a trace, in order. */
  function Pasted(t: seq<Event>): seq<Content> {
    if |t| == 0 then [] else (if t[0].Paste? then [t[0].what] else []) + Pasted(t[1..])
  }

  lemma {:induction false} PastedConcat(a: seq<Event>, b: seq<Event>)
    ensures Pasted(a + b) == Pasted(a) + Pasted(b)
  {
    if |a| == 0 {
      assert a + b == b;
    } else {
      assert (a + b)[1..] == a[1..] + b;
      PastedConcat(a[1..], b);
      var h := if a[0].Paste? then [a[0].what] else [];
      assert h + (Pasted(a[1..]) + Pasted(b)) == (h + Pasted(a[1..])) + Pasted(b);
    }
  }

  /** Releasing keys pastes nothing. */
  lemma {:induction false} PastedReleases(toks: seq<Token>)
    ensures Pasted(Releases(toks)) == []
  {
    if |toks| > 0 {
      assert Releases(toks)[1..] == Releases(toks[1..]);
      PastedReleases(toks[1..]);
    }
  }

  /** The first half pastes nothing. */
  lemma CapturePastesNothing(snapshot: string, o1: Outcome, o2: Outcome, toks: seq<Token>, o3: Outcome, selected: string)
    ensures Pasted([ReadClip(snapshot, o1), WriteClip("", o2)] + Releases(toks) + [Copy, ReadClip(selected, o3)]) == []
  {
    var a, r, c := [ReadClip(snapshot, o1), WriteClip("", o2)], Releases(toks), [Copy, ReadClip(selected, o3)];
    PastedReleases(toks);
    PastedConcat(a, r);
    PastedConcat(a + r, c);
    assert Pasted(a[1..]) == [] && Pasted(c[1..]) == [];
  }

  /** When every clipboard call goes through, the handler ends with the
      clipboard holding the text it began with, which for a clipboard
      without text is empty text, and it pastes the fixed selection exactly
      when something non-empty was selected. */
  lemma HandleAllDone(toks: seq<Token>, fix: string -> string, clipboard: Content, selection: Option<string>, o: seq<Outcome>)
    requires |o| >= 5
    requires forall i | 0 <= i < 5 :: o[i] == Done
    ensures var h := Handle(toks, fix, clipboard, selection, o);
      && h.raised.None?
      && h.clipboard == HasText(TextOf(clipboard))
      && Pasted(h.trace) == (if selection.Some? && selection.value != "" then [HasText(fix(selection.value))] else [])
  {
    CaptureTrace(toks, clipboard, selection, o);
    var (s, snapshot, selected) := Capture(toks, clipboard, selection, o);
    FinishTrace(fix, s, snapshot, selected);
    CapturePastesNothing(snapshot, o[0], o[1], toks, o[2], selected);
    var tail := if selected == "" then [WriteClip(snapshot, Done)]
      else [WriteClip(fix(selected), Done), Paste(HasText(fix(selected))), WriteClip(snapshot, Done)];
    assert Finish(fix, s, snapshot, selected).trace == s.trace + tail;
    PastedConcat(s.trace, tail);
    PastedFinish(snapshot, fix(selected), Done, Done);
  }

  /** What the two shapes of the second half paste. */
  lemma PastedFinish(snapshot: string, fixed: string, o1: Outcome, o2: Outcome)
    ensures Pasted([WriteClip(snapshot, o1)]) == []
    ensures Pasted([WriteClip(fixed, o1), Paste(HasText(fixed)), WriteClip(snapshot, o2)]) == [HasText(fixed)]
  {
    var t := [WriteClip(fixed, o1), Paste(HasText(fixed)), WriteClip(snapshot, o2)];
    assert Pasted(t[2..]) == [];
    assert Pasted(t[1..]) == [HasText(fixed)];
  }

  /** When the snapshot read runs out of attempts and every later call goes
      through, the handler ends with empty text on the clipboard: the
      snapshot it puts back is the `""` the failed read returned, and that
      write succeeds. */
  lemma SnapshotLost(toks: seq<Token>, fix: string -> string, clipboard: Content, selection: Option<string>, o: seq<Outcome>)
    requires |o| >= 5
    requires o[0] == Exhausted
    requires forall i | 1 <= i < 5 :: o[i] == Done
    ensures var h := Handle(toks, fix, clipboard, selection, o);
      && h.raised.None?
      && h.clipboard == HasText("")
      && |h.trace| > 0 && h.trace[|h.trace| - 1] == WriteClip("", Done)
  {
    CaptureTrace(toks, clipboard, selection, o);
    var (s, snapshot, selected) := Capture(toks, clipboard, selection, o);
    FinishTrace(fix, s, snapshot, selected);
  }

  /** When the write that empties the clipboard runs out of attempts and
      nothing is selected, the copy leaves the old text in place, the second
      read takes it for the selection, and the handler pastes the old text,
      fixed, over the cursor. */
  lemma StalePaste(toks: seq<Token>, fix: string -> string, clipboard: Content, o: seq<Outcome>)
    requires |o| >= 5
    requires o[1] == Exhausted
    requires forall i | 0 <= i < 5 && i != 1 :: o[i] == Done
    requires clipboard.HasText? && clipboard.text != ""
    ensures var h := Handle(toks, fix, clipboard, None, o);
      && h.raised.None?
      && Pasted(h.trace) == [HasText(fix(clipboard.text))]
  {
    CaptureTrace(toks, clipboard, None, o);
    var (s, snapshot, selected) := Capture(toks, clipboard, None, o);
    FinishTrace(fix, s, snapshot, selected);
    CapturePastesNothing(snapshot, o[0], o[1], toks, o[2], selected);
    var tail := [WriteClip(fix(selected), Done), Paste(HasText(fix(selected))), WriteClip(snapshot, Done)];
    assert Finish(fix, s, snapshot, selected).trace == s.trace + tail;
    PastedConcat(s.trace, tail);
    PastedFinish(snapshot, fix(selected), Done, Done);
  }

  /** The second half with a guard: when writing the fixed text fails, put
      the snapshot back without pasting. */
  function FinishGuarded(fix: string -> string, s: Session, snapshot: string, selected: string): Session
    requires |s.outcomes| >= 2
  {
    if selected == [] then WriteStep(s, snapshot)
    else
      var s' := WriteStep(s, fix(selected));
      if s.outcomes[0] != Done then WriteStep(s', snapshot)
      else WriteStep(PasteStep(s'), snapshot)
  }

  /** The guarded second half uses the outcomes in order too. */
  lemma FinishGuardedInOrder(fix: string -> string, s: Session, snapshot: string, selected: string)
    requires |s.outcomes| >= 2
    ensures var f := FinishGuarded(fix, s, snapshot, selected);
      Supplied(f) == Supplied(s) && (Stops(s) ==> Stops(f))
  {
    if selected == [] {
      WriteInOrder(s, snapshot);
    } else {
      var s' := WriteStep(s, fix(selected));
      WriteInOrder(s, fix(selected));
      if s.outcomes[0] != Done {
        WriteInOrder(s', snapshot);
      } else {
        PasteInOrder(s');
        WriteInOrder(PasteStep(s'), snapshot);
      }
    }
  }

  /** The handler as evidently intended: it stops before touching the
      clipboard when the snapshot cannot be read, stops when the clipboard
      cannot be emptied (it still holds the snapshot), and never pastes text
      it did not write. Its clipboard calls use the outcomes in order, one
      each, and it stops at the first that fails. */
  function HandleGuarded(toks: seq<Token>, fix: string -> string, clipboard: Content, selection: Option<string>, outcomes: seq<Outcome>): (h: Session)
    requires |outcomes| >= 5
    ensures Supplied(h) == outcomes && Stops(h)
  {
    var (s1, _) := ReadStep(Start(clipboard, outcomes));
    ReadInOrder(Start(clipboard, outcomes));
    if outcomes[0] != Done then s1
    else if outcomes[1] != Done then WriteInOrder(s1, ""); WriteStep(s1, "")
    else
      var (s, snapshot, selected) := Capture(toks, clipboard, selection, outcomes);
      CaptureInOrder(toks, clipboard, selection, outcomes);
      FinishGuardedInOrder(fix, s, snapshot, selected);
      FinishGuarded(fix, s, snapshot, selected)
  }

  /** `on_hotkey` with the guards. */
  function OnHotkeyGuarded(hotkey: string, clipboard: Content, selection: Option<string>, outcomes: seq<Outcome>): (h: Session)
    requires |outcomes| >= 5
    ensures Supplied(h) == outcomes && Stops(h)
  {
    HandleGuarded(ReleaseTokens(hotkey), FixLayout, clipboard, selection, outcomes)
  }

  /** The guarded second half pastes only after writing the fixed text, and
      unless a call fails it ends with the snapshot on the clipboard or with
      a write of the snapshot that ran out of attempts. */
  lemma FinishGuardedFacts(fix: string -> string, s: Session, snapshot: string, selected: string)
    requires |s.outcomes| >= 2
    ensures var f := FinishGuarded(fix, s, snapshot, selected);
      && Pasted(f.trace) == Pasted(s.trace) + (if s.raised.None? && selected != "" && s.outcomes[0] == Done then [HasText(fix(selected))] else [])
      && (s.raised.None? && f.raised.None? ==>
            f.clipboard == HasText(snapshot) || (|f.trace| > 0 && f.trace[|f.trace| - 1] == WriteClip(snapshot, Exhausted)))
  {
    var o := s.outcomes;
    if s.raised.Some? {
      assert Pasted(s.trace) + [] == Pasted(s.trace);
    } else if selected == "" {
      PastedConcat(s.trace, [WriteClip(snapshot, o[0])]);
      PastedFinish(snapshot, fix(selected), o[0], o[0]);
    } else if o[0] == Done {
      var tail := [WriteClip(fix(selected), o[0]), Paste(HasText(fix(selected))), WriteClip(snapshot, o[1])];
      assert FinishGuarded(fix, s, snapshot, selected).trace == s.trace + tail;
      PastedConcat(s.trace, tail);
      PastedFinish(snapshot, fix(selected), o[0], o[1]);
    } else if o[0].Failed? {
      PastedConcat(s.trace, [WriteClip(fix(selected), o[0])]);
      PastedFinish(fix(selected), fix(selected), o[0], o[0]);
    } else {
      var tail := [WriteClip(fix(selected), o[0]), WriteClip(snapshot, o[1])];
      assert FinishGuarded(fix, s, snapshot, selected).trace == s.trace + tail;
      PastedConcat(s.trace, tail);
      assert Pasted(tail[1..]) == [];
    }
  }

  /** The guarded handler pastes at most once, and only the fixed text of a
      non-empty selection. */
  lemma GuardedPastesSelection(toks: seq<Token>, fix: string -> string, clipboard: Content, selection: Option<string>, o: seq<Outcome>)
    requires |o| >= 5
    ensures var p := Pasted(HandleGuarded(toks, fix, clipboard, selection, o).trace);
      p == [] || (selection.Some? && selection.value != "" && p == [HasText(fix(selection.value))])
  {
    var (s1, _) := ReadStep(Start(clipboard, o));
    if o[0] != Done {
      assert Pasted(s1.trace[1..]) == [];
    } else if o[1] != Done {
      var s2 := WriteStep(s1, "");
      assert Pasted(s2.trace[2..]) == [];
      assert Pasted(s2.trace[1..]) == [];
    } else {
      CaptureTrace(toks, clipboard, selection, o);
      var (s, snapshot, selected) := Capture(toks, clipboard, selection, o);
      CapturePastesNothing(snapshot, o[0], o[1], toks, o[2], selected);
      FinishGuardedFacts(fix, s, snapshot, selected);
    }
  }

  /** Unless a call fails, the guarded handler ends with the clipboard
      holding the text it began with, or with a write of that text back
      that ran out of attempts. */
  lemma GuardedKeepsClipboard(toks: seq<Token>, fix: string -> string, clipboard: Content, selection: Option<string>, o: seq<Outcome>)
    requires |o| >= 5
    ensures var h := HandleGuarded(toks, fix, clipboard, selection, o);
      clipboard.HasText? && h.raised.None? ==>
        h.clipboard == clipboard || (|h.trace| > 0 && h.trace[|h.trace| - 1] == WriteClip(clipboard.text, Exhausted))
  {
    if o[0] == Done && o[1] == Done {
      CaptureTrace(toks, clipboard, selection, o);
      var (s, snapshot, selected) := Capture(toks, clipboard, selection, o);
      FinishGuardedFacts(fix, s, snapshot, selected);
    }
  }

  /** A clipboard that holds no text (an image, say) ends up holding empty
      text after both handlers when every call goes through: its content
      cannot be read, so it cannot be put back. */
  lemma NonTextLost(toks: seq<Token>, fix: string -> string, selection: Option<string>, o: seq<Outcome>)
    requires |o| >= 5
    requires forall i | 0 <= i < 5 :: o[i] == Done
    ensures Handle(toks, fix, NoText, selection, o).clipboard == HasText("")
    ensures HandleGuarded(toks, fix, NoText, selection, o).clipboard == HasText("")
  {
    HandleAllDone(toks, fix, NoText, selection, o);
    GuardedAgrees(toks, fix, NoText, selection, o);
  }

  /** When every call goes through, the guards change nothing. */
  lemma GuardedAgrees(toks: seq<Token>, fix: string -> string, clipboard: Content, selection: Option<string>, o: seq<Outcome>)
    requires |o| >= 5
    requires forall i | 0 <= i < 5 :: o[i] == Done
    ensures HandleGuarded(toks, fix, clipboard, selection, o) == Handle(toks, fix, clipboard, selection, o)
  {
    CaptureTrace(toks, clipboard, selection, o);
  }

  /** A failed snapshot read or emptying write ends the handler there, with
      the clipboard untouched. */
  lemma HandleEarlyFailure(toks: seq<Token>, fix: string -> string, clipboard: Content, selection: Option<string>, o: seq<Outcome>)
    requires |o| >= 5
    ensures var h := Handle(toks, fix, clipboard, selection, o);
      && (o[0].Failed? ==> h == Session(clipboard, o[1..], [ReadClip("", o[0])], Raise(o[0])))
      && (!o[0].Failed? && o[1].Failed? ==>
            var snapshot := if o[0] == Done then TextOf(clipboard) else "";
            h == Session(clipboard, o[2..], [ReadClip(snapshot, o[0]), WriteClip("", o[1])], Raise(o[1])))
  {
    var (s1, _) := ReadStep(Start(clipboard, o));
    if !o[0].Failed? {
      assert s1.outcomes == o[1..];
    }
  }

  /** Otherwise the handler begins by reading the snapshot, emptying the
      clipboard, releasing the keys in order and copying, whatever happens
      later. */
  lemma HandleOpening(toks: seq<Token>, fix: string -> string, clipboard: Content, selection: Option<string>, o: seq<Outcome>)
    requires |o| >= 5
    requires !o[0].Failed? && !o[1].Failed?
    ensures var h, snapshot := Handle(toks, fix, clipboard, selection, o), if o[0] == Done then TextOf(clipboard) else "";
      && |h.trace| >= |toks| + 3
      && h.trace[..|toks| + 3] == [ReadClip(snapshot, o[0]), WriteClip("", o[1])] + Releases(toks) + [Copy]
  {
    CaptureTrace(toks, clipboard, selection, o);
    var (s, snapshot, selected) := Capture(toks, clipboard, selection, o);
    FinishExtends(fix, s, snapshot, selected);
    var f := Finish(fix, s, snapshot, selected);
    var n := |toks| + 3;
    assert s.trace[..n] == [ReadClip(snapshot, o[0]), WriteClip("", o[1])] + Releases(toks) + [Copy];
    assert f.trace[..n] == f.trace[..|s.trace|][..n];
  }

  /** The second half only adds to the trace. */
  lemma FinishExtends(fix: string -> string, s: Session, snapshot: string, selected: string)
    requires |s.outcomes| >= 2
    ensures var f := Finish(fix, s, snapshot, selected);
      |f.trace| >= |s.trace| && f.trace[..|s.trace|] == s.trace
  {
    if selected != "" {
      var s1 := WriteStep(s, fix(selected));
      var s2 := PasteStep(s1);
      assert s2.trace[..|s.trace|] == s.trace;
    }
  }

  /** `on_hotkey` with every clipboard call going through: the clipboard
      ends holding the text it began with, the keys of the hotkey are
      released in order after the snapshot and the emptying write, and the
      layout-fixed selection is pasted exactly when a non-empty text was
      selected. */
  lemma OnHotkeyAllDone(hotkey: string, clipboard: Content, selection: Option<string>, o: seq<Outcome>)
    requires |o| >= 5
    requires forall i | 0 <= i < 5 :: o[i] == Done
    ensures var h, toks := OnHotkey(hotkey, clipboard, selection, o), ReleaseTokens(hotkey);
      && h.raised.None?
      && h.clipboard == HasText(TextOf(clipboard))
      && |h.trace| >= |toks| + 3
      && h.trace[..|toks| + 3] == [ReadClip(TextOf(clipboard), Done), WriteClip("", Done)] + Releases(toks) + [Copy]
      && Pasted(h.trace) == (if selection.Some? && selection.value != "" then [HasText(FixLayout(selection.value))] else [])
  {
    HandleAllDone(ReleaseTokens(hotkey), FixLayout, clipboard, selection, o);
    HandleOpening(ReleaseTokens(hotkey), FixLayout, clipboard, selection, o);
  }

  /** `on_hotkey` loses the clipboard when only its snapshot read runs out of
      attempts. */
  lemma OnHotkeySnapshotLost(hotkey: string, clipboard: Content, selection: Option<string>, o: seq<Outcome>)
    requires |o| >= 5
    requires o[0] == Exhausted
    requires forall i | 1 <= i < 5 :: o[i] == Done
    ensures var h := OnHotkey(hotkey, clipboard, selection, o);
      h.raised.None? && h.clipboard == HasText("")
  {
    SnapshotLost(ReleaseTokens(hotkey), FixLayout, clipboard, selection, o);
  }

  /** `on_hotkey` pastes the layout-fixed old clipboard text when nothing is
      selected and only its emptying write runs out of attempts. */
  lemma OnHotkeyStalePaste(hotkey: string, clipboard: Content, o: seq<Outcome>)
    requires |o| >= 5
    requires o[1] == Exhausted
    requires forall i | 0 <= i < 5 && i != 1 :: o[i] == Done
    requires clipboard.HasText? && clipboard.text != ""
    ensures Pasted(OnHotkey(hotkey, clipboard, None, o).trace) == [HasText(FixLayout(clipboard.text))]
  {
    StalePaste(ReleaseTokens(hotkey), FixLayout, clipboard, o);
  }

  /** The guarded `on_hotkey` pastes nothing but the layout-fixed selection. */
  lemma OnHotkeyGuardedPastesSelection(hotkey: string, clipboard: Content, selection: Option<string>, o: seq<Outcome>)
    requires |o| >= 5
    ensures var p := Pasted(OnHotkeyGuarded(hotkey, clipboard, selection, o).trace);
      p == [] || (selection.Some? && selection.value != "" && p == [HasText(FixLayout(selection.value))])
  {
    GuardedPastesSelection(ReleaseTokens(hotkey), FixLayout, clipboard, selection, o);
  }

  /** Unless a call fails, the guarded `on_hotkey` ends with the clipboard
      holding the text it began with, or with a write of that text back
      that ran out of attempts. */
  lemma OnHotkeyGuardedKeepsClipboard(hotkey: string, clipboard: Content, selection: Option<string>, o: seq<Outcome>)
    requires |o| >= 5
    ensures var h := OnHotkeyGuarded(hotkey, clipboard, selection, o);
      clipboard.HasText? && h.raised.None? ==>
        h.clipboard == clipboard || (|h.trace| > 0 && h.trace[|h.trace| - 1] == WriteClip(clipboard.text, Exhausted))
  {
    GuardedKeepsClipboard(ReleaseTokens(hotkey), FixLayout, clipboard, selection, o);
  }

  /** When every call goes through, the guarded `on_hotkey` does exactly what
      `on_hotkey` does. */
  lemma OnHotkeyGuardedAgrees(hotkey: string, clipboard: Content, selection: Option<string>, o: seq<Outcome>)
    requires |o| >= 5
    requires forall i | 0 <= i < 5 :: o[i] == Done
    ensures OnHotkeyGuarded(hotkey, clipboard, selection, o) == OnHotkey(hotkey, clipboard, selection, o)
  {
    GuardedAgrees(ReleaseTokens(hotkey), FixLayout, clipboard, selection, o);
  }
}
