/** The retry policy of `get_clipboard_text` and `set_clipboard_text`
    (main.py, lines 113-172). The Win32 clipboard is not modelled: each call
    to open it is one `Attempt` taken from a sequence the caller supplies, and
    the clipboard's content is a value. */
module Clipboard {

  /** What the clipboard holds: text, or no text at all (nothing, or only
      non-text formats such as an image or a list of files). */
  datatype Content = HasText(text: string) | NoText

  /** What the body of `get_clipboard_text` reads from the clipboard: its
      text, and `""` when no text format is available (main.py lines
      130-135). */
  function TextOf(c: Content): string {
    if c.HasText? then c.text else ""
  }

  /** What one pass through the body of the retry loop does: everything
      between opening and closing the clipboard succeeds, or it raises a
      `pywintypes.error` with the given code. */
  datatype Attempt = Opened | Raised(code: int)

  /** The Win32 error code the loop retries on. */
  const ERROR_ACCESS_DENIED: int := 5
  /** The default `retries` argument of both functions. */
  const RETRIES: int := 5

  predicate Denied(a: Attempt) {
    a == Raised(ERROR_ACCESS_DENIED)
  }

  /** How many attempts `range(retries)` allows. */
  function Attempts(retries: int): nat {
    if retries > 0 then retries else 0
  }

  /** The first `k` attempts were all refused with access denied. */
  predicate DeniedUpTo(env: seq<Attempt>, k: int)
    requires 0 <= k <= |env|
  {
    forall i | 0 <= i < k :: Denied(env[i])
  }

  /** How a read ends, with the number of attempts it took. */
  datatype Read =
    | ReadOk(text: string, used: nat)
    | ReadExhausted(used: nat)
    | ReadRaised(code: int, used: nat)

  /** What `get_clipboard_text` returns when it does not raise: the text read,
      or `""` once every attempt was refused. */
  function ReadValue(r: Read): string {
    if r.ReadOk? then r.text else ""
  }

  function DelayRead(r: Read): (d: Read)
    ensures d.used == r.used + 1
  {
    match r
    case ReadOk(t, u) => ReadOk(t, u + 1)
    case ReadExhausted(u) => ReadExhausted(u + 1)
    case ReadRaised(c, u) => ReadRaised(c, u + 1)
  }

  /** `get_clipboard_text(retries)` while the body reads `content` from the
      clipboard (`TextOf`). `GetTextDecided` states the policy. */
  function GetText(content: string, retries: int, env: seq<Attempt>): (r: Read)
    requires Attempts(retries) <= |env|
    ensures r.used <= Attempts(retries)
    decreases retries
  {
    if retries <= 0 then ReadExhausted(0)
    else if env[0].Opened? then ReadOk(content, 1)
    else if !Denied(env[0]) then ReadRaised(env[0].code, 1)
    else DelayRead(GetText(content, retries - 1, env[1..]))
  }

  /** The first attempt that is not refused with access denied decides the
      read; when every attempt is refused the read is exhausted. */
  lemma {:induction false} GetTextDecided(content: string, retries: int, env: seq<Attempt>)
    requires Attempts(retries) <= |env|
    ensures DeniedUpTo(env, Attempts(retries)) ==> GetText(content, retries, env) == ReadExhausted(Attempts(retries))
    ensures forall k | 0 <= k < Attempts(retries) && DeniedUpTo(env, k) && !Denied(env[k]) ::
              GetText(content, retries, env) == (if env[k].Opened? then ReadOk(content, k + 1) else ReadRaised(env[k].code, k + 1))
    decreases retries
  {
    if retries > 0 && Denied(env[0]) {
      GetTextDecided(content, retries - 1, env[1..]);
      assert forall k | 1 <= k <= Attempts(retries) && DeniedUpTo(env, k) :: DeniedUpTo(env[1..], k - 1);
    }
  }

  /** How a write ends, with the number of attempts it took. */
  datatype Write =
    | Written(used: nat)
    | WriteExhausted(used: nat)
    | WriteRaised(code: int, used: nat)

  function DelayWrite(w: Write): (d: Write)
    ensures d.used == w.used + 1
  {
    match w
    case Written(u) => Written(u + 1)
    case WriteExhausted(u) => WriteExhausted(u + 1)
    case WriteRaised(c, u) => WriteRaised(c, u + 1)
  }

  /** `set_clipboard_text(text, retries)`, with the same policy as reading
      (`SetTextDecided`). A `Written` outcome means the clipboard now holds
      `text`; an exhausted one means the function returned normally without
      writing. */
  function SetText(retries: int, env: seq<Attempt>): (w: Write)
    requires Attempts(retries) <= |env|
    ensures w.used <= Attempts(retries)
    decreases retries
  {
    if retries <= 0 then WriteExhausted(0)
    else if env[0].Opened? then Written(1)
    else if !Denied(env[0]) then WriteRaised(env[0].code, 1)
    else DelayWrite(SetText(retries - 1, env[1..]))
  }

  /** The first attempt that is not refused with access denied decides the
      write; when every attempt is refused the write is exhausted. */
  lemma {:induction false} SetTextDecided(retries: int, env: seq<Attempt>)
    requires Attempts(retries) <= |env|
    ensures DeniedUpTo(env, Attempts(retries)) ==> SetText(retries, env) == WriteExhausted(Attempts(retries))
    ensures forall k | 0 <= k < Attempts(retries) && DeniedUpTo(env, k) && !Denied(env[k]) ::
              SetText(retries, env) == (if env[k].Opened? then Written(k + 1) else WriteRaised(env[k].code, k + 1))
    decreases retries
  {
    if retries > 0 && Denied(env[0]) {
      SetTextDecided(retries - 1, env[1..]);
      assert forall k | 1 <= k <= Attempts(retries) && DeniedUpTo(env, k) :: DeniedUpTo(env[1..], k - 1);
    }
  }

  /** Every attempt before the deciding one was refused with access denied:
      the loop never retries after any other error. */
  lemma {:induction false} GetTextRetriesOnlyDenied(content: string, retries: int, env: seq<Attempt>)
    requires Attempts(retries) <= |env|
    ensures var r := GetText(content, retries, env);
      DeniedUpTo(env, if r.ReadExhausted? then r.used else r.used - 1)
    ensures var r := GetText(content, retries, env);
      !r.ReadExhausted? ==> r.used >= 1 && !Denied(env[r.used - 1])
    decreases retries
  {
    if retries > 0 && Denied(env[0]) {
      GetTextRetriesOnlyDenied(content, retries - 1, env[1..]);
    }
  }

  /** What the caller of either function can tell about a call: it went
      through, it ran out of attempts, or it raised the given code. */
  datatype Outcome = Done | Exhausted | Failed(code: int)

  function ReadOutcome(r: Read): Outcome {
    match r
    case ReadOk(_, _) => Done
    case ReadExhausted(_) => Exhausted
    case ReadRaised(c, _) => Failed(c)
  }

  function WriteOutcome(w: Write): Outcome {
    match w
    case Written(_) => Done
    case WriteExhausted(_) => Exhausted
    case WriteRaised(c, _) => Failed(c)
  }

  /** A read runs out exactly when every attempt is refused, raises exactly
      the code of the first attempt that is refused otherwise, and returns
      the clipboard's text when it goes through and `""` when it runs out. */
  lemma GetTextOutcome(content: string, retries: int, env: seq<Attempt>)
    requires Attempts(retries) <= |env|
    ensures var o := ReadOutcome(GetText(content, retries, env));
      && (o == Exhausted <==> DeniedUpTo(env, Attempts(retries)))
      && (o.Failed? ==> exists k | 0 <= k < Attempts(retries) :: DeniedUpTo(env, k) && env[k] == Raised(o.code) && !Denied(env[k]))
      && ReadValue(GetText(content, retries, env)) == (if o == Done then content else "")
  {
    GetTextDecided(content, retries, env);
    GetTextRetriesOnlyDenied(content, retries, env);
  }

  /** Every attempt before the deciding one was refused with access denied:
      the write loop never retries after any other error either. */
  lemma {:induction false} SetTextRetriesOnlyDenied(retries: int, env: seq<Attempt>)
    requires Attempts(retries) <= |env|
    ensures var w := SetText(retries, env);
      DeniedUpTo(env, if w.WriteExhausted? then w.used else w.used - 1)
    ensures var w := SetText(retries, env);
      !w.WriteExhausted? ==> w.used >= 1 && !Denied(env[w.used - 1])
    decreases retries
  {
    if retries > 0 && Denied(env[0]) {
      SetTextRetriesOnlyDenied(retries - 1, env[1..]);
    }
  }

  /** A write runs out exactly when every attempt is refused, and goes
      through exactly when the first attempt that is not refused opens the
      clipboard. */
  lemma SetTextOutcome(retries: int, env: seq<Attempt>)
    requires Attempts(retries) <= |env|
    ensures var o := WriteOutcome(SetText(retries, env));
      && (o == Exhausted <==> DeniedUpTo(env, Attempts(retries)))
      && (o == Done <==> exists k | 0 <= k < Attempts(retries) :: DeniedUpTo(env, k) && env[k].Opened?)
  {
    SetTextDecided(retries, env);
    SetTextRetriesOnlyDenied(retries, env);
    var w := SetText(retries, env);
    if w.Written? {
      assert DeniedUpTo(env, w.used - 1) && env[w.used - 1].Opened?;
    }
  }

  /** The outcomes a call can end in: all of them but a failure with access
      denied, which is retried rather than raised. */
  predicate Possible(o: Outcome) {
    o != Failed(ERROR_ACCESS_DENIED)
  }

  /** Five attempts that give `o` when `o` is possible: all refused for
      `Exhausted`, and otherwise a first attempt that decides. */
  function Witness(o: Outcome): (env: seq<Attempt>)
    ensures |env| == RETRIES
  {
    seq(RETRIES, _ => if o.Done? then Opened else if o.Exhausted? then Raised(ERROR_ACCESS_DENIED) else Raised(o.code))
  }

  /** `get_clipboard_text()` with its default five attempts can end in
      exactly the possible outcomes, whatever the clipboard holds. */
  lemma DefaultReadOutcomes(content: string, o: Outcome)
    ensures (exists env: seq<Attempt> | |env| == RETRIES :: ReadOutcome(GetText(content, RETRIES, env)) == o) <==> Possible(o)
  {
    if !Possible(o) {
      forall env: seq<Attempt> | |env| == RETRIES
        ensures ReadOutcome(GetText(content, RETRIES, env)) != o
      {
        GetTextOutcome(content, RETRIES, env);
      }
    } else {
      var env := Witness(o);
      GetTextDecided(content, RETRIES, env);
      assert DeniedUpTo(env, 0);
      assert ReadOutcome(GetText(content, RETRIES, env)) == o;
    }
  }

  /** `set_clipboard_text(text)` with its default five attempts can end in
      exactly the possible outcomes. */
  lemma DefaultWriteOutcomes(o: Outcome)
    ensures (exists env: seq<Attempt> | |env| == RETRIES :: WriteOutcome(SetText(RETRIES, env)) == o) <==> Possible(o)
  {
    if !Possible(o) {
      forall env: seq<Attempt> | |env| == RETRIES
        ensures WriteOutcome(SetText(RETRIES, env)) != o
      {
        SetTextRetriesOnlyDenied(RETRIES, env);
      }
    } else {
      var env := Witness(o);
      SetTextDecided(RETRIES, env);
      assert DeniedUpTo(env, 0);
      assert WriteOutcome(SetText(RETRIES, env)) == o;
    }
  }
}
