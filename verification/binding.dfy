/** The hotkey binding: `register_hotkey` (main.py lines 271-291), the input
    fallback of `ask_hotkey_blocking` (lines 309-316), the rebind worker
    (lines 326-330), `load_hotkey` (lines 80-96) and `start_hotkeys` (lines
    332-335). The `keyboard` library's table of hotkeys is a map from ids to
    the hotkey string whose `on_hotkey` the id triggers; the configuration
    file is a value. */
module Binding {
  import opened Text

  /** `DEFAULT_HOTKEY`. */
  const DEFAULT_HOTKEY: string := "ctrl+shift+q"

  /** What `load_hotkey` finds: no configuration file, a file it cannot read
      or parse, or a parsed object with or without a `"hotkey"` entry. */
  datatype Config = Missing | Unreadable | Parsed(hotkey: Option<string>)

  /** The binding state: `current_hotkey_str`, `current_hotkey_id`, the
      library's table of registered hotkeys, the configuration file, the ids
      this program has been given so far, and the next id the library hands
      out. */
  datatype Manager = Manager(
    current: Option<string>,
    id: Option<int>,
    registry: map<int, string>,
    stored: Config,
    issued: set<int>,
    next: int)

  /** Ids are handed out in increasing order, so a new id is never one that is
      registered or was handed out before; the current id is one of ours. */
  predicate Valid(m: Manager) {
    && (forall k | k in m.registry :: k < m.next)
    && (forall k | k in m.issued :: k < m.next)
    && (m.id.Some? ==> m.id.value in m.issued)
  }

  /** The ids of ours that are still registered. */
  function Active(m: Manager): set<int> {
    set k | k in m.issued && k in m.registry
  }

  /** At most one of our ids is registered, and it is the current one. */
  predicate Single(m: Manager) {
    forall k | k in Active(m) :: m.id == Some(k)
  }

  /** The state before the first registration. */
  function Init(stored: Config): (m: Manager)
    ensures Valid(m) && Single(m) && Active(m) == {}
  {
    Manager(None, None, map[], stored, {}, 0)
  }

  /** `register_hotkey(hotkey)`, where `added` says whether
      `keyboard.add_hotkey` accepts `hotkey` or raises on it (it raises on a
      string it cannot parse, `""` among them). First the current id is
      removed from the table (an id that is no longer there is skipped, as
      the ignored `KeyError` is) and `hotkey` becomes the current string.
      If the library accepts it, it is registered under a new id, which
      becomes current, and it is saved. If the library raises, the
      exception leaves the old id current although it is no longer
      registered, and nothing is saved. */
  function Register(m: Manager, hotkey: string, added: bool): (r: Manager)
    requires Valid(m)
    ensures Valid(r)
    ensures r.current == Some(hotkey)
    ensures m.id.Some? ==> m.id.value !in r.registry
    ensures forall k | k in m.registry && Some(k) != m.id :: k in r.registry && r.registry[k] == m.registry[k]
    ensures added ==>
      && r.stored == Parsed(Some(hotkey))
      && r.id.Some? && r.id.value in r.registry && r.registry[r.id.value] == hotkey
      && r.id.value !in m.registry && r.id.value !in m.issued
      && (forall k | k in r.registry :: k in m.registry || k == r.id.value)
    ensures !added ==>
      && r.stored == m.stored && r.id == m.id && r.issued == m.issued
      && (forall k | k in r.registry :: k in m.registry)
  {
    var table := if m.id.Some? && m.id.value in m.registry then m.registry - {m.id.value} else m.registry;
    if added then
      var newId := m.next;
      Manager(Some(hotkey), Some(newId), table[newId := hotkey], Parsed(Some(hotkey)), m.issued + {newId}, newId + 1)
    else
      m.(current := Some(hotkey), registry := table)
  }

  /** After a registration at most one of our ids is registered: the new
      current one when the library accepted the hotkey, none when it
      raised. */
  lemma RegisterSingle(m: Manager, hotkey: string, added: bool)
    requires Valid(m) && Single(m)
    ensures var r := Register(m, hotkey, added);
      Single(r) && Active(r) == (if added then {r.id.value} else {})
  {
    var r := Register(m, hotkey, added);
    forall k | k in r.issued && (added ==> k != r.id.value)
      ensures k !in r.registry
    {
      if k in m.registry {
        assert k in Active(m);
      }
    }
  }

  /** Registering twice leaves exactly one of our ids registered, for the
      second hotkey, and both the state and the saved configuration hold the
      second hotkey; the first id is gone. */
  lemma RegisterTwice(m: Manager, h1: string, h2: string)
    requires Valid(m) && Single(m)
    ensures var r1 := Register(m, h1, true); var r2 := Register(r1, h2, true);
      && Active(r2) == {r2.id.value}
      && r2.registry[r2.id.value] == h2
      && r1.id.value !in r2.registry
      && r2.current == Some(h2) && r2.stored == Parsed(Some(h2))
  {
    RegisterSingle(m, h1, true);
    RegisterSingle(Register(m, h1, true), h2, true);
  }

  /** `keyboard.remove_hotkey(current_hotkey_id)` raises `KeyError`: there
      is a current id and the library no longer has it. */
  predicate Stale(m: Manager) {
    m.id.Some? && m.id.value !in m.registry
  }

  /** A registration leaves a stale current id exactly when the library
      refused the hotkey and there was an id before. */
  lemma RegisterStale(m: Manager, hotkey: string, added: bool)
    requires Valid(m)
    ensures Stale(Register(m, hotkey, added)) <==> !added && m.id.Some?
  {
  }

  /** A refused registration leaves the binding half updated: the new string
      is current, nothing of ours is registered, the old id is stale and the
      configuration is unchanged. The next registration skips the stale id
      through the ignored `KeyError` and, when accepted, ends with exactly
      one registration again. */
  lemma RefusedThenRegistered(m: Manager, h1: string, h2: string)
    requires Valid(m) && Single(m) && m.id.Some?
    ensures var r1 := Register(m, h1, false);
      && r1.current == Some(h1) && r1.stored == m.stored
      && Active(r1) == {} && Stale(r1)
      && var r2 := Register(r1, h2, true);
         Active(r2) == {r2.id.value} && r2.registry[r2.id.value] == h2 && r2.stored == Parsed(Some(h2))
  {
    RegisterSingle(m, h1, false);
    RegisterStale(m, h1, false);
    RegisterSingle(Register(m, h1, false), h2, true);
  }

  /** `load_hotkey()`: the `"hotkey"` entry of the configuration, or the
      default when the file is missing, unreadable or has no such entry. */
  function LoadHotkey(c: Config): string {
    match c
    case Parsed(Some(h)) => h
    case _ => DEFAULT_HOTKEY
  }

  /** What `save_hotkey` writes, `load_hotkey` reads back: after an accepted
      registration the next start loads the new hotkey, and after a refused
      one it loads what it loaded before. */
  lemma SaveLoad(m: Manager, hotkey: string, added: bool)
    requires Valid(m)
    ensures LoadHotkey(Register(m, hotkey, added).stored) == if added then hotkey else LoadHotkey(m.stored)
  {
  }

  /** `start_hotkeys()` up to the blocking wait: register the loaded hotkey,
      which becomes current whether or not the library accepts it. */
  function StartHotkeys(m: Manager, added: bool): (r: Manager)
    requires Valid(m)
    ensures Valid(r) && r.current == Some(LoadHotkey(m.stored))
  {
    Register(m, LoadHotkey(m.stored), added)
  }

  /** A first start makes the configured hotkey, or the default, current.
      When the library accepts it, it is the only hotkey of ours and is
      saved; when it raises (on a configured `""`, say) nothing of ours is
      registered and the configuration stays as it was. */
  lemma StartFresh(c: Config, added: bool)
    ensures var r := StartHotkeys(Init(c), added);
      && r.current == Some(LoadHotkey(c))
      && (c.Parsed? && c.hotkey.Some? ==> r.current == c.hotkey)
      && (!(c.Parsed? && c.hotkey.Some?) ==> r.current == Some(DEFAULT_HOTKEY))
      && (added ==> Active(r) == {r.id.value} && r.registry[r.id.value] == LoadHotkey(c) && r.stored == Parsed(Some(LoadHotkey(c))))
      && (!added ==> Active(r) == {} && r.id.None? && r.stored == c)
  {
    RegisterSingle(Init(c), LoadHotkey(c), added);
  }

  /** The text the dialog starts from: the current hotkey when it is set and
      not empty, the default otherwise. */
  function Prefill(initial: Option<string>): string {
    Or(initial, Some(DEFAULT_HOTKEY)).value
  }

  /** The text `ask_hotkey_blocking(initial)` strips when the dialog returns
      `answer` (`None` when it is cancelled). */
  function Chosen(answer: Option<string>, initial: Option<string>): string {
    if Truthy(answer) then answer.value else Prefill(initial)
  }

  /** `ask_hotkey_blocking(initial)`: what it returns carries no surrounding
      whitespace. */
  function AskHotkey(answer: Option<string>, initial: Option<string>): (h: string)
    ensures Strip(h) == h
  {
    var defaultValue := Prefill(initial);
    var hotkey := if !Truthy(answer) then defaultValue else answer.value;
    StripIdempotent(hotkey);
    Strip(hotkey)
  }

  /** The answer, stripped, when it is not empty; otherwise the stripped
      current hotkey when there is one, and the default when there is none. */
  lemma AskHotkeyFallback(answer: Option<string>, initial: Option<string>)
    ensures Truthy(answer) ==> AskHotkey(answer, initial) == Strip(answer.value)
    ensures !Truthy(answer) && Truthy(initial) ==> AskHotkey(answer, initial) == Strip(initial.value)
    ensures !Truthy(answer) && !Truthy(initial) ==> AskHotkey(answer, initial) == DEFAULT_HOTKEY
  {
    if !Truthy(answer) && !Truthy(initial) {
      StripUnpadded(DEFAULT_HOTKEY);
    }
  }

  /** `_ask_and_set_hotkey_worker()` with the dialog returning `answer` and
      the library accepting the answer (`added`) or not: register the
      stripped answer unless it is empty. */
  function RebindWorker(m: Manager, answer: Option<string>, added: bool): (r: Manager)
    requires Valid(m)
    ensures Valid(r)
  {
    var hotkey := AskHotkey(answer, m.current);
    if hotkey != "" then Register(m, hotkey, added) else m
  }

  /** The worker leaves the binding alone when the chosen text is all
      whitespace, and otherwise registers its strip; when the library
      accepts, the binding changes exactly when the text is not blank. */
  lemma RebindSkipsOnlyBlank(m: Manager, answer: Option<string>, added: bool)
    requires Valid(m)
    ensures AllSpace(Chosen(answer, m.current)) ==> RebindWorker(m, answer, added) == m
    ensures !AllSpace(Chosen(answer, m.current)) ==>
      RebindWorker(m, answer, added) == Register(m, Strip(Chosen(answer, m.current)), added)
    ensures added ==> (RebindWorker(m, answer, added) == m <==> AllSpace(Chosen(answer, m.current)))
  {
    StripTrimmed(Chosen(answer, m.current));
    if added && !AllSpace(Chosen(answer, m.current)) {
      var r := RebindWorker(m, answer, added);
      assert r.id.value !in m.issued;
    }
  }

  /** A non-empty answer made only of whitespace is truthy, so it is taken
      over the current hotkey; it strips to `""` and nothing is registered. */
  lemma BlankAnswerSkips(m: Manager, answer: Option<string>, added: bool)
    requires Valid(m)
    requires answer.Some? && answer.value != "" && AllSpace(answer.value)
    ensures Chosen(answer, m.current) == answer.value
    ensures RebindWorker(m, answer, added) == m
  {
    RebindSkipsOnlyBlank(m, answer, added);
  }

  /** A cancelled dialog keeps a non-blank current hotkey: it registers it
      again, stripped, under a new id when the library accepts it. */
  lemma CancelRebindsCurrent(m: Manager, added: bool)
    requires Valid(m) && Single(m)
    requires m.current.Some? && !AllSpace(m.current.value)
    ensures var r := RebindWorker(m, None, added);
      && r.current == Some(Strip(m.current.value))
      && (added ==> r.id.Some? && Active(r) == {r.id.value})
      && (!added ==> Active(r) == {})
  {
    var h := m.current.value;
    assert h != [];
    assert Chosen(None, m.current) == h;
    RebindSkipsOnlyBlank(m, None, added);
    assert RebindWorker(m, None, added) == Register(m, Strip(h), added);
    RegisterSingle(m, Strip(h), added);
  }
}
