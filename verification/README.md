# Keyboard layout changer: a verified model of its core

The program is a Windows tray tool. It fixes text that was typed on the
wrong keyboard layout (Cyrillic ЙЦУКЕН against Latin QWERTY). When its global
hotkey fires, `on_hotkey` does the following:

- saves the clipboard and empties it;
- releases the hotkey's keys and sends Ctrl+C;
- reads the copied selection and picks a direction by counting letters;
- rewrites the text key by key through one of two `str.maketrans` tables;
- pastes the result with Ctrl+V and puts the old clipboard back.

Every clipboard call goes through a retry loop that retries only while
another process holds the clipboard (Win32 error 5). The hotkey is loaded
from a configuration file, can be changed through a dialog and is registered
with the `keyboard` library.

This Dafny project models that core as pure functions over immutable values:

| module | file | models |
|---|---|---|
| `Text` | text.dfy | Python truthiness of `str \| None`, `str.strip()`, `str.split(sep)` |
| `Layout` | layout.dfy | `RU`, `EN`, `EN_UPPER`, `RU.upper()`, `str.maketrans`, `str.translate`, `ru_to_en`, `en_to_ru` |
| `Detect` | detect.dfy | `RU_CHARS`, `EN_CHARS`, `detect_direction`, `fix_layout` |
| `Clipboard` | clipboard.dfy | the clipboard's content (text or no text), the retry loops of `get_clipboard_text` and `set_clipboard_text` |
| `Hotkey` | hotkey.dfy | `HOTKEY_PH` and the key-release loop of `on_hotkey` |
| `Workflow` | workflow.dfy | `on_hotkey` as a trace of effects over a clipboard that holds text or no text |
| `Binding` | binding.dfy | `register_hotkey`, `load_hotkey`, `start_hotkeys`, the fallback of `ask_hotkey_blocking`, the rebind worker |

Some effects become inputs.

- **Clipboard attempts.** Each attempt to open the clipboard is an `Attempt`: the body ran, or it raised a `pywintypes.error` code.
- **Clipboard calls in `on_hotkey`.** Each of the at most five calls is summarised by its `Outcome`: `Done`, `Exhausted` (every attempt was denied) or `Failed(code)`. `GetTextOutcome` and `SetTextOutcome` connect an `Outcome` to the attempts that produce it. `DefaultReadOutcomes` and `DefaultWriteOutcomes` show that a call with the default five attempts can end in every `Outcome` except `Failed(5)`.
- **Ctrl+C.** It puts the selection, if there is one, on the clipboard.
- **Ctrl+V.** It pastes whatever the clipboard holds.
- **Hotkey table.** The `keyboard` library's table is a map from registration ids to hotkey strings. New ids are handed out in increasing order.
- **Clipboard content.** It is text or `NoText` (nothing, or only non-text formats). Reading `NoText` gives `""` (main.py:130-135).
- **`keyboard.add_hotkey`.** Whether it accepts a hotkey string or raises on it is the input `added`.
- **Configuration file.** It is a `Config` value.

Some behaviour of the code is easy to misread; the model keeps it as written:

- **Exhausted writes.** `set_clipboard_text` returns normally without writing when every attempt is denied (main.py:158-172), and `on_hotkey` carries on.
- **No restore after errors.** An error other than code 5 propagates out of `on_hotkey` at once, and the old clipboard is not put back (main.py:144-145, 171-172). In `Workflow`, a `Failed` outcome ends the trace.
- **Overlapping tables.** `,` `.` `"` `;` `:` and `?` are keys of `ru_to_en` and also among its values (`ж→;` and `;→$`, `Ж→:` and `:→^`; main.py:35-38). Applying the table twice is therefore not the identity (`Layout.DomainsOverlap`).
- **Whole-piece release.** A piece that is not a `HOTKEY_PH` name is passed to `kb.release` whole, after stripping (main.py:243-244).
- **No lock.** `register_hotkey` changes `current_hotkey_str` and `current_hotkey_id` without a lock (main.py:280-291), and the model is sequential.
- **Refused hotkeys.** `current_hotkey_str` is set before `keyboard.add_hotkey` runs, and `save_hotkey` only after it (main.py:289-291). When the library raises, the new string is current, the old id stays current although it was removed, and nothing is saved.

## Model

| member | source | states |
|---|---|---|
| `Text.Strip` | main.py:316 | `str.strip()` gives a string no longer than its input with no whitespace character at either end |
| `Text.StripTrimmed` | main.py:238-239 | The stripped piece has no whitespace character at either end, and it is empty exactly when the piece is all whitespace. |
| `Text.StripKeepsMiddle` | main.py:316 | the stripped text is a piece of the input with only whitespace before and after it, which together with `StripTrimmed` determines it |
| `Text.StripIdempotent` | main.py:316 | stripping a stripped hotkey changes nothing |
| `Text.Split` | main.py:237 | `split("+")` gives at least one piece, no piece contains `+`, and joining the pieces with `+` gives the hotkey back |
| `Text.SplitUnique` | main.py:237 | the `+`-free pieces a hotkey is joined from are exactly what `split("+")` gives |
| `Layout.RuUpperIsUpper` | main.py:35-38 | the written-out shifted Cyrillic row equals `RU.upper()`: letters change case, punctuation stays |
| `Layout.MakeTransKeys` | main.py:38-39 | the keys of `str.maketrans(x, y)` are exactly the characters of `x` |
| `Layout.MakeTransLast` | main.py:38-39 | when a character repeats in `x`, its last position decides its image |
| `Layout.MakeTransAt` | main.py:38-39 | with no conflicting repeats, every position of `x` maps to the same position of `y` |
| `Layout.TablesAt` | main.py:35-39 | every one of the 80 positions of `RU + RU.upper()` and `EN + EN_UPPER` survives the later-wins rule in both tables |
| `Layout.TablesByKey` | main.py:35-39 | for each of the 40 keys, `ru_to_en` sends the key's Cyrillic character to its Latin one in the same case, and `en_to_ru` sends it back |
| `Layout.TablesInverse` | main.py:38-39 | `en_to_ru` is the exact inverse of `ru_to_en`, and the other way round |
| `Layout.TablesInjective` | main.py:38-39 | no two characters share a replacement in either table |
| `Layout.Translate` | main.py:214-216 | `str.translate` keeps the text's length, puts each character's table image at its position, and keeps characters the table does not map |
| `Layout.TranslateRoundTrip` | main.py:214-216 | a text made only of keys of one table comes back unchanged through that table and then its inverse |
| `Layout.RuEnRoundTrip` | main.py:38-39 | a text of `ru_to_en` keys survives `ru_to_en` then `en_to_ru` |
| `Layout.EnRuRoundTrip` | main.py:38-39 | a text of `en_to_ru` keys survives `en_to_ru` then `ru_to_en` |
| `Layout.DomainsOverlap` | main.py:35-38 | `,` is a key of both tables, `б→,` and `,→?` in `ru_to_en`, so applying `ru_to_en` twice is not the identity |
| `Detect.CountIn` | main.py:192-193 | a letter count never exceeds the text's length |
| `Detect.CountInPositions` | main.py:192-193 | each count is the number of positions holding a character of the letter set |
| `Detect.DetectDirection` | main.py:192-200 | `"ru"` exactly when more positions hold Latin than Cyrillic letters, `"en"` exactly when more hold Cyrillic ones, `"none"` on a tie |
| `Detect.DetectIgnoresOthers` | main.py:192-193 | inserting a character outside both letter sets anywhere never changes the direction |
| `Detect.LetterSetsInRanges` | main.py:31-32 | the counted sets hold letters of their own alphabet only, and `ё`/`Ё` are not counted |
| `Detect.NoLettersNoDirection` | main.py:195-200 | a text with no counted letter, including `""` and digit strings, gives `"none"` |
| `Detect.SingleAlphabet` | main.py:192-198 | a non-empty all-Latin text gives `"ru"`, and a non-empty all-Cyrillic text gives `"en"` |
| `Detect.FixLayout` | main.py:202-218 | the fixed text has the input's length; it is the input when the direction is `"none"`; otherwise each position is the chosen table's image of the input character, and unmapped characters pass through |
| `Detect.FixNoLetters` | main.py:217-218 | a text without counted letters is returned unchanged |
| `Detect.FixToCyrillic` | main.py:212-214 | fixing a Latin-heavy text leaves no Latin letter and at least as many Cyrillic letters, so the result is Cyrillic-heavy |
| `Detect.FixToLatin` | main.py:215-216 | fixing a Cyrillic-heavy text leaves no counted Cyrillic letter |
| `Detect.FixTwiceRestores` | main.py:212-216 | a Latin-heavy text made of `en_to_ru` keys comes back after two fixes |
| `Detect.FixExample` | main.py:212-214 | `fix_layout("Ghbdtn") == "Привет"`, each letter keeping its case |
| `Detect.BracketsExample` | main.py:215-216 | `хъ` is Cyrillic-heavy and is fixed to `[]` |
| `Detect.FixTwiceLosesText` | main.py:212-218 | fixing is not an involution: `хъ` → `[]` → `[]` |
| `Clipboard.GetText` | main.py:126 | a read makes at most `retries` attempts, and none when `retries <= 0` |
| `Clipboard.GetTextDecided` | main.py:126-147 | a read that is denied every time returns `""` after all attempts; otherwise the first attempt not denied decides: it returns the text, or re-raises that code |
| `Clipboard.GetTextRetriesOnlyDenied` | main.py:139-145 | every attempt before the deciding one was denied with code 5, and the deciding one was not |
| `Clipboard.GetTextOutcome` | main.py:126-147 | a read runs out exactly when every attempt is denied; it fails only with the code of an attempt reached through denials; it returns the clipboard's text when it goes through and `""` otherwise |
| `Clipboard.SetText` | main.py:158 | a write makes at most `retries` attempts |
| `Clipboard.SetTextDecided` | main.py:158-172 | a write that is denied every time returns normally without writing; otherwise the first attempt not denied decides: it writes, or re-raises that code |
| `Clipboard.SetTextRetriesOnlyDenied` | main.py:167-172 | every write attempt before the deciding one was denied with code 5, and the deciding one was not |
| `Clipboard.SetTextOutcome` | main.py:158-172 | a write runs out exactly when every attempt is denied, and goes through exactly when the first attempt not denied opens the clipboard |
| `Clipboard.DefaultReadOutcomes` | main.py:113-147 | `get_clipboard_text()` with its default five attempts can go through, run out, or fail with any code except access denied, and with no other outcome |
| `Clipboard.DefaultWriteOutcomes` | main.py:149-172 | `set_clipboard_text(text)` with its default five attempts can end in exactly the same outcomes |
| `Hotkey.Piece` | main.py:238-244 | one turn of the loop releases at most one key |
| `Hotkey.ReleaseTokens` | main.py:237-244 | the loop releases at most one key per `+`-separated piece of the hotkey |
| `Hotkey.CollectSelects` | main.py:237-244 | a loop whose turns give at most one token each keeps the pieces' order, drops exactly the pieces that give nothing and takes the token of every other one |
| `Hotkey.ReleaseTokensSelect` | main.py:237-244 | `on_hotkey` releases, left to right, one key for each `+`-separated piece that is not blank, and nothing else |
| `Hotkey.PieceBlank` | main.py:238-244 | a piece gives nothing exactly when it is all whitespace; otherwise it gives its stripped text, as a `HOTKEY_PH` key when it is one of the names and as a literal when it is not |
| `Hotkey.BlankPiecesReleaseNothing` | main.py:238-240 | blank pieces, such as the empty ones `++` makes, release nothing |
| `Hotkey.DefaultHotkeyPieces` | main.py:237 | `"ctrl+shift+q"` splits into `ctrl`, `shift`, `q` |
| `Hotkey.DefaultHotkeyTurns` | main.py:241-244 | `ctrl` and `shift` are released as the named keys, and `q` as a literal |
| `Hotkey.ReleaseThree` | main.py:237-244 | a hotkey of three pieces releases what each piece gives, in order |
| `Hotkey.CapitalisedNameIsLiteral` | main.py:241-244 | names match exactly: `Ctrl` is released as the literal `Ctrl` |
| `Workflow.Handle` | main.py:232-269 | the handler's clipboard calls use the supplied outcomes in order, one each; no call before the last one failed, and the handler raises exactly the code of a last call that failed |
| `Workflow.OnHotkey` | main.py:222-269 | the same for `on_hotkey` with its hotkey's release keys and `fix_layout` |
| `Workflow.CaptureInOrder` | main.py:232-252 | the first half uses the outcomes in order, one per call, and stops at the first call that fails |
| `Workflow.FinishInOrder` | main.py:253-269 | the second half continues with the remaining outcomes in order and stops at the first call that fails |
| `Workflow.CaptureTrace` | main.py:232-252 | if the first read and the emptying write do not fail, the handler reads the snapshot (`""` if that read ran out), writes `""`, releases the keys in order, copies, and reads again. The second read gets whatever the copy left, which is the old clipboard if the emptying write ran out and nothing was selected |
| `Workflow.FinishTrace` | main.py:253-269 | with nothing read, the handler writes the snapshot back; otherwise it writes the fixed text, pastes what the clipboard then holds and writes the snapshot back, stopping at a failed call |
| `Workflow.HandleEarlyFailure` | main.py:232-233 | a failed snapshot read or emptying write ends the handler there, with the clipboard untouched |
| `Workflow.HandleOpening` | main.py:232-249 | otherwise the trace always starts: read, write `""`, the releases in token order, copy |
| `Workflow.HandleAllDone` | main.py:232-269 | with every call going through, the clipboard ends holding the text it began with (empty text if it held none), and the handler pastes `fix(selection)` exactly when a non-empty text was selected |
| `Workflow.OnHotkeyAllDone` | main.py:222-269 | the same for `on_hotkey` itself, with `fix_layout` and the hotkey's own release keys |
| `Workflow.SnapshotLost` | main.py:232-269 | if only the snapshot read runs out, the handler ends with empty text on the clipboard, its last call writing `""` back |
| `Workflow.OnHotkeySnapshotLost` | main.py:146-147 | the same for `on_hotkey`: the `""` an exhausted read returns is restored as if it were the old clipboard |
| `Workflow.StalePaste` | main.py:232-261 | if only the emptying write runs out and nothing is selected, the handler pastes the fixed text of the old clipboard's non-empty text |
| `Workflow.OnHotkeyStalePaste` | main.py:233 | the same for `on_hotkey`, with `fix_layout` |
| `Workflow.HandleGuarded` | main.py:232-269 | the corrected handler also uses the outcomes in order, one per call, and raises exactly the code of a last call that failed |
| `Workflow.OnHotkeyGuarded` | main.py:222-269 | the same for the corrected `on_hotkey` |
| `Workflow.FinishGuardedFacts` | main.py:253-269 | the guarded second half pastes only right after writing the fixed text, and ends with the snapshot on the clipboard unless a write fails or runs out |
| `Workflow.GuardedPastesSelection` | main.py:253-269 | the guarded handler pastes at most once, and only the fixed non-empty selection |
| `Workflow.GuardedKeepsClipboard` | main.py:232-269 | unless a call fails, the guarded handler ends with a text clipboard holding the text it began with, or with a write of that text back that ran out |
| `Workflow.NonTextLost` | main.py:232-269 | a clipboard without text ends holding empty text after either handler when every call goes through |
| `Workflow.GuardedAgrees` | main.py:232-269 | when every call goes through, the guarded handler does exactly what the handler does |
| `Workflow.OnHotkeyGuardedPastesSelection` | main.py:259-266 | the guarded `on_hotkey` pastes nothing but `fix_layout` of the selection |
| `Workflow.OnHotkeyGuardedKeepsClipboard` | main.py:232-233 | unless a call fails, the guarded `on_hotkey` ends with a text clipboard holding its old text, unless the final restore itself ran out |
| `Workflow.OnHotkeyGuardedAgrees` | main.py:222-269 | with every call going through, the guarded `on_hotkey` equals `on_hotkey` |
| `Binding.Init` | main.py:59-60 | before the first registration nothing of ours is registered |
| `Binding.Register` | main.py:280-291 | the hotkey string becomes current and the old id is no longer registered (an id already gone is skipped); every other registration is kept. When the library accepts the hotkey, a new, never-used id is registered for it and becomes current, and the hotkey is saved. When it raises, nothing is registered, the old id stays current and nothing is saved |
| `Binding.RegisterSingle` | main.py:283-290 | after a registration at most one of our ids is registered: the new current one when the library accepted the hotkey, none when it raised |
| `Binding.RegisterTwice` | main.py:280-291 | after registering `h1` then `h2`, only the second id is registered, bound to `h2`; the first id is gone; state and saved configuration both hold `h2` |
| `Binding.RegisterStale` | main.py:283-290 | a registration leaves a current id the library no longer has exactly when the library refused the hotkey and there was an id before |
| `Binding.RefusedThenRegistered` | main.py:280-291 | after a refused registration the new string is current, nothing of ours is registered and the configuration is unchanged; the next accepted registration skips the stale id and ends with exactly one registration, saved |
| `Binding.SaveLoad` | main.py:89-109 | after an accepted registration `load_hotkey` reads back the new hotkey, and after a refused one it reads what it read before |
| `Binding.StartHotkeys` | main.py:332-335 | start-up makes the loaded hotkey current, whether or not the library accepts it |
| `Binding.StartFresh` | main.py:332-335 | a first start makes the configured hotkey, or the default, current; when the library accepts it, it is our only registration and is saved, and when it raises nothing of ours is registered and the configuration is unchanged |
| `Binding.AskHotkey` | main.py:314-316 | the dialog's result has no whitespace at either end |
| `Binding.AskHotkeyFallback` | main.py:310-316 | the dialog gives the stripped answer when it is non-empty. Otherwise it gives the stripped current hotkey if that is set and non-empty, and `ctrl+shift+q` if not |
| `Binding.RebindWorker` | main.py:326-330 | rebinding keeps the id invariant |
| `Binding.RebindSkipsOnlyBlank` | main.py:326-330 | the worker leaves the binding alone when the chosen text is all whitespace and otherwise registers its strip; when the library accepts, the binding changes exactly when the text is not blank |
| `Binding.BlankAnswerSkips` | main.py:314-316 | every non-empty answer made only of whitespace is truthy, so it replaces the fallback; it strips to `""` and nothing is registered |
| `Binding.CancelRebindsCurrent` | main.py:310-316 | cancelling the dialog makes the stripped current hotkey current again, registered alone under a new id when the library accepts it, and with nothing of ours registered when it raises |

## Left out

- The single-instance mutex, `resource_path`, the tray icon and menu, and `on_exit` (main.py:64-78, 338 onwards). These are operating-system and UI plumbing.
- The tkinter dialog itself (main.py:305-312). Its answer is an input (`None` when cancelled), and only the fallback and strip are modelled.
- JSON reading and writing in `load_hotkey`/`save_hotkey`. The file is a `Config` value, and a `"hotkey"` entry that is not a string is not modelled.
- The Win32 clipboard, `pynput` key synthesis and `keyboard.add_hotkey`/`remove_hotkey`. They are summarised as attempts, outcomes, trace events, a map of ids and the input `added`.
- Binding.Register: which strings `keyboard.add_hotkey` refuses is not modelled, only that it may. The exception it raises is not modelled past the state it leaves behind; in `start_hotkeys` and the rebind worker it ends the thread.
- The `CF_TEXT` branch returns `bytes`, not `str` (main.py:132-133). The model treats every read as text.
- Errors raised inside an opened clipboard are modelled only as a whole attempt raising a code. Exceptions other than `pywintypes.error` are not modelled.
- The errors `pynput` raises when releasing a multi-character literal piece. Every non-blank piece is released as a token.
- `time.sleep` delays carry no behaviour. Threading is left out: the listener and the rebind worker share `current_hotkey_*` without a lock, and the model runs everything sequentially.
- Workflow.OnHotkey: one `Outcome` per clipboard call stands for that call's attempts. A trace at the level of single attempts is only related through `GetTextOutcome`/`SetTextOutcome`, and `Failed(5)`, which no call can give (`DefaultReadOutcomes`), is not excluded from the handler's inputs.
- Workflow.GuardedKeepsClipboard: promised only for a clipboard that holds text. Content without text cannot be read by `get_clipboard_text`, so neither handler can put it back (`Workflow.NonTextLost`).
- Layout.TablesInjective: the count of 73 distinct keys per table is not stated. Injectivity, inversion and each of the 80 positions are.
- Hotkey.ReleaseThree: the release of the default hotkey is proved in three steps (`DefaultHotkeyPieces`, `DefaultHotkeyTurns`, `ReleaseThree`), not stated as one equation.

## Findings

| source | as written | input that shows it | evidently intended | confidence | as-written member | corrected member |
|---|---|---|---|---|---|---|
| main.py:146-147 | the snapshot is taken with `get_clipboard_text()`, which returns `""` when every attempt is denied; the handler later writes that `""` back as the "old" clipboard (main.py:232, 255, 269) | snapshot read denied five times, every later call goes through | leave the clipboard alone when its content could not be saved | medium; not executed | `Workflow.OnHotkeySnapshotLost` | `Workflow.OnHotkeyGuardedKeepsClipboard` |
| main.py:233 | `set_clipboard_text("")` returns normally when every attempt is denied. With nothing selected, Ctrl+C leaves the old clipboard in place, the second read takes it for the selection, and its fixed text is pasted at the cursor | clipboard `Ghbdtn`, nothing selected, the emptying write denied five times, every other call goes through: `Привет` is pasted | paste only a fixed selection, never the stale clipboard | medium; not executed | `Workflow.OnHotkeyStalePaste` | `Workflow.OnHotkeyGuardedPastesSelection` |

The corrected handler, `Workflow.HandleGuarded`, makes three changes:

- It stops when the snapshot cannot be read.
- It stops after an emptying write that did not go through.
- It skips the paste when writing the fixed text did not go through.

`Workflow.OnHotkeyGuardedAgrees` shows that it behaves exactly like `on_hotkey` whenever every clipboard call goes through. The guards do not save a clipboard without text: `Workflow.NonTextLost` holds for both handlers.
