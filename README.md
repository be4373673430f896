# Shortcut replacer: a Dafny model

This project models the core of a desktop text-expansion tool written in
Python (`main.py`). A `ShortcutReplacer` holds a table of rules, each one a
trigger and its replacement, and a buffer of the characters typed so far.
A global keyboard listener calls `on_press` for every key. Each character
is appended to the buffer. Then the table is scanned in dict order. Every
trigger that the buffer ends with is erased with that many backspace
press/release pairs, its replacement is typed, and the buffer is cleared.
A small window adds rules, but only when both fields are filled in.

Files and modules:

- `rule_table.dfy`, module `RuleTable`: the dict `replacements` as a
  sequence of (trigger, replacement) pairs in insertion order. It holds
  assignment (`Put`), deletion (`Delete`), lookup, the plain map view
  (`ToMap`) and the table built by `json.load` (`FromEntries`).
- `expansion.dfy`, module `Expansion`: keys, emitted actions, the scan of
  `on_press` as the function `Scan`, one key event as `Step`, and the
  reference first-match expander `Expected`. `Apply` plays the emitted
  actions against the text of the focused field.
- `replacer.dfy`, module `Replacer`: class `ShortcutReplacer` with the
  fields `rules`, `buffer`, `out` (the keyboard controller calls) and
  `saved` (every table written to `rules.json`). `OnPress` is the loop of
  `on_press` with its nested backspace loop, proved against `Step`.
- `control.dfy`, module `Control`: class `MainWindow` with the two text
  fields and the guarded `AddRule`.

Behaviour of the code worth knowing:

- Nothing stops an empty trigger. `add_replacement` and `load_rules` accept
  one; only the window's guard refuses it. The loop over the table has no
  `break`, so an empty trigger fires on every character, and it fires after
  any earlier rule that already fired on that key: in a table with unique keys
  its replacement is the last thing typed (`EmptyTriggerFires`). The
  first-match results (`ScanCleared`, `ScanIsFirstMatch`, the matching case
  of `StepCases`, `AtMostOneReplacement`, `ReplacesTriggerOnScreen`) assume
  every trigger is non-empty (`NonEmptyTriggers`). `MainWindow.AddRule`
  keeps that invariant.
- An empty replacement is refused by the window's guard.
- The buffer lives in the replacer object. `start` does not reset it, so it
  survives a stop and a restart.
- Matching is first-match in insertion order, not longest-match
  (`ShadowedRuleNeverFires`, `ShadowExample`).

## Model

| member | source | states |
|---|---|---|
| RuleTable.Put | main.py:15-16 | After assignment the trigger maps to the new replacement and every other trigger's lookup is unchanged |
| RuleTable.PutOrder | main.py:15-16 | Assignment keeps the key order. A new key is appended at the end, and an existing key keeps its place |
| RuleTable.PutUnique | main.py:15-16 | Assignment keeps the keys unique |
| RuleTable.OverwriteKeepsPosition | main.py:15-16 | Overwriting an existing key changes only that entry's replacement, in place |
| RuleTable.PutIsAssignment | main.py:16 | On the dictionary view, `Put` is exactly `m[t := r]` |
| RuleTable.Lookup | main.py:20 | Lookup finds a value exactly when the trigger is a key |
| RuleTable.Delete | main.py:19-21 | Deleting an absent trigger leaves the table as it is. Every other trigger's lookup is unchanged |
| RuleTable.DeleteOne | main.py:20-21 | Deleting a present trigger removes exactly its entry and keeps the other entries in order |
| RuleTable.DeleteUnique | main.py:21 | After deletion the keys are still unique and the trigger is no longer a key |
| RuleTable.DeleteIsDel | main.py:21 | On a table with unique keys, `Delete` is exactly `m - {t}` on the dictionary view |
| RuleTable.DeleteIdempotent | main.py:19-22 | Removing a trigger twice is the same as removing it once |
| RuleTable.ReAddMovesToEnd | main.py:15-22 | Deleting a trigger and adding it again moves it to the end of the iteration order |
| RuleTable.ToMap | main.py:10 | The dictionary view has exactly the table's keys, and each value is what lookup returns |
| RuleTable.IndexOf | main.py:20 | Gives the position of the trigger's entry, or the table length when the trigger is absent |
| RuleTable.FromEntries | main.py:33-34 | The loaded table has unique keys and exactly the keys of the file, and the file's final entry is looked up to its own value |
| RuleTable.FromEntriesLastValue | main.py:33-34 | Every key of the file is looked up to the value of its last occurrence |
| RuleTable.FromEntriesOrder | main.py:33-34 | The loaded table's keys are the file's keys in the order of their first occurrence |
| RuleTable.PutKeepsNonEmpty | main.py:104-105 | Adding a rule with a non-empty trigger keeps every trigger non-empty |
| RuleTable.DeleteKeepsNonEmpty | main.py:19-22 | Removing a rule keeps every trigger non-empty |
| Expansion.HasChar | main.py:43 | A key counts only when it carries a non-empty character string; special keys and keys whose `char` is None do not |
| Expansion.EndsWith | main.py:46 | `str.endswith`: the suffix is no longer than the string and equals its tail |
| Expansion.EndsWithSuffix | main.py:46 | A string ends with a suffix exactly when it is some prefix followed by that suffix |
| Expansion.Scan | main.py:45-51 | The loop over the table: nothing emitted means the buffer is kept, anything emitted means the buffer ends cleared |
| Expansion.Step | main.py:41-51 | One key event: either nothing is emitted and the buffer holds what was typed (the character appended for a character key, unchanged otherwise), or a character key fired a rule and the buffer is cleared |
| Expansion.Erase | main.py:47-49 | `n` backspace rounds are exactly 2n actions, alternating press and release, starting with a press |
| Expansion.FirstMatch | main.py:45-46 | Finds the first rule, in table order, whose trigger ends the buffer; every earlier trigger does not end it |
| Expansion.ScanNoMatch | main.py:44-46 | When no trigger ends the buffer, the scan keeps the buffer and emits nothing |
| Expansion.ScanCleared | main.py:46-51 | With non-empty triggers, no rule matches the cleared buffer, so nothing more fires after a match |
| Expansion.ScanIsFirstMatch | main.py:45-51 | With non-empty triggers, the scan without `break` behaves exactly like a first-match expander |
| Expansion.StepCases | main.py:41-51 | For every table, a key without a character changes nothing and an unmatched character grows the buffer and emits nothing. With non-empty triggers, a match erases the first matching trigger's length, types its replacement and clears the buffer |
| Expansion.AtMostOneReplacement | main.py:45-51 | With non-empty triggers, one key event types at most one replacement |
| Expansion.EmptyTriggerFires | main.py:45-51 | An empty trigger fires on every character: the buffer ends empty and that rule's replacement is typed; in a table with unique keys it is the last action emitted, after any earlier rule that fired |
| Expansion.ShadowedRuleNeverFires | main.py:45-46 | A rule placed after a rule whose trigger ends its own trigger is never the first match |
| Expansion.EraseDeletes | main.py:47-49 | `n` backspace rounds remove the last `n` characters of the field |
| Expansion.ReplacesTriggerOnScreen | main.py:46-51 | With non-empty triggers, when the field ends with the typed buffer, a completed trigger is replaced in place by its replacement and the text before it is kept |
| Expansion.Run | main.py:55-56 | The listener hands the keys to `on_press` one at a time, in order, threading the buffer from one event to the next |
| Expansion.RunAppend | main.py:55-56 | Delivering two runs of keys in turn is the same as delivering them as one run: only the buffer carries over |
| Expansion.EmDashSteps | main.py:43-51 | With the rule `--` to an em dash, `a` and the first `-` only grow the buffer, and the second `-` erases two characters and types the dash |
| Expansion.EmDashExample | main.py:41-51 | With the rule `--` to an em dash, typing `a--` erases two characters, types the dash and leaves `a—` |
| Expansion.ShadowExample | main.py:45-51 | With rules `-` then `--`, each dash fires the first rule and the second rule never fires |
| Replacer.ShortcutReplacer.constructor | main.py:9-13 | The replacer starts with an empty buffer and no output. The table is the file's table, or empty when the file is missing or unreadable |
| Replacer.ShortcutReplacer.AddReplacement | main.py:15-17 | The table becomes `Put` of the old one, the map view is assigned, keys stay unique, and the new table is saved |
| Replacer.ShortcutReplacer.RemoveReplacement | main.py:19-22 | A present trigger is deleted and the table saved. An absent trigger changes and saves nothing. The map view loses the trigger |
| Replacer.ShortcutReplacer.OnPress | main.py:41-53 | The loop leaves the buffer and the output log as `Step` says and changes nothing else; in particular the rule table is unchanged |
| Control.MainWindow.constructor | main.py:74-77 | The window starts with both text fields empty |
| Control.Accepts | main.py:104 | The guard of `add_rule`: both fields are non-empty |
| Control.MainWindow.AddRule | main.py:101-108 | A rule is added and both fields cleared only when both are non-empty; otherwise nothing changes; a table of non-empty triggers stays so |

## Left out

- The window itself: widget construction, the replacer that `__init__` builds for itself (the model's window is given one), the list of rules shown on screen (`rules_list`, `load_rules_into_list`) and the application main loop. This is user interface code.
- Control.MainWindow.AddRule: does not model the `rules_list.addItem` call that shows the new rule, because the list widget is user interface.
- `start` and `stop`: the `keyboard.Listener` lifecycle, the thread started by `start_replacer`, and the unguarded second start. These are concurrency and a foreign hook library. `Run` stands for the listener delivering keys one at a time in order.
- The keyboard controller is modelled only as the log `out` of actions. The model does not feed injected keystrokes back into the listener.
- `save_rules` and `load_rules` do file I/O and JSON. Saving is modelled as appending the table to `saved`; a write failure is not modelled. Loading is modelled by the constructor's `Stored` parameter. A JSON value that is not an object of strings is not modelled.
- The `try`/`except` around `on_press` and its printed message. The exceptions come from foreign calls.
