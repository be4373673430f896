/**
  `ShortcutReplacer`: the object that owns the replacement table and the
  typed-text buffer. Persistence and the keyboard controller are modelled
  as logs: `saved` holds every table written to rules.json, `out` every
  action sent to the keyboard controller.
 */
module Replacer {
  import opened RuleTable
  import opened Expansion

  /** What `load_rules` finds: no rules.json, a file that fails to open or parse, or the members of its JSON object in file order. */
  datatype Stored = FileMissing | Unreadable | Entries(entries: seq<Rule>)

  class ShortcutReplacer {
    /** `self.replacements`, in iteration order. */
    var rules: seq<Rule>
    /** `self.current_text`. */
    var buffer: string
    /** The backspace presses, releases and typed texts sent to the keyboard controller, oldest first. */
    var out: seq<Action>
    /** The tables written by `save_rules`, oldest first. */
    var saved: seq<seq<Rule>>

    /** A dict has unique keys. */
    ghost predicate Valid()
      reads this
    {
      UniqueTriggers(rules)
    }

    /** `__init__` followed by `load_rules`: any failure leaves the empty table set up first. */
    constructor (stored: Stored)
      ensures Valid()
      ensures rules == (if stored.Entries? then FromEntries(stored.entries) else [])
      ensures buffer == "" && out == [] && saved == []
    {
      rules := [];
      buffer := "";
      out := [];
      saved := [];
      match stored
      case FileMissing =>
        rules := [];
      case Unreadable =>
      case Entries(entries) =>
        rules := FromEntries(entries);
    }

    /** `add_replacement`: assign the entry, then save the whole table. */
    method AddReplacement(trigger: string, replacement: string)
      requires Valid()
      modifies this`rules, this`saved
      ensures Valid()
      ensures rules == Put(old(rules), trigger, replacement)
      ensures ToMap(rules) == ToMap(old(rules))[trigger := replacement]
      ensures saved == old(saved) + [rules]
    {
      PutIsAssignment(rules, trigger, replacement);
      PutUnique(rules, trigger, replacement);
      rules := Put(rules, trigger, replacement);
      saved := saved + [rules];
    }

    /** `remove_replacement`: delete and save when the trigger is a key; otherwise change and save nothing. */
    method RemoveReplacement(trigger: string)
      requires Valid()
      modifies this`rules, this`saved
      ensures Valid()
      ensures trigger in Triggers(old(rules)) ==>
        rules == Delete(old(rules), trigger) && saved == old(saved) + [rules]
      ensures ToMap(rules) == ToMap(old(rules)) - {trigger}
      ensures trigger !in Triggers(old(rules)) ==> rules == old(rules) && saved == old(saved)
    {
      if trigger in Triggers(rules) {
        DeleteIsDel(rules, trigger);
        DeleteUnique(rules, trigger);
        rules := Delete(rules, trigger);
        saved := saved + [rules];
      } else {
        assert ToMap(rules) - {trigger} == ToMap(rules);
      }
    }

    /**
      `on_press(key)`. The rule table is only read: the frame names the
      buffer and the output log and nothing else.
     */
    method OnPress(k: Key)
      modifies this`buffer, this`out
      ensures buffer == Step(rules, old(buffer), k).buffer
      ensures out == old(out) + Step(rules, old(buffer), k).emitted
    {
      if HasChar(k) {
        buffer := buffer + k.ch.value;
        ghost var typed := buffer;
        var i := 0;
        while i < |rules|
          invariant 0 <= i <= |rules|
          invariant Scan(rules[i..], buffer).buffer == Scan(rules, typed).buffer
          invariant out + Scan(rules[i..], buffer).emitted == old(out) + Scan(rules, typed).emitted
        {
          assert rules[i..][1..] == rules[i + 1..];
          var (trigger, replacement) := rules[i];
          if EndsWith(buffer, trigger) {
            ghost var before := out;
            for j := 0 to |trigger|
              invariant out == before + Erase(j)
            {
              out := out + [PressBackspace, ReleaseBackspace];
            }
            out := out + [TypeText(replacement)];
            buffer := "";
          }
          i := i + 1;
        }
      }
    }
  }
}
