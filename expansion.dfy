/**
  The expansion step of the shortcut replacer: what `on_press` does with one
  key event, as a function of the rule table and the typed-text buffer. The
  effect on the focused text field is given by `Apply`, which plays the
  emitted key actions against a string.
 */
module Expansion {
  import opened RuleTable

  /** A key event: a special key (shift, F1, ...) or a key code whose `char` may be None (`ch`). */
  datatype Key = Special | Code(ch: Option<string>)

  /** What the keyboard controller is told to do. */
  datatype Action = PressBackspace | ReleaseBackspace | TypeText(text: string)

  /** The buffer after a key event, and the actions emitted for it, oldest first. */
  datatype Effect = Effect(buffer: string, emitted: seq<Action>)

  /** `hasattr(key, 'char') and key.char`: the key carries a non-empty character string. */
  predicate HasChar(k: Key) {
    k.Code? && k.ch.Some? && k.ch.value != ""
  }

  /** Python's `s.endswith(suffix)`. */
  predicate EndsWith(s: string, suffix: string) {
    |suffix| <= |s| && s[|s| - |suffix|..] == suffix
  }

  /** A string ends with `suffix` exactly when it is some prefix followed by `suffix`. */
  lemma EndsWithSuffix(s: string, suffix: string)
    ensures EndsWith(s, suffix) <==> exists p :: s == p + suffix
  {
    if EndsWith(s, suffix) {
      assert s == s[..|s| - |suffix|] + suffix;
    }
    if p :| s == p + suffix {
      assert s[|s| - |suffix|..] == suffix;
    }
  }

  /** `n` backspace press/release pairs. */
  function Erase(n: nat): (acts: seq<Action>)
    ensures |acts| == 2 * n
    ensures forall i :: 0 <= i < |acts| ==> acts[i] == if i % 2 == 0 then PressBackspace else ReleaseBackspace
  {
    if n == 0 then [] else Erase(n - 1) + [PressBackspace, ReleaseBackspace]
  }

  /**
    The loop over `replacements.items()` on the buffer that already holds the
    new character: every rule whose trigger ends the buffer, in table order,
    erases the trigger, types its replacement and clears the buffer. The loop
    has no `break`, so later rules are tried against the cleared buffer.
   */
  function Scan(rules: seq<Rule>, buffer: string): (e: Effect)
    ensures e.emitted == [] ==> e.buffer == buffer
    ensures e.emitted != [] ==> e.buffer == ""
  {
    if rules == [] then Effect(buffer, [])
    else if EndsWith(buffer, rules[0].0) then
      var rest := Scan(rules[1..], "");
      Effect(rest.buffer, Erase(|rules[0].0|) + [TypeText(rules[0].1)] + rest.emitted)
    else Scan(rules[1..], buffer)
  }

  /**
    `on_press(key)`: keys without a character are ignored; a character is
    appended, then the table is scanned. Either nothing is emitted and the
    buffer holds what was typed, or a character key fired a rule and the
    buffer is cleared.
   */
  function Step(rules: seq<Rule>, buffer: string, k: Key): (e: Effect)
    ensures e.emitted != [] ==> HasChar(k) && e.buffer == ""
    ensures e.emitted == [] ==> e.buffer == if HasChar(k) then buffer + k.ch.value else buffer
  {
    if HasChar(k) then Scan(rules, buffer + k.ch.value) else Effect(buffer, [])
  }

  /** The position of the first rule whose trigger ends `buffer`, or `|rules|` when none does. */
  function FirstMatch(rules: seq<Rule>, buffer: string): (i: nat)
    ensures i <= |rules|
    ensures i < |rules| ==> EndsWith(buffer, rules[i].0)
    ensures forall j :: 0 <= j < i ==> !EndsWith(buffer, rules[j].0)
  {
    if rules == [] then 0
    else if EndsWith(buffer, rules[0].0) then 0
    else 1 + FirstMatch(rules[1..], buffer)
  }

  /** What a first-match expander does: nothing when no trigger matches, else replace the first match and clear. */
  function Expected(rules: seq<Rule>, buffer: string): Effect
  {
    var i := FirstMatch(rules, buffer);
    if i == |rules| then Effect(buffer, [])
    else Effect("", Erase(|rules[i].0|) + [TypeText(rules[i].1)])
  }

  /** When no trigger ends the buffer, the scan keeps the buffer and emits nothing. */
  lemma {:induction false} ScanNoMatch(rules: seq<Rule>, buffer: string)
    requires FirstMatch(rules, buffer) == |rules|
    ensures Scan(rules, buffer) == Effect(buffer, [])
  {
    if rules != [] {
      ScanNoMatch(rules[1..], buffer);
    }
  }

  /** With non-empty triggers, nothing matches the cleared buffer. */
  lemma {:induction false} ScanCleared(rules: seq<Rule>)
    requires NonEmptyTriggers(rules)
    ensures Scan(rules, "") == Effect("", [])
  {
    if rules != [] {
      TriggerAt(rules, 0);
      assert Triggers(rules) == [rules[0].0] + Triggers(rules[1..]);
      ScanCleared(rules[1..]);
    }
  }

  /** With non-empty triggers, the scan is a first-match expander: at most one rule fires. */
  lemma {:induction false} ScanIsFirstMatch(rules: seq<Rule>, buffer: string)
    requires NonEmptyTriggers(rules)
    ensures Scan(rules, buffer) == Expected(rules, buffer)
  {
    if rules != [] {
      assert Triggers(rules) == [rules[0].0] + Triggers(rules[1..]);
      if EndsWith(buffer, rules[0].0) {
        ScanCleared(rules[1..]);
      } else {
        ScanIsFirstMatch(rules[1..], buffer);
      }
    }
  }

  /**
    One key event, case by case: a key without a character changes nothing;
    a character that completes no trigger is appended to the buffer and
    nothing is emitted. For a table whose triggers are non-empty, a character
    that completes a trigger erases that trigger, types its replacement and
    clears the buffer, and the trigger is the first in table order that matches.
   */
  lemma {:induction false} StepCases(rules: seq<Rule>, buffer: string, k: Key)
    ensures !HasChar(k) ==> Step(rules, buffer, k) == Effect(buffer, [])
    ensures HasChar(k) && FirstMatch(rules, buffer + k.ch.value) == |rules| ==>
      Step(rules, buffer, k) == Effect(buffer + k.ch.value, [])
    ensures NonEmptyTriggers(rules) && HasChar(k) && FirstMatch(rules, buffer + k.ch.value) < |rules| ==>
      var (t, r) := rules[FirstMatch(rules, buffer + k.ch.value)];
      EndsWith(buffer + k.ch.value, t) &&
      Step(rules, buffer, k) == Effect("", Erase(|t|) + [TypeText(r)])
  {
    if HasChar(k) {
      var c := buffer + k.ch.value;
      if FirstMatch(rules, c) == |rules| {
        ScanNoMatch(rules, c);
      } else if NonEmptyTriggers(rules) {
        ScanIsFirstMatch(rules, c);
      }
    }
  }

  /** The text typed by one action, if any. */
  function TypedBy(a: Action): seq<string> {
    if a.TypeText? then [a.text] else []
  }

  /** The texts typed by a sequence of actions, in order. */
  function Typed(acts: seq<Action>): seq<string>
  {
    if acts == [] then [] else TypedBy(acts[0]) + Typed(acts[1..])
  }

  lemma {:induction false} TypedAppend(a: seq<Action>, b: seq<Action>)
    ensures Typed(a + b) == Typed(a) + Typed(b)
  {
    if a == [] {
      assert a + b == b;
    } else {
      var ab := a + b;
      assert ab[0] == a[0] && ab[1..] == a[1..] + b;
      TypedAppend(a[1..], b);
      calc {
        Typed(ab);
        TypedBy(a[0]) + Typed(a[1..] + b);
        TypedBy(a[0]) + (Typed(a[1..]) + Typed(b));
        (TypedBy(a[0]) + Typed(a[1..])) + Typed(b);
      }
    }
  }

  lemma {:induction false} TypedErase(n: nat)
    ensures Typed(Erase(n)) == []
  {
    if n > 0 {
      TypedErase(n - 1);
      TypedAppend(Erase(n - 1), [PressBackspace, ReleaseBackspace]);
    }
  }

  /** With non-empty triggers, a key event types at most one replacement. */
  lemma {:induction false} AtMostOneReplacement(rules: seq<Rule>, buffer: string, k: Key)
    requires NonEmptyTriggers(rules)
    ensures |Typed(Step(rules, buffer, k).emitted)| <= 1
  {
    StepCases(rules, buffer, k);
    if HasChar(k) {
      var c := buffer + k.ch.value;
      var i := FirstMatch(rules, c);
      if i < |rules| {
        TypedErase(|rules[i].0|);
        TypedAppend(Erase(|rules[i].0|), [TypeText(rules[i].1)]);
      }
    }
  }

  /**
    An empty trigger, which `add_replacement` does not refuse, ends every
    buffer: once the table holds one, every character key clears the buffer
    and types that rule's replacement. In a table with unique keys it is the
    last thing typed, after any earlier rule that fired on the same key.
   */
  lemma {:induction false} EmptyTriggerFires(rules: seq<Rule>, buffer: string, i: nat)
    requires i < |rules| && rules[i].0 == ""
    ensures Scan(rules, buffer).buffer == ""
    ensures rules[i].1 in Typed(Scan(rules, buffer).emitted)
    ensures UniqueTriggers(rules) ==>
      var e := Scan(rules, buffer).emitted;
      e != [] && e[|e| - 1] == TypeText(rules[i].1)
  {
    if i == 0 {
      assert EndsWith(buffer, "");
      var rest := Scan(rules[1..], "");
      TypedErase(0);
      TypedAppend(Erase(0) + [TypeText(rules[0].1)], rest.emitted);
      TypedAppend(Erase(0), [TypeText(rules[0].1)]);
      if UniqueTriggers(rules) {
        ScanCleared(rules[1..]);
      }
    } else {
      assert rules[1..][i - 1] == rules[i];
      if EndsWith(buffer, rules[0].0) {
        var rest := Scan(rules[1..], "");
        EmptyTriggerFires(rules[1..], "", i - 1);
        TypedAppend(Erase(|rules[0].0|) + [TypeText(rules[0].1)], rest.emitted);
      } else {
        EmptyTriggerFires(rules[1..], buffer, i - 1);
      }
    }
  }

  lemma {:induction false} EndsWithTrans(s: string, t: string, u: string)
    requires EndsWith(s, t) && EndsWith(t, u)
    ensures EndsWith(s, u)
  {
    assert s[|s| - |u|..] == s[|s| - |t|..][|t| - |u|..];
  }

  /**
    First match, not longest match: a rule placed after a rule whose trigger
    ends its own trigger (`"-"` before `"--"`) never fires.
   */
  lemma {:induction false} ShadowedRuleNeverFires(rules: seq<Rule>, buffer: string, i: nat, j: nat)
    requires i < j < |rules| && EndsWith(rules[j].0, rules[i].0)
    ensures FirstMatch(rules, buffer) != j
  {
    if FirstMatch(rules, buffer) == j {
      EndsWithTrans(buffer, rules[j].0, rules[i].0);
    }
  }

  /** One action played against the text of the focused field. */
  function ApplyAction(screen: string, a: Action): string
  {
    match a
    case PressBackspace => if screen == "" then "" else screen[..|screen| - 1]
    case ReleaseBackspace => screen
    case TypeText(s) => screen + s
  }

  /** The actions played in order against the text of the focused field. */
  function Apply(screen: string, acts: seq<Action>): string
    decreases acts
  {
    if acts == [] then screen else Apply(ApplyAction(screen, acts[0]), acts[1..])
  }

  lemma {:induction false} ApplyAppend(screen: string, a: seq<Action>, b: seq<Action>)
    ensures Apply(screen, a + b) == Apply(Apply(screen, a), b)
    decreases a
  {
    if a == [] {
      assert a + b == b;
    } else {
      assert (a + b)[1..] == a[1..] + b;
      ApplyAppend(ApplyAction(screen, a[0]), a[1..], b);
    }
  }

  /** `n` backspace pairs remove the last `n` characters. */
  lemma {:induction false} EraseDeletes(screen: string, n: nat)
    requires n <= |screen|
    ensures Apply(screen, Erase(n)) == screen[..|screen| - n]
  {
    if n > 0 {
      EraseDeletes(screen, n - 1);
      ApplyAppend(screen, Erase(n - 1), [PressBackspace, ReleaseBackspace]);
      var s := screen[..|screen| - (n - 1)];
      assert Apply(s, [PressBackspace, ReleaseBackspace]) == Apply(s[..|s| - 1], [ReleaseBackspace]);
      assert Apply(s[..|s| - 1], [ReleaseBackspace]) == Apply(s[..|s| - 1], []);
      assert s[..|s| - 1] == screen[..|screen| - n];
    }
  }

  /**
    The replacement happens in place: when the field ends with what the
    buffer holds, a key that completes a trigger leaves the field with the
    trigger replaced by its replacement and everything before it untouched.
   */
  lemma {:induction false} ReplacesTriggerOnScreen(rules: seq<Rule>, buffer: string, k: Key, screen: string, i: nat)
    requires NonEmptyTriggers(rules) && HasChar(k)
    requires EndsWith(screen, buffer + k.ch.value)
    requires i == FirstMatch(rules, buffer + k.ch.value) < |rules|
    ensures |rules[i].0| <= |screen|
    ensures Apply(screen, Step(rules, buffer, k).emitted) == screen[..|screen| - |rules[i].0|] + rules[i].1
  {
    var t, r := rules[i].0, rules[i].1;
    ScanIsFirstMatch(rules, buffer + k.ch.value);
    var acts := Step(rules, buffer, k).emitted;
    assert acts == Erase(|t|) + [TypeText(r)];
    assert |t| <= |screen|;
    EraseDeletes(screen, |t|);
    ApplyAppend(screen, Erase(|t|), [TypeText(r)]);
    var left := screen[..|screen| - |t|];
    assert Apply(left, [TypeText(r)]) == Apply(left + r, []);
  }

  /** The listener delivering `keys` to `on_press` one at a time, in order. */
  function Run(rules: seq<Rule>, buffer: string, keys: seq<Key>): Effect
    decreases keys
  {
    if keys == [] then Effect(buffer, [])
    else
      var first := Step(rules, buffer, keys[0]);
      var rest := Run(rules, first.buffer, keys[1..]);
      Effect(rest.buffer, first.emitted + rest.emitted)
  }

  /** Delivering two runs of keys one after the other is the same as delivering them as one run. */
  lemma {:induction false} RunAppend(rules: seq<Rule>, buffer: string, a: seq<Key>, b: seq<Key>)
    ensures Run(rules, buffer, a + b) ==
      var first := Run(rules, buffer, a);
      var rest := Run(rules, first.buffer, b);
      Effect(rest.buffer, first.emitted + rest.emitted)
    decreases a
  {
    if a == [] {
      assert a + b == b;
    } else {
      assert (a + b)[0] == a[0] && (a + b)[1..] == a[1..] + b;
      RunAppend(rules, Step(rules, buffer, a[0]).buffer, a[1..], b);
    }
  }

  // The scenario lemmas below take the table and the key as parameters pinned by
  // `requires` rather than as literals: the solver then unfolds `Scan` on a name
  // instead of on a literal sequence, which keeps each proof small.

  /** The three key events of `a--` under the rule `"--"` to an em dash, one by one. */
  lemma {:induction false} EmDashSteps(rules: seq<Rule>, dash: Key)
    requires rules == [("--", "\U{2014}")] && dash == Code(Some("-"))
    ensures Step(rules, "", Code(Some("a"))) == Effect("a", [])
    ensures Step(rules, "a", dash) == Effect("a-", [])
    ensures Step(rules, "a-", dash) == Effect("", Erase(2) + [TypeText("\U{2014}")])
  {
    assert Step(rules, "", Code(Some("a"))) == Effect("a", []) by {
      assert "" + "a" == "a" && !EndsWith("a", "--");
      assert Scan(rules, "a") == Scan([], "a");
    }
    assert Step(rules, "a", dash) == Effect("a-", []) by {
      assert "a" + "-" == "a-";
      assert Step(rules, "a", dash) == Scan(rules, "a-");
      assert !EndsWith("a-", "--") by { assert "a-"[0] != "--"[0]; }
      assert Scan(rules, "a-") == Scan([], "a-");
    }
    assert Step(rules, "a-", dash) == Effect("", Erase(2) + [TypeText("\U{2014}")]) by {
      assert "a-" + "-" == "a--";
      assert Step(rules, "a-", dash) == Scan(rules, "a--");
      assert EndsWith("a--", "--") by { assert "a--"[1..] == "--"; }
      assert rules[1..] == [] && Scan([], "") == Effect("", []);
    }
  }

  /** Rule `"--"` to an em dash; typing `a--` erases two characters and types the dash, leaving `a—` on screen. */
  lemma {:induction false} EmDashExample(rules: seq<Rule>, dash: Key)
    requires rules == [("--", "\U{2014}")] && dash == Code(Some("-"))
    ensures Run(rules, "", [Code(Some("a")), dash, dash]) == Effect("", Erase(2) + [TypeText("\U{2014}")])
    ensures Apply("a--", Erase(2) + [TypeText("\U{2014}")]) == "a\U{2014}"
  {
    var emitted := Erase(2) + [TypeText("\U{2014}")];
    EmDashSteps(rules, dash);
    assert Run(rules, "a-", [dash]) == Effect("", emitted);
    assert [dash, dash][1..] == [dash];
    assert Run(rules, "a", [dash, dash]) == Effect("", emitted);
    assert [Code(Some("a")), dash, dash][1..] == [dash, dash];
    EraseDeletes("a--", 2);
    ApplyAppend("a--", Erase(2), [TypeText("\U{2014}")]);
    assert Apply("a", [TypeText("\U{2014}")]) == Apply("a\U{2014}", []);
  }

  /** Rules `"-"` then `"--"`: each dash fires the first rule at once, so the second never fires. */
  lemma {:induction false} ShadowExample(rules: seq<Rule>, dash: Key)
    requires rules == [("-", "\U{2013}"), ("--", "\U{2014}")] && dash == Code(Some("-"))
    ensures Run(rules, "", [dash, dash]) ==
      Effect("", Erase(1) + [TypeText("\U{2013}")] + Erase(1) + [TypeText("\U{2013}")])
  {
    var fired := Erase(1) + [TypeText("\U{2013}")];
    assert Step(rules, "", dash) == Effect("", fired) by {
      assert "" + "-" == "-";
      assert EndsWith("-", "-") && !EndsWith("", "--");
      assert rules[1..][1..] == [];
      assert Scan(rules[1..], "") == Effect("", []);
    }
    assert Run(rules, "", [dash]) == Effect("", fired);
    assert [dash, dash][1..] == [dash];
  }
}
