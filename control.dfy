/**
  The one piece of the window kept in the model: the "Add Rule" handler,
  which passes the two text fields to the replacer only when both are
  non-empty and then clears them.
 */
module Control {
  import opened RuleTable
  import opened Replacer

  class MainWindow {
    const replacer: ShortcutReplacer
    /** The text of the trigger field. */
    var triggerInput: string
    /** The text of the replacement field. */
    var replacementInput: string

    /**
      The window with both text fields empty. `__init__` builds its own
      replacer; here the replacer is passed in, so that its table can be any
      loaded one.
     */
    constructor (replacer: ShortcutReplacer)
      ensures this.replacer == replacer && triggerInput == "" && replacementInput == ""
    {
      this.replacer := replacer;
      triggerInput := "";
      replacementInput := "";
    }

    /** `add_rule`: add the rule and clear both fields when both are filled in; otherwise do nothing. */
    method AddRule()
      requires replacer.Valid()
      modifies replacer`rules, replacer`saved, this`triggerInput, this`replacementInput
      ensures replacer.Valid()
      ensures Accepts(old(triggerInput), old(replacementInput)) ==>
        replacer.rules == Put(old(replacer.rules), old(triggerInput), old(replacementInput)) &&
        replacer.saved == old(replacer.saved) + [replacer.rules] &&
        triggerInput == "" && replacementInput == ""
      ensures !Accepts(old(triggerInput), old(replacementInput)) ==>
        replacer.rules == old(replacer.rules) && replacer.saved == old(replacer.saved) &&
        triggerInput == old(triggerInput) && replacementInput == old(replacementInput)
      ensures NonEmptyTriggers(old(replacer.rules)) ==> NonEmptyTriggers(replacer.rules)
    {
      var trigger, replacement := triggerInput, replacementInput;
      if Accepts(trigger, replacement) {
        if NonEmptyTriggers(replacer.rules) {
          PutKeepsNonEmpty(replacer.rules, trigger, replacement);
        }
        replacer.AddReplacement(trigger, replacement);
        triggerInput := "";
        replacementInput := "";
      }
    }
  }

  /** `if trigger and replacement`: both fields are non-empty. */
  predicate Accepts(trigger: string, replacement: string) {
    trigger != "" && replacement != ""
  }
}
