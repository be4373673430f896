/**
  The replacement table of the shortcut replacer: a Python dict from trigger
  to replacement. A dict remembers the order in which its keys were first
  inserted, and that order decides which trigger wins when several match, so
  the table is modelled as a sequence of (trigger, replacement) pairs whose
  triggers are unique. `ToMap` gives the plain dictionary view.
 */
module RuleTable {

  datatype Option<T> = None | Some(value: T)

  /** A rule: (trigger, replacement). */
  type Rule = (string, string)

  /** The keys of the table, in iteration order. */
  function Triggers(rs: seq<Rule>): (ts: seq<string>)
    ensures |ts| == |rs|
  {
    if rs == [] then [] else [rs[0].0] + Triggers(rs[1..])
  }

  lemma {:induction false} TriggerAt(rs: seq<Rule>, i: nat)
    requires i < |rs|
    ensures Triggers(rs)[i] == rs[i].0
  {
    if i > 0 {
      TriggerAt(rs[1..], i - 1);
    }
  }

  lemma {:induction false} TriggersAppend(a: seq<Rule>, b: seq<Rule>)
    ensures Triggers(a + b) == Triggers(a) + Triggers(b)
  {
    if a != [] {
      TriggersAppend(a[1..], b);
      assert (a + b)[1..] == a[1..] + b;
    } else {
      assert a + b == b;
    }
  }

  /** Every key occurs once, as in a dict. */
  predicate UniqueTriggers(rs: seq<Rule>) {
    rs == [] || (rs[0].0 !in Triggers(rs[1..]) && UniqueTriggers(rs[1..]))
  }

  /** No key is the empty string (the guard of the control surface keeps this). */
  predicate NonEmptyTriggers(rs: seq<Rule>) {
    "" !in Triggers(rs)
  }

  /** The position of the first entry whose key is `t`, or `|rs|` when there is none. */
  function IndexOf(rs: seq<Rule>, t: string): (i: nat)
    ensures i <= |rs|
    ensures i < |rs| <==> t in Triggers(rs)
    ensures i < |rs| ==> rs[i].0 == t
  {
    if rs == [] then 0
    else if rs[0].0 == t then 0
    else 1 + IndexOf(rs[1..], t)
  }

  /** `rs[t]`, or None when `t` is not a key. */
  function Lookup(rs: seq<Rule>, t: string): (r: Option<string>)
    ensures r.Some? <==> t in Triggers(rs)
  {
    if rs == [] then None
    else if rs[0].0 == t then Some(rs[0].1)
    else Lookup(rs[1..], t)
  }

  /** `self.replacements[t] = r`: overwrite in place when `t` is a key, append otherwise. */
  function Put(rs: seq<Rule>, t: string, r: string): (rs': seq<Rule>)
    ensures Lookup(rs', t) == Some(r)
    ensures forall u :: u != t ==> Lookup(rs', u) == Lookup(rs, u)
  {
    if rs == [] then [(t, r)]
    else if rs[0].0 == t then
      var rs' := [(t, r)] + rs[1..];
      assert rs'[1..] == rs[1..];
      rs'
    else
      var tail := Put(rs[1..], t, r);
      var rs' := [rs[0]] + tail;
      assert rs'[1..] == tail;
      rs'
  }

  /** Assignment keeps the iteration order of the keys, and a new key goes last. */
  lemma {:induction false} PutOrder(rs: seq<Rule>, t: string, r: string)
    ensures Triggers(Put(rs, t, r)) == if t in Triggers(rs) then Triggers(rs) else Triggers(rs) + [t]
    ensures t !in Triggers(rs) ==> Put(rs, t, r) == rs + [(t, r)]
  {
    if rs != [] && rs[0].0 != t {
      PutOrder(rs[1..], t, r);
      assert rs == [rs[0]] + rs[1..];
      assert Put(rs, t, r)[1..] == Put(rs[1..], t, r);
    }
  }

  /** Assignment keeps the keys unique. */
  lemma {:induction false} PutUnique(rs: seq<Rule>, t: string, r: string)
    requires UniqueTriggers(rs)
    ensures UniqueTriggers(Put(rs, t, r))
  {
    PutOrder(rs, t, r);
    if rs != [] && rs[0].0 != t {
      PutUnique(rs[1..], t, r);
      PutOrder(rs[1..], t, r);
      assert Put(rs, t, r)[1..] == Put(rs[1..], t, r);
    } else if rs != [] {
      assert Put(rs, t, r)[1..] == rs[1..];
    }
  }

  /** `del self.replacements[t]` when `t` is a key; the table is unchanged otherwise. */
  function Delete(rs: seq<Rule>, t: string): (rs': seq<Rule>)
    ensures t !in Triggers(rs) ==> rs' == rs
    ensures forall u :: u != t ==> Lookup(rs', u) == Lookup(rs, u)
  {
    if rs == [] then []
    else if rs[0].0 == t then rs[1..]
    else
      var tail := Delete(rs[1..], t);
      var rs' := [rs[0]] + tail;
      assert rs'[1..] == tail;
      rs'
  }

  /** Deletion removes exactly the entry of `t` and keeps the others in order. */
  lemma {:induction false} DeleteOne(rs: seq<Rule>, t: string)
    requires t in Triggers(rs)
    ensures Delete(rs, t) == rs[..IndexOf(rs, t)] + rs[IndexOf(rs, t) + 1..]
  {
    if rs[0].0 != t {
      DeleteOne(rs[1..], t);
      var i := IndexOf(rs[1..], t);
      assert rs[1..][..i] + rs[1..][i + 1..] == rs[1..i + 1] + rs[i + 2..];
      assert rs[..i + 1] == [rs[0]] + rs[1..i + 1];
    }
  }

  /** Deletion adds no key. */
  lemma {:induction false} DeleteTriggers(rs: seq<Rule>, t: string, u: string)
    requires u in Triggers(Delete(rs, t))
    ensures u in Triggers(rs)
  {
    if rs != [] && rs[0].0 != t {
      var tail := Delete(rs[1..], t);
      assert Delete(rs, t) == [rs[0]] + tail;
      TriggersAppend([rs[0]], tail);
      if u != rs[0].0 {
        DeleteTriggers(rs[1..], t, u);
      }
    }
  }

  /** Deletion keeps the keys unique, and afterwards `t` is no key. */
  lemma {:induction false} DeleteUnique(rs: seq<Rule>, t: string)
    requires UniqueTriggers(rs)
    ensures UniqueTriggers(Delete(rs, t)) && t !in Triggers(Delete(rs, t))
  {
    if rs != [] && rs[0].0 != t {
      DeleteUnique(rs[1..], t);
      var tail := Delete(rs[1..], t);
      assert Delete(rs, t) == [rs[0]] + tail;
      assert Delete(rs, t)[1..] == tail;
      TriggersAppend([rs[0]], tail);
      if rs[0].0 in Triggers(tail) {
        DeleteTriggers(rs[1..], t, rs[0].0);
      }
    }
  }

  /** The dictionary the table stands for. */
  function ToMap(rs: seq<Rule>): (m: map<string, string>)
    ensures forall t :: t in m <==> t in Triggers(rs)
    ensures forall t :: t in m ==> Lookup(rs, t) == Some(m[t])
  {
    if rs == [] then map[]
    else ToMap(rs[1..])[rs[0].0 := rs[0].1]
  }

  /** Tables with the same lookups stand for the same dictionary. */
  lemma {:induction false} SameLookups(a: seq<Rule>, m: map<string, string>)
    requires forall u :: Lookup(a, u) == (if u in m then Some(m[u]) else None)
    ensures ToMap(a) == m
  {
    var ma := ToMap(a);
    forall u ensures u in ma <==> u in m {
      assert Lookup(a, u).Some? <==> u in m;
    }
    assert ma.Keys == m.Keys;
    forall u | u in m ensures ma[u] == m[u] {
      assert Lookup(a, u) == Some(ma[u]);
    }
  }

  /** `Put` is dict item assignment. */
  lemma {:induction false} PutIsAssignment(rs: seq<Rule>, t: string, r: string)
    ensures ToMap(Put(rs, t, r)) == ToMap(rs)[t := r]
  {
    var m := ToMap(rs)[t := r];
    forall u ensures Lookup(Put(rs, t, r), u) == (if u in m then Some(m[u]) else None) {
      if u != t && u in ToMap(rs) {
        assert Lookup(rs, u) == Some(ToMap(rs)[u]);
      }
    }
    SameLookups(Put(rs, t, r), m);
  }

  /** On a table with unique keys, `Delete` is dict item deletion. */
  lemma {:induction false} DeleteIsDel(rs: seq<Rule>, t: string)
    requires UniqueTriggers(rs)
    ensures ToMap(Delete(rs, t)) == ToMap(rs) - {t}
  {
    var m := ToMap(rs) - {t};
    DeleteUnique(rs, t);
    forall u ensures Lookup(Delete(rs, t), u) == (if u in m then Some(m[u]) else None) {
      if u != t && u in ToMap(rs) {
        assert Lookup(rs, u) == Some(ToMap(rs)[u]);
      }
    }
    SameLookups(Delete(rs, t), m);
  }

  /** Removing a trigger twice is the same as removing it once. */
  lemma {:induction false} DeleteIdempotent(rs: seq<Rule>, t: string)
    requires UniqueTriggers(rs)
    ensures Delete(Delete(rs, t), t) == Delete(rs, t)
  {
    DeleteUnique(rs, t);
  }

  /** Deleting a key and adding it again moves it to the end of the iteration order. */
  lemma {:induction false} ReAddMovesToEnd(rs: seq<Rule>, t: string, r: string)
    requires UniqueTriggers(rs)
    ensures Put(Delete(rs, t), t, r) == Delete(rs, t) + [(t, r)]
  {
    DeleteUnique(rs, t);
    PutOrder(Delete(rs, t), t, r);
  }

  /** Overwriting a key keeps it, and every other entry, where it was. */
  lemma {:induction false} OverwriteKeepsPosition(rs: seq<Rule>, t: string, r: string)
    requires t in Triggers(rs)
    ensures Put(rs, t, r) == rs[IndexOf(rs, t) := (t, r)]
  {
    if rs[0].0 != t {
      OverwriteKeepsPosition(rs[1..], t, r);
      var i := IndexOf(rs[1..], t);
      assert [rs[0]] + rs[1..][i := (t, r)] == rs[i + 1 := (t, r)];
    }
  }

  /** Adding a rule with a non-empty trigger keeps every trigger non-empty. */
  lemma {:induction false} PutKeepsNonEmpty(rs: seq<Rule>, t: string, r: string)
    requires NonEmptyTriggers(rs) && t != ""
    ensures NonEmptyTriggers(Put(rs, t, r))
  {
    PutOrder(rs, t, r);
  }

  /** Removing a rule keeps every trigger non-empty. */
  lemma {:induction false} DeleteKeepsNonEmpty(rs: seq<Rule>, t: string)
    requires NonEmptyTriggers(rs)
    ensures NonEmptyTriggers(Delete(rs, t))
  {
    if "" in Triggers(Delete(rs, t)) {
      DeleteTriggers(rs, t, "");
    }
  }

  /**
    The table `json.load` builds from the members of a JSON object, in file
    order: each member is assigned in turn, so a repeated key keeps its first
    position and takes its last value.
   */
  function FromEntries(entries: seq<Rule>): (rs: seq<Rule>)
    ensures UniqueTriggers(rs)
    ensures forall u :: u in Triggers(rs) <==> u in Triggers(entries)
    ensures entries != [] ==> Lookup(rs, entries[|entries| - 1].0) == Some(entries[|entries| - 1].1)
  {
    if entries == [] then []
    else
      var init := entries[..|entries| - 1];
      var last := entries[|entries| - 1];
      assert entries == init + [last];
      TriggersAppend(init, [last]);
      var prev := FromEntries(init);
      PutOrder(prev, last.0, last.1);
      PutUnique(prev, last.0, last.1);
      Put(prev, last.0, last.1)
  }

  /** Entry `j` is the last one in `entries` with its key. */
  predicate LastWithKey(entries: seq<Rule>, j: nat)
    requires j < |entries|
  {
    forall l :: j < l < |entries| ==> entries[l].0 != entries[j].0
  }

  /** A repeated key of the file takes the value of its last occurrence. */
  lemma {:induction false} FromEntriesLastValue(entries: seq<Rule>, j: nat)
    requires j < |entries| && LastWithKey(entries, j)
    ensures Lookup(FromEntries(entries), entries[j].0) == Some(entries[j].1)
  {
    var n := |entries|;
    if j < n - 1 {
      var init, last := entries[..n - 1], entries[n - 1];
      var (t, r) := entries[j];
      assert init[j] == (t, r);
      assert LastWithKey(init, j) by {
        forall l | j < l < |init| ensures init[l].0 != t {
          assert init[l] == entries[l];
        }
      }
      FromEntriesLastValue(init, j);
      assert last.0 != t;
      assert FromEntries(entries) == Put(FromEntries(init), last.0, last.1);
      assert Lookup(Put(FromEntries(init), last.0, last.1), t) == Lookup(FromEntries(init), t);
    }
  }

  /** The keys of `ts` in the order of their first occurrence. */
  function FirstOccurrences(ts: seq<string>): seq<string>
  {
    if ts == [] then []
    else
      var d := FirstOccurrences(ts[..|ts| - 1]);
      if ts[|ts| - 1] in d then d else d + [ts[|ts| - 1]]
  }

  /** A repeated key of the file keeps the position of its first occurrence. */
  lemma {:induction false} FromEntriesOrder(entries: seq<Rule>)
    ensures Triggers(FromEntries(entries)) == FirstOccurrences(Triggers(entries))
  {
    if entries != [] {
      var n := |entries|;
      var init, last := entries[..n - 1], entries[n - 1];
      assert entries == init + [last];
      TriggersAppend(init, [last]);
      var ts := Triggers(entries);
      assert ts[..n - 1] == Triggers(init) && ts[n - 1] == last.0;
      FromEntriesOrder(init);
      PutOrder(FromEntries(init), last.0, last.1);
    }
  }
}
