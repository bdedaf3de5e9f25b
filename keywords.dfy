/**
 * The keyword auto-categoriser (`auto_category`) and the category the entry
 * form resolves on submit. The keyword table, which the program loads once
 * from a JSON resource, is an explicit parameter here.
 */
module Keywords {
  import opened Wrappers

  /** Category names with their trigger substrings, both in stored order. */
  type Table = seq<(string, seq<string>)>

  /** The fallback category when no trigger matches. */
  const Other: string := "Other"

  /** The first entry of the form's category list, meaning "categorise by the note". */
  const AutoLabel: string := "Auto (by Note)"

  /** `str.lower` restricted to ASCII letters. */
  function LowerChar(c: char): char {
    if 'A' <= c <= 'Z' then (c as int + 32) as char else c
  }

  function Lower(s: string): string {
    seq(|s|, i requires 0 <= i < |s| => LowerChar(s[i]))
  }

  /** `note or ""`: a missing note reads as the empty string. */
  function NoteText(note: Option<string>): string {
    match note
    case None => ""
    case Some(s) => s
  }

  ghost predicate OccursAt(w: string, s: string, i: int) {
    0 <= i && i + |w| <= |s| && s[i..i + |w|] == w
  }

  /** `w` occurs somewhere in `s`, at any position. */
  ghost predicate IsSubstring(w: string, s: string) {
    exists i :: OccursAt(w, s, i)
  }

  /** Python's `w in s` on strings, scanning `s` from the left. */
  function Contains(s: string, w: string): bool
    decreases |s|
  {
    if |w| > |s| then false
    else if s[..|w|] == w then true
    else Contains(s[1..], w)
  }

  /** Does any trigger of one category occur in the note? */
  function AnyTrigger(words: seq<string>, note: string): bool {
    if words == [] then false
    else Contains(note, words[0]) || AnyTrigger(words[1..], note)
  }

  /** The category of the first entry, in table order, with a trigger in `note`. */
  function FirstMatch(table: Table, note: string): string {
    if table == [] then Other
    else if AnyTrigger(table[0].1, note) then table[0].0
    else FirstMatch(table[1..], note)
  }

  /** `auto_category`: match the lower-cased note against the table. */
  function AutoCategory(table: Table, note: Option<string>): string {
    FirstMatch(table, Lower(NoteText(note)))
  }

  /** Some trigger of `words` occurs in `note`. */
  ghost predicate Triggers(words: seq<string>, note: string) {
    exists k :: 0 <= k < |words| && IsSubstring(words[k], note)
  }

  /** Entry `i` is the first entry of the table that `note` triggers. */
  ghost predicate IsFirstMatch(table: Table, note: string, i: int) {
    && 0 <= i < |table|
    && Triggers(table[i].1, note)
    && forall j :: 0 <= j < i ==> !Triggers(table[j].1, note)
  }

  /** An occurrence in `s[1..]` is an occurrence in `s` one position later. */
  lemma OccursShift(w: string, s: string, i: int)
    requires s != []
    ensures OccursAt(w, s[1..], i) <==> i >= 0 && OccursAt(w, s, i + 1)
  {
    if 0 <= i && i + 1 + |w| <= |s| {
      assert s[1..][i..i + |w|] == s[i + 1..i + 1 + |w|];
    }
  }

  lemma {:induction false} ContainsIsSubstring(s: string, w: string)
    ensures Contains(s, w) <==> IsSubstring(w, s)
    decreases |s|
  {
    if |w| > |s| {
    } else if s[..|w|] == w {
      assert OccursAt(w, s, 0);
    } else {
      ContainsIsSubstring(s[1..], w);
      if IsSubstring(w, s) {
        var i :| OccursAt(w, s, i);
        OccursShift(w, s, i - 1);
      }
      if IsSubstring(w, s[1..]) {
        var i :| OccursAt(w, s[1..], i);
        OccursShift(w, s, i);
      }
    }
  }

  lemma {:induction false} AnyTriggerIsTriggers(words: seq<string>, note: string)
    ensures AnyTrigger(words, note) <==> Triggers(words, note)
  {
    if words != [] {
      ContainsIsSubstring(note, words[0]);
      AnyTriggerIsTriggers(words[1..], note);
      if Triggers(words, note) {
        var k :| 0 <= k < |words| && IsSubstring(words[k], note);
        if k > 0 {
          assert words[1..][k - 1] == words[k];
        }
      }
      if Triggers(words[1..], note) {
        var k :| 0 <= k < |words[1..]| && IsSubstring(words[1..][k], note);
        assert words[k + 1] == words[1..][k];
      }
    }
  }

  /** First match wins: the scan returns the first triggered category, or "Other" if none is. */
  lemma {:induction false} FirstMatchSpec(table: Table, note: string)
    ensures forall i :: IsFirstMatch(table, note, i) ==> FirstMatch(table, note) == table[i].0
    ensures (forall i :: 0 <= i < |table| ==> !Triggers(table[i].1, note)) ==> FirstMatch(table, note) == Other
  {
    if table != [] {
      AnyTriggerIsTriggers(table[0].1, note);
      FirstMatchSpec(table[1..], note);
      forall i | IsFirstMatch(table, note, i)
        ensures FirstMatch(table, note) == table[i].0
      {
        if i > 0 {
          assert !Triggers(table[0].1, note);
          assert IsFirstMatch(table[1..], note, i - 1);
        }
      }
      if forall i :: 0 <= i < |table| ==> !Triggers(table[i].1, note) {
        assert !Triggers(table[0].1, note);
        forall i | 0 <= i < |table[1..]|
          ensures !Triggers(table[1..][i].1, note)
        {
          assert table[1..][i] == table[i + 1];
        }
      }
    }
  }

  /**
   * `auto_category(note)` is the first category in table order having a
   * trigger that occurs anywhere in the lower-cased note, and "Other" when
   * no category has one.
   */
  lemma AutoCategorySpec(table: Table, note: Option<string>)
    ensures forall i :: IsFirstMatch(table, Lower(NoteText(note)), i) ==> AutoCategory(table, note) == table[i].0
    ensures (forall i :: 0 <= i < |table| ==> !Triggers(table[i].1, Lower(NoteText(note))))
            ==> AutoCategory(table, note) == Other
  {
    FirstMatchSpec(table, Lower(NoteText(note)));
  }

  /** The result is always a category of the table or "Other". */
  lemma {:induction false} FirstMatchIsKnown(table: Table, note: string)
    ensures var r := FirstMatch(table, note);
            r == Other || exists i :: 0 <= i < |table| && r == table[i].0
  {
    if table != [] && !AnyTrigger(table[0].1, note) {
      FirstMatchIsKnown(table[1..], note);
      var r := FirstMatch(table, note);
      if r != Other {
        var i :| 0 <= i < |table[1..]| && r == table[1..][i].0;
        assert r == table[i + 1].0;
      }
    }
  }

  /** An empty trigger occurs in every note: its category, or an earlier one, is chosen. */
  lemma {:induction false} EmptyTriggerMatches(table: Table, note: string, i: nat)
    requires i < |table| && "" in table[i].1
    ensures exists j :: 0 <= j <= i && FirstMatch(table, note) == table[j].0
  {
    var k :| 0 <= k < |table[i].1| && table[i].1[k] == "";
    assert OccursAt("", note, 0);
    ContainsIsSubstring(note, "");
    AnyTriggerIsTriggers(table[i].1, note);
    if !AnyTrigger(table[0].1, note) {
      assert i > 0;
      assert table[1..][i - 1] == table[i];
      EmptyTriggerMatches(table[1..], note, i - 1);
      var j :| 0 <= j <= i - 1 && FirstMatch(table[1..], note) == table[1..][j].0;
      assert FirstMatch(table, note) == table[j + 1].0;
    } else {
      assert FirstMatch(table, note) == table[0].0;
    }
  }

  /** With no empty trigger in the table, a missing or empty note is "Other". */
  lemma EmptyNoteIsOther(table: Table)
    requires forall i :: 0 <= i < |table| ==> "" !in table[i].1
    ensures AutoCategory(table, None) == Other
    ensures AutoCategory(table, Some("")) == Other
  {
    assert Lower("") == "";
    forall i | 0 <= i < |table|
      ensures !Triggers(table[i].1, "")
    {
      forall k | 0 <= k < |table[i].1|
        ensures !IsSubstring(table[i].1[k], "")
      {
        assert table[i].1[k] != "";
      }
    }
    FirstMatchSpec(table, "");
  }

  /** Triggers are not lower-cased: one holding an upper-case letter never matches. */
  lemma UppercaseTriggerNeverMatches(w: string, note: string)
    requires exists k :: 0 <= k < |w| && 'A' <= w[k] <= 'Z'
    ensures !IsSubstring(w, Lower(note))
  {
    var k :| 0 <= k < |w| && 'A' <= w[k] <= 'Z';
    var low := Lower(note);
    forall i | 0 <= i && i + |w| <= |low|
      ensures !OccursAt(w, low, i)
    {
      assert low[i..i + |w|][k] == low[i + k];
    }
  }

  /** Matching ignores the case of ASCII letters in the note. */
  lemma CaseInsensitive(table: Table, note: string)
    ensures AutoCategory(table, Some(note)) == AutoCategory(table, Some(Lower(note)))
  {
    assert Lower(Lower(note)) == Lower(note);
  }

  /**
   * A note with triggers of two categories gets the category listed first,
   * wherever the other category's trigger stands in the note.
   */
  lemma TableOrderExample(note: string)
    requires IsSubstring("uber", Lower(note)) && IsSubstring("starbucks", Lower(note))
    ensures AutoCategory([("Food", ["latte", "starbucks"]), ("Transport", ["uber"])], Some(note)) == "Food"
  {
    var table: Table := [("Food", ["latte", "starbucks"]), ("Transport", ["uber"])];
    assert table[0].1[1] == "starbucks";
    assert IsFirstMatch(table, Lower(NoteText(Some(note))), 0);
    AutoCategorySpec(table, Some(note));
  }

  /** The form's category choices: the auto entry, then the table's categories. */
  function CategoryOptions(table: Table): seq<string> {
    [AutoLabel] + seq(|table|, i requires 0 <= i < |table| => table[i].0)
  }

  /**
   * The category stored on submit: the auto entry is resolved through the
   * categoriser, any other choice is kept as it is.
   */
  function ResolveCategory(table: Table, choice: string, note: string): (r: string)
    ensures choice != AutoLabel ==> r == choice
    ensures choice == AutoLabel ==> r == Other || exists i :: 0 <= i < |table| && r == table[i].0
  {
    if choice == AutoLabel then
      FirstMatchIsKnown(table, Lower(NoteText(Some(note))));
      AutoCategory(table, Some(note))
    else
      choice
  }

  /** Choosing from the form's list always stores a table category or "Other". */
  lemma ResolvedCategoryIsKnown(table: Table, choice: string, note: string)
    requires choice in CategoryOptions(table)
    ensures var r := ResolveCategory(table, choice, note);
            r == Other || exists i :: 0 <= i < |table| && r == table[i].0
  {
    var r := ResolveCategory(table, choice, note);
    if choice != AutoLabel {
      var k :| 0 <= k < |CategoryOptions(table)| && CategoryOptions(table)[k] == choice;
      assert k > 0 && r == table[k - 1].0;
    }
  }
}
