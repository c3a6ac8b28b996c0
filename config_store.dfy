/** The configuration record (`config.json`) and the interactive editor over it
    (`load_config`, `update_config`, `edit_config_file`). The file itself is the value
    `stored`: `None` when no file exists, otherwise the decoded record. */
module ConfigStore {
  import opened Wrappers
  import opened PyText

  /** A field value: JSON `null` (Python `None`) or a string. */
  type Value = Option<string>

  /** The decoded record: a flat mapping from key to value. */
  type Entries = map<string, Value>

  const CompanyName: string := "company_name"
  const CompanyUrl: string := "company_url"
  const AuthorName: string := "author_name"
  const AuthorUrl: string := "author_url"
  const GithubUrl: string := "github_url"

  /** The order in which the editor walks the fields. */
  const FieldOrder: seq<string> := [CompanyName, CompanyUrl, AuthorName, AuthorUrl, GithubUrl]

  /** Python truthiness of a field value: neither `None` nor the empty string. */
  predicate Truthy(v: Value) {
    v.Some? && v.value != ""
  }

  /** Every one of the five fields is present (the editor indexes them directly). */
  predicate HasFields(m: Entries) {
    forall i :: 0 <= i < |FieldOrder| ==> FieldOrder[i] in m
  }

  /** `config.get(key, default)`. */
  function Lookup(m: Entries, key: string, default: Value): Value {
    if key in m then m[key] else default
  }

  /** The record `load_config` returns when there is no file: the five fields, all `None`. */
  function DefaultEntries(): (m: Entries)
    ensures HasFields(m)
    ensures forall key :: key in m ==> key in FieldOrder && m[key] == None
  {
    map[CompanyName := None, CompanyUrl := None, AuthorName := None,
        AuthorUrl := None, GithubUrl := None]
  }

  /** `load_config`: the stored record, or the default record when no file exists. */
  function LoadConfig(stored: Option<Entries>): Entries {
    stored.GetOr(DefaultEntries())
  }

  /** One editor step: a blank answer keeps the field, any other answer replaces it verbatim. */
  function EditField(m: Entries, key: string, answer: string): Entries {
    if AllSpace(answer) then m else m[key := Some(answer)]
  }

  /** The record after the editor has taken `answers` for the first `|answers|` fields. */
  function Edited(m: Entries, answers: seq<string>): Entries
    requires |answers| <= |FieldOrder|
  {
    if answers == [] then m
    else
      var n := |answers| - 1;
      EditField(Edited(m, answers[..n]), FieldOrder[n], answers[n])
  }

  /** One more field asked: its answer is applied to the record so far. */
  lemma {:induction false} EditedSnoc(m: Entries, answers: seq<string>, n: nat)
    requires n < |answers| && n < |FieldOrder|
    ensures Edited(m, answers[..n + 1]) == EditField(Edited(m, answers[..n]), FieldOrder[n], answers[n])
  {
    assert answers[..n + 1][..n] == answers[..n];
  }

  /** The editor's effect field by field: the keys stay the same; a field that was
      asked keeps its value (even `None`) on a blank answer and otherwise holds the
      answer exactly as typed; every other key is untouched. */
  lemma {:induction false} EditedValues(m: Entries, answers: seq<string>)
    requires HasFields(m) && |answers| <= |FieldOrder|
    ensures Edited(m, answers).Keys == m.Keys
    ensures forall i :: 0 <= i < |answers| ==>
      Edited(m, answers)[FieldOrder[i]] == if AllSpace(answers[i]) then m[FieldOrder[i]] else Some(answers[i])
    ensures forall key :: key in m && key !in FieldOrder[..|answers|] ==> Edited(m, answers)[key] == m[key]
  {
    EditedKeys(m, answers);
    EditedAsked(m, answers);
    EditedOthers(m, answers);
  }

  /** Editing never adds or removes a key. */
  lemma {:induction false} EditedKeys(m: Entries, answers: seq<string>)
    requires HasFields(m) && |answers| <= |FieldOrder|
    ensures Edited(m, answers).Keys == m.Keys
  {
    if answers != [] {
      EditedKeys(m, answers[..|answers| - 1]);
    }
  }

  /** A field that was asked keeps its value on a blank answer and otherwise holds the answer. */
  lemma {:induction false} EditedAsked(m: Entries, answers: seq<string>)
    requires HasFields(m) && |answers| <= |FieldOrder|
    ensures forall i :: 0 <= i < |answers| ==>
      && FieldOrder[i] in Edited(m, answers)
      && Edited(m, answers)[FieldOrder[i]] == if AllSpace(answers[i]) then m[FieldOrder[i]] else Some(answers[i])
  {
    if answers != [] {
      var n := |answers| - 1;
      var prev := Edited(m, answers[..n]);
      EditedAsked(m, answers[..n]);
      EditedKeys(m, answers[..n]);
      var r := EditField(prev, FieldOrder[n], answers[n]);
      assert Edited(m, answers) == r;
      FieldOrderDistinct();
      assert FieldOrder[n] !in FieldOrder[..n];
      EditedOthers(m, answers[..n]);
      forall i | 0 <= i < |answers|
        ensures FieldOrder[i] in r
        ensures r[FieldOrder[i]] == if AllSpace(answers[i]) then m[FieldOrder[i]] else Some(answers[i])
      {
        if i < n {
          assert FieldOrder[i] != FieldOrder[n];
          assert answers[..n][i] == answers[i];
        }
      }
    }
  }

  /** A key that was not asked keeps its value. */
  lemma {:induction false} EditedOthers(m: Entries, answers: seq<string>)
    requires HasFields(m) && |answers| <= |FieldOrder|
    ensures forall key :: key in m && key !in FieldOrder[..|answers|] ==>
      key in Edited(m, answers) && Edited(m, answers)[key] == m[key]
  {
    if answers != [] {
      var n := |answers| - 1;
      EditedOthers(m, answers[..n]);
      assert FieldOrder[..|answers|] == FieldOrder[..n] + [FieldOrder[n]];
    }
  }

  /** The five field names are different from each other. */
  lemma {:induction false} FieldOrderDistinct()
    ensures forall i, j :: 0 <= i < j < |FieldOrder| ==> FieldOrder[i] != FieldOrder[j]
  {
  }

  /** Blank answers everywhere leave the record exactly as it was. */
  lemma {:induction false} EditedAllBlank(m: Entries, answers: seq<string>)
    requires HasFields(m) && |answers| <= |FieldOrder|
    requires forall i :: 0 <= i < |answers| ==> AllSpace(answers[i])
    ensures Edited(m, answers) == m
  {
    EditedValues(m, answers);
    var r := Edited(m, answers);
    forall key | key in m ensures r[key] == m[key] {
      if key in FieldOrder[..|answers|] {
        var i :| 0 <= i < |answers| && FieldOrder[i] == key;
      }
    }
  }

  /** Giving the editor the same answers a second time changes nothing more. */
  lemma {:induction false} EditedIdempotent(m: Entries, answers: seq<string>)
    requires HasFields(m) && |answers| <= |FieldOrder|
    ensures Edited(Edited(m, answers), answers) == Edited(m, answers)
  {
    var once := Edited(m, answers);
    EditedValues(m, answers);
    assert HasFields(once);
    EditedValues(once, answers);
    var twice := Edited(once, answers);
    forall key | key in once ensures twice[key] == once[key] {
      if key in FieldOrder[..|answers|] {
        var i :| 0 <= i < |answers| && FieldOrder[i] == key;
      }
    }
  }

  /** The in-memory configuration dictionary, edited in place. */
  class Config {
    var entries: Entries

    /** `load_config`. */
    constructor Load(stored: Option<Entries>)
      ensures entries == LoadConfig(stored)
    {
      entries := LoadConfig(stored);
    }

    /** `update_config`: ask for each field in FieldOrder and apply the answer in place.
        `answered` counts the answers read; fewer than five means the input ran out. */
    method Update(answers: seq<string>) returns (answered: nat)
      requires HasFields(entries)
      modifies this
      ensures answered == if |answers| < |FieldOrder| then |answers| else |FieldOrder|
      ensures entries == Edited(old(entries), answers[..answered])
    {
      answered := 0;
      while answered < |FieldOrder| && answered < |answers|
        invariant answered <= |FieldOrder| && answered <= |answers|
        invariant entries == Edited(old(entries), answers[..answered])
      {
        var key := FieldOrder[answered];
        var answer := answers[answered];
        EditedSnoc(old(entries), answers, answered);
        if Strip(answer) != "" {
          entries := entries[key := Some(answer)];
        }
        answered := answered + 1;
      }
    }
  }

  /** What `edit_config_file` leaves behind. */
  datatype EditOutcome =
    | Saved(entries: Entries)   // the answer to "Save changes?" was y: this record is written
    | Discarded                 // any other answer: the file is left as it was
    | InputExhausted            // the input ended before the question was answered

  /** `edit_config_file`: load, walk the five fields, then save only on a `y`/`Y` answer. */
  method EditConfigFile(stored: Option<Entries>, responses: seq<string>) returns (outcome: EditOutcome)
    requires stored.Some? ==> HasFields(stored.value)
    ensures |responses| <= |FieldOrder| ==> outcome == InputExhausted
    ensures |responses| > |FieldOrder| && IsYes(responses[|FieldOrder|]) ==>
      outcome == Saved(Edited(LoadConfig(stored), responses[..|FieldOrder|]))
    ensures |responses| > |FieldOrder| && !IsYes(responses[|FieldOrder|]) ==> outcome == Discarded
  {
    var config := new Config.Load(stored);
    var answered := config.Update(responses);
    if answered == |responses| {
      return InputExhausted;
    }
    var saveChoice := responses[answered];
    if IsYes(saveChoice) {
      outcome := Saved(config.entries);
    } else {
      outcome := Discarded;
    }
  }
}
