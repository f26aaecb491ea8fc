/** `secrets.inject`: the argument rules and the in-memory secret environment. */
module Secrets {
  import opened Wrappers
  import opened Json
  import opened Envelope
  import opened Operations
  import GoStrings

  // ---- Arguments ------------------------------------------------------------------------

  datatype InjectArgs = InjectArgs(projectId: string, values: map<string, string>)

  const MAX_INJECTED_SECRETS := 256

  const REFUSED_SECRET_KEYS: set<string> :=
    {"PATH", "LD_PRELOAD", "LD_LIBRARY_PATH", "DYLD_INSERT_LIBRARIES", "NODE_OPTIONS", "PYTHONPATH", "PYTHONSTARTUP"}

  /** A string field of a decoded object: absent and `null` leave it empty. */
  function StringField(m: map<string, Json>, name: string): Result<string, ExecError> {
    if name !in m || m[name].Null? then Ok("")
    else if m[name].Str? then Ok(m[name].s)
    else Err(ErrFailed)
  }

  /** A `map[string]string` field: a `null` value decodes to the empty string. */
  function ValuesField(m: map<string, Json>, name: string): Result<map<string, string>, ExecError> {
    if name !in m || m[name].Null? then Ok(map[])
    else if !m[name].Obj? then Err(ErrFailed)
    else
      var values := m[name].members;
      if forall k :: k in values ==> values[k].Str? || values[k].Null? then
        Ok(map k | k in values :: if values[k].Str? then values[k].s else "")
      else Err(ErrFailed)
  }

  /** A variable name that may be injected. */
  predicate NameAllowed(name: string) {
    && GoStrings.TrimSpace(name) != ""
    && GoStrings.TrimSpace(name) == name
    && '=' !in name && '\0' !in name
    && GoStrings.ToUpper(name) !in REFUSED_SECRET_KEYS
  }

  /** `decodeSecretsInjectArgs`. */
  function DecodeInject(args: RawArgs): (r: Result<InjectArgs, ExecError>)
    ensures r.Ok? ==> 0 < |r.value.values| <= MAX_INJECTED_SECRETS
    ensures r.Ok? ==> forall name :: name in r.value.values ==> NameAllowed(name)
  {
    if !args.Decoded? then Err(ErrFailed)
    else
      match args.value
      case Obj(m) =>
        var projectId :- StringField(m, "project_id");
        var values :- ValuesField(m, "values");
        if GoStrings.TrimSpace(projectId) == "" then Err(ErrFailed)
        else if |values| == 0 then Err(ErrFailed)
        else if |values| > MAX_INJECTED_SECRETS then Err(ErrFailed)
        else if !(forall name :: name in values ==> NameAllowed(name)) then Err(ErrFailed)
        else Ok(InjectArgs(projectId, values))
      case _ => Err(ErrFailed)
  }

  /** The arguments are an object that states a project id which is not blank. */
  predicate StatesProject(args: RawArgs, p: string) {
    && args.Decoded? && args.value.Obj?
    && "project_id" in args.value.members && args.value.members["project_id"] == Str(p)
    && !GoStrings.IsBlank(p)
  }

  /** They also state these values: between 1 and 256, a `null` standing for the empty string, all
      under allowed names. */
  predicate StatesInjection(args: RawArgs, p: string, values: map<string, string>) {
    && StatesProject(args, p)
    && var m := args.value.members;
    && "values" in m && m["values"].Obj? && m["values"].members.Keys == values.Keys
    && (forall k :: k in values ==>
      m["values"].members[k] == Str(values[k]) || (m["values"].members[k] == Null && values[k] == ""))
    && 1 <= |values| <= 256
    && forall name :: name in values ==> NameAllowed(name)
  }

  /** Exactly such arguments are accepted, and this is what they decode to. */
  lemma DecodeInjectIff(args: RawArgs, p: string, values: map<string, string>)
    ensures DecodeInject(args) == Ok(InjectArgs(p, values)) <==> StatesInjection(args, p, values)
  {
    GoStrings.TrimSpaceIff(p);
    GoStrings.TrimSpaceIff("");
    hide NameAllowed, GoStrings.TrimSpace, GoStrings.IsSpace;
    if args.Decoded? && args.value.Obj? && p != "" && |values| > 0 {
      var m := args.value.members;
      ProjectStated(m, p);
      ValuesStated(m, values);
      hide StringField, ValuesField;
    }
  }

  lemma DecodeInjectFails(args: RawArgs)
    ensures DecodeInject(args).Err? ==> DecodeInject(args).error == ErrFailed
  {
    hide NameAllowed, GoStrings.TrimSpace;
  }

  /** A name is allowed exactly when it is not empty, has no white space at its ends, no `=` and no
      NUL, and does not spell, letter case aside, a variable that chooses which binary runs. */
  lemma NameAllowedIff(name: string)
    ensures NameAllowed(name) <==>
      && name != "" && GoStrings.IsTrimmed(name) && '=' !in name && '\0' !in name
      && forall key | key in {"PATH", "LD_PRELOAD", "LD_LIBRARY_PATH", "DYLD_INSERT_LIBRARIES", "NODE_OPTIONS",
                              "PYTHONPATH", "PYTHONSTARTUP"} :: !GoStrings.Spells(name, key)
  {
    GoStrings.TrimSpaceIff(name);
    KeysSpelled(name);
    hide GoStrings.TrimSpace, GoStrings.ToUpper, GoStrings.Spells, GoStrings.IsTrimmed, GoStrings.IsSpace;
    if name != "" && GoStrings.TrimSpace(name) == "" {
      assert GoStrings.TrimSpace(name) != name;
    }
  }

  lemma KeysSpelled(name: string)
    ensures forall key :: key in REFUSED_SECRET_KEYS ==> (GoStrings.ToUpper(name) == key <==> GoStrings.Spells(name, key))
  {
    hide GoStrings.ToUpper, GoStrings.Spells;
    GoStrings.ToUpperIff(name, "PATH");
    GoStrings.ToUpperIff(name, "LD_PRELOAD");
    GoStrings.ToUpperIff(name, "LD_LIBRARY_PATH");
    GoStrings.ToUpperIff(name, "DYLD_INSERT_LIBRARIES");
    GoStrings.ToUpperIff(name, "NODE_OPTIONS");
    GoStrings.ToUpperIff(name, "PYTHONPATH");
    GoStrings.ToUpperIff(name, "PYTHONSTARTUP");
  }

  lemma ProjectStated(m: map<string, Json>, p: string)
    requires p != ""
    ensures StringField(m, "project_id") == Ok(p) <==> "project_id" in m && m["project_id"] == Str(p)
  {
  }

  lemma ValuesStated(m: map<string, Json>, values: map<string, string>)
    requires |values| > 0
    ensures ValuesField(m, "values") == Ok(values) <==>
      && "values" in m && m["values"].Obj? && m["values"].members.Keys == values.Keys
      && forall k :: k in values ==>
        m["values"].members[k] == Str(values[k]) || (m["values"].members[k] == Null && values[k] == "")
  {
    var r := ValuesField(m, "values");
    if r.Ok? && "values" in m && m["values"].Obj? {
      assert r.value.Keys == m["values"].members.Keys;
      assert r.value == values <==> r.value.Keys == values.Keys && forall k :: k in values ==> r.value[k] == values[k];
    }
  }

  // ---- The environment ------------------------------------------------------------------

  type Store = map<string, map<string, string>>

  /** The values held for a project; none when the project has no entry. */
  function Held(s: Store, projectId: string): map<string, string> {
    if projectId in s then s[projectId] else map[]
  }

  function Put(s: Store, projectId: string, values: map<string, string>): Store {
    s[projectId := Held(s, projectId) + values]
  }

  class SecretEnvironment {
    var byProject: Store

    constructor ()
      ensures byProject == map[]
    {
      byProject := map[];
    }

    /** Stores the values one by one, in whatever order the map yields them, and returns the names
        that already had one. */
    method PutValues(projectId: string, values: map<string, string>) returns (replaced: seq<string>)
      modifies this
      ensures byProject == Put(old(byProject), projectId, values)
      ensures multiset(replaced) == multiset(Held(old(byProject), projectId).Keys * values.Keys)
    {
      var existing := if projectId in byProject then byProject[projectId] else map[];
      existing, replaced := Overwrite(existing, values);
      byProject := byProject[projectId := existing];
    }

    /** A copy of the values held for a project, or nothing when it has no entry. */
    method Env(projectId: string) returns (r: Option<map<string, string>>)
      ensures r == if projectId in byProject then Some(byProject[projectId]) else None
    {
      if projectId !in byProject {
        return None;
      }
      r := Some(byProject[projectId]);
    }

    /** The names held for a project. */
    method Keys(projectId: string) returns (names: seq<string>)
      ensures multiset(names) == multiset(Held(byProject, projectId).Keys)
    {
      var stored := if projectId in byProject then byProject[projectId] else map[];
      names := [];
      var todo := stored.Keys;
      while todo != {}
        invariant todo <= stored.Keys && multiset(names) + multiset(todo) == multiset(stored.Keys)
        decreases |todo|
      {
        var key :| key in todo;
        assert multiset(todo) == multiset(todo - {key}) + multiset{key};
        names, todo := names + [key], todo - {key};
      }
    }

    method Forget(projectId: string)
      modifies this
      ensures byProject == old(byProject) - {projectId}
    {
      byProject := byProject - {projectId};
    }
  }

  /** `before` after the values named in `taken` have been written over it. */
  ghost function Merged(before: map<string, string>, values: map<string, string>, taken: set<string>): map<string, string> {
    before + map k | k in taken && k in values :: values[k]
  }

  lemma NothingMerged(before: map<string, string>, values: map<string, string>)
    ensures Merged(before, values, {}) == before
    ensures Lists([], before.Keys * {})
  {
  }

  lemma AllMerged(before: map<string, string>, values: map<string, string>)
    ensures Merged(before, values, values.Keys) == before + values
  {
  }

  lemma MergeOne(before: map<string, string>, values: map<string, string>, taken: set<string>, key: string)
    requires key in values && key !in taken
    ensures Merged(before, values, taken + {key}) == Merged(before, values, taken)[key := values[key]]
    ensures key in Merged(before, values, taken) <==> key in before
  {
  }

  /** `list` holds each key of `s` once. */
  ghost predicate Lists(list: seq<string>, s: set<string>) {
    && (forall i, j :: 0 <= i < j < |list| ==> list[i] != list[j])
    && (forall k :: k in list <==> k in s)
  }

  lemma ListsPush(list: seq<string>, s: set<string>, key: string)
    requires Lists(list, s) && key !in s
    ensures Lists(list + [key], s + {key})
  {
    assert forall i :: 0 <= i < |list| ==> list[i] in s;
  }

  lemma {:induction false} ListsAsMultiset(list: seq<string>, s: set<string>)
    requires Lists(list, s)
    ensures multiset(list) == multiset(s)
  {
    if list == [] {
      assert s == {};
    } else {
      var n := |list| - 1;
      var init, last := list[..n], list[n];
      assert list == init + [last];
      assert Lists(init, s - {last});
      ListsAsMultiset(init, s - {last});
      assert s == (s - {last}) + {last};
    }
  }

  lemma TakeOne(before: set<string>, taken: set<string>, key: string)
    ensures before * (taken + {key}) == if key in before then before * taken + {key} else before * taken
  {
  }

  /** The loop of `put`: the values go in one by one, in whatever order the map yields them. */
  method Overwrite(before: map<string, string>, values: map<string, string>)
    returns (existing: map<string, string>, replaced: seq<string>)
    ensures existing == before + values
    ensures multiset(replaced) == multiset(before.Keys * values.Keys)
  {
    hide Merged, Lists;
    existing, replaced := before, [];
    var todo := values.Keys;
    ghost var taken: set<string> := {};
    NothingMerged(before, values);
    while todo != {}
      invariant taken !! todo && taken + todo == values.Keys
      invariant existing == Merged(before, values, taken)
      invariant Lists(replaced, before.Keys * taken)
      decreases |todo|
    {
      var key :| key in todo;
      MergeOne(before, values, taken, key);
      TakeOne(before.Keys, taken, key);
      if key in existing {
        ListsPush(replaced, before.Keys * taken, key);
        replaced := replaced + [key];
      }
      existing := existing[key := values[key]];
      todo, taken := todo - {key}, taken + {key};
    }
    assert taken == values.Keys;
    AllMerged(before, values);
    ListsAsMultiset(replaced, before.Keys * taken);
  }
}
