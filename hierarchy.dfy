/** Backend.datasources: the hierarchy levels a backend searches, most
    specific first. Each level template is interpolated with the scope alone
    (no extra_data); a level that comes out empty is skipped; when nothing is
    left the search falls back to the single level "common". */
module Hierarchy {
  import opened Values
  import opened Interpolation
  import InterpolationFacts

  const CommonLevel: string := "common"

  /** The templates to interpolate: the override, when given, ahead of the
      hierarchy the caller passed, else the configured :hierarchy (when set
      and not empty), else ["common"]. */
  function Templates(override: Option<string>, hierarchy: Option<seq<string>>, configured: Option<seq<string>>): (ts: seq<string>)
    ensures var lead := if override.Some? then [override.value] else [];
      && (hierarchy.Some? ==> ts == lead + hierarchy.value)
      && (hierarchy.None? && configured.Some? && configured.value != [] ==> ts == lead + configured.value)
      && (hierarchy.None? && (configured.None? || configured.value == []) ==> ts == lead + [CommonLevel])
  {
    var base :=
      if hierarchy.Some? then hierarchy.value
      else if configured.Some? && configured.value != [] then configured.value
      else [CommonLevel];
    (if override.Some? then [override.value] else []) + base
  }

  /** One level template interpolated with the scope alone. */
  function LevelName(t: string, scope: Scope): (r: Result<string>)
    ensures r.Failure? ==> r.error.InterpolationLoop? && IsLoop(r.error.keys, scope, map[])
  {
    match ParseString(Str(t), scope, map[])
    case Success(d) => Success(d.s)
    case Failure(e) => Failure(e)
  }

  /** Puts names ahead of a result that has not failed. */
  function Prepend(names: seq<string>, r: Result<seq<string>>): Result<seq<string>> {
    match r
    case Success(rest) => Success(names + rest)
    case Failure(e) => Failure(e)
  }

  lemma PrependAssoc(xs: seq<string>, ys: seq<string>, r: Result<seq<string>>)
    ensures Prepend(xs, Prepend(ys, r)) == Prepend(xs + ys, r)
    ensures Prepend([], r) == r
  {
    if r.Success? {
      assert xs + (ys + r.value) == xs + ys + r.value;
      assert [] + r.value == r.value;
    }
  }

  /** The interpolated templates, in order, without the empty ones. */
  function NonEmptyLevels(ts: seq<string>, scope: Scope): (r: Result<seq<string>>)
    ensures r.Success? ==> "" !in r.value && |r.value| <= |ts|
    ensures r.Success? ==> forall i :: 0 <= i < |ts| ==>
      LevelName(ts[i], scope).Success? && (LevelName(ts[i], scope).value != "" ==> LevelName(ts[i], scope).value in r.value)
    ensures r.Failure? ==> r.error.InterpolationLoop? && IsLoop(r.error.keys, scope, map[])
  {
    if ts == [] then Success([])
    else
      match LevelName(ts[0], scope)
      case Failure(e) => Failure(e)
      case Success(name) =>
        assert forall i :: 1 <= i < |ts| ==> ts[i] == ts[1..][i - 1];
        Prepend(Kept(name), NonEmptyLevels(ts[1..], scope))
  }

  /** A level name is kept unless it is empty. */
  function Kept(name: string): seq<string> {
    if name == "" then [] else [name]
  }

  /** The levels datasources yields, in order. */
  function Levels(override: Option<string>, hierarchy: Option<seq<string>>, configured: Option<seq<string>>, scope: Scope): (r: Result<seq<string>>)
    ensures r.Success? ==> |r.value| > 0 && "" !in r.value
    ensures NonEmptyLevels(Templates(override, hierarchy, configured), scope) == Success([]) ==> r == Success([CommonLevel])
    ensures var ts := Templates(override, hierarchy, configured);
      r.Success? ==> forall i :: 0 <= i < |ts| ==>
        LevelName(ts[i], scope).Success? && (LevelName(ts[i], scope).value != "" ==> LevelName(ts[i], scope).value in r.value)
    ensures r.Failure? ==> r.error.InterpolationLoop? && IsLoop(r.error.keys, scope, map[])
  {
    match NonEmptyLevels(Templates(override, hierarchy, configured), scope)
    case Success(names) => Success(if names == [] then [CommonLevel] else names)
    case Failure(e) => Failure(e)
  }

  /** Backend.datasources: yields each level in turn; here the levels are
      collected in the order they would be yielded. */
  method Datasources(override: Option<string>, hierarchy: Option<seq<string>>, configured: Option<seq<string>>, scope: Scope)
    returns (r: Result<seq<string>>)
    ensures r == Levels(override, hierarchy, configured, scope)
  {
    var ts := Templates(override, hierarchy, configured);
    r := CollectLevels(ts, scope);
    LevelsOf(override, hierarchy, configured, scope);
    if r.Success? && r.value == [] {
      r := Success([CommonLevel]);
    }
  }

  /** Interpolates the templates one by one, keeping each non-empty name. */
  method CollectLevels(ts: seq<string>, scope: Scope) returns (r: Result<seq<string>>)
    ensures r == NonEmptyLevels(ts, scope)
  {
    var names: seq<string> := [];
    var i := 0;
    assert ts[i..] == ts;
    PrependAssoc([], [], NonEmptyLevels(ts, scope));
    while i < |ts|
      invariant 0 <= i <= |ts|
      invariant NonEmptyLevels(ts, scope) == Prepend(names, NonEmptyLevels(ts[i..], scope))
    {
      var name := LevelName(ts[i], scope);
      CollectStep(ts, i, names, scope);
      if name.Failure? {
        return Failure(name.error);
      }
      names := names + Kept(name.value);
      i := i + 1;
    }
    EndLevels(ts[i..], names, scope);
    return Success(names);
  }

  /** One template further: a failure ends the levels, a name is kept unless empty. */
  lemma CollectStep(ts: seq<string>, i: nat, names: seq<string>, scope: Scope)
    requires i < |ts| && NonEmptyLevels(ts, scope) == Prepend(names, NonEmptyLevels(ts[i..], scope))
    ensures var name := LevelName(ts[i], scope);
      && (name.Failure? ==> NonEmptyLevels(ts, scope) == Failure(name.error))
      && (name.Success? ==>
            NonEmptyLevels(ts, scope) ==
            Prepend(names + Kept(name.value), NonEmptyLevels(ts[i + 1..], scope)))
  {
    StepLevels(ts[i..], scope);
    assert ts[i..][0] == ts[i] && ts[i..][1..] == ts[i + 1..];
    var name := LevelName(ts[i], scope);
    if name.Success? {
      PrependAssoc(names, Kept(name.value), NonEmptyLevels(ts[i + 1..], scope));
    }
  }

  lemma LevelsOf(override: Option<string>, hierarchy: Option<seq<string>>, configured: Option<seq<string>>, scope: Scope)
    ensures Levels(override, hierarchy, configured, scope) ==
      match NonEmptyLevels(Templates(override, hierarchy, configured), scope)
      case Success(names) => Success(if names == [] then [CommonLevel] else names)
      case Failure(e) => Failure(e)
  {
  }

  lemma StepLevels(ts: seq<string>, scope: Scope)
    requires ts != []
    ensures NonEmptyLevels(ts, scope) ==
      match LevelName(ts[0], scope)
      case Failure(e) => Failure(e)
      case Success(name) => Prepend(Kept(name), NonEmptyLevels(ts[1..], scope))
  {
  }

  lemma EndLevels(ts: seq<string>, names: seq<string>, scope: Scope)
    requires ts == []
    ensures Prepend(names, NonEmptyLevels(ts, scope)) == Success(names)
  {
    assert names + [] == names;
  }

  // ---------------------------------------------------------------------------
  // Properties

  /** A template without tokens names its level as written. */
  lemma PlainLevelName(t: string, scope: Scope)
    requires NoTokens(t)
    ensures LevelName(t, scope) == Success(t)
  {
    InterpolationFacts.ParseStringPlain(t, scope, map[]);
  }

  /** Templates that hold no token and are not empty are searched exactly as
      listed, in the same order. */
  lemma {:induction false} PlainTemplatesKept(ts: seq<string>, scope: Scope)
    requires forall i :: 0 <= i < |ts| ==> NoTokens(ts[i]) && ts[i] != ""
    ensures NonEmptyLevels(ts, scope) == Success(ts)
  {
    if ts != [] {
      PlainLevelName(ts[0], scope);
      PlainTemplatesKept(ts[1..], scope);
      assert [ts[0]] + ts[1..] == ts;
    }
  }

  /** A template that interpolates to "" is skipped, whatever follows. */
  lemma EmptyLevelSkipped(t: string, ts: seq<string>, scope: Scope)
    requires LevelName(t, scope) == Success("")
    ensures NonEmptyLevels([t] + ts, scope) == NonEmptyLevels(ts, scope)
  {
    assert ([t] + ts)[1..] == ts;
    var r := NonEmptyLevels(ts, scope);
    if r.Success? { assert [] + r.value == r.value; }
  }

  /** With plain, non-empty templates the levels are the override, then the
      given (or configured, or default) hierarchy. */
  lemma PlainLevels(override: Option<string>, hierarchy: Option<seq<string>>, configured: Option<seq<string>>, scope: Scope)
    requires var ts := Templates(override, hierarchy, configured);
      forall i :: 0 <= i < |ts| ==> NoTokens(ts[i]) && ts[i] != ""
    ensures var ts := Templates(override, hierarchy, configured);
      ts != [] ==> Levels(override, hierarchy, configured, scope) == Success(ts)
  {
    PlainTemplatesKept(Templates(override, hierarchy, configured), scope);
  }

  /** A plain override is always the first level searched. */
  lemma OverrideFirst(o: string, hierarchy: Option<seq<string>>, configured: Option<seq<string>>, scope: Scope)
    requires NoTokens(o) && o != ""
    ensures var r := Levels(Some(o), hierarchy, configured, scope);
      r.Success? ==> r.value[0] == o
  {
    var ts := Templates(Some(o), hierarchy, configured);
    PlainLevelName(o, scope);
    assert ts == [o] + ts[1..];
  }

  /** The levels of two lists of templates are the levels of the first, then
      those of the second; a loop in the first fails both. */
  lemma {:induction false} NonEmptyLevelsAppend(ts1: seq<string>, ts2: seq<string>, scope: Scope)
    ensures NonEmptyLevels(ts1 + ts2, scope) ==
      match NonEmptyLevels(ts1, scope)
      case Success(names) => Prepend(names, NonEmptyLevels(ts2, scope))
      case Failure(e) => Failure(e)
    decreases |ts1|
  {
    if ts1 == [] {
      assert ts1 + ts2 == ts2;
      PrependAssoc([], [], NonEmptyLevels(ts2, scope));
    } else {
      var ts := ts1 + ts2;
      assert ts[0] == ts1[0] && ts[1..] == ts1[1..] + ts2;
      StepLevels(ts, scope);
      StepLevels(ts1, scope);
      NonEmptyLevelsAppend(ts1[1..], ts2, scope);
      var name := LevelName(ts1[0], scope);
      var rest := NonEmptyLevels(ts1[1..], scope);
      if name.Success? && rest.Success? {
        PrependAssoc(Kept(name.value), rest.value, NonEmptyLevels(ts2, scope));
      }
    }
  }

  /** A template that interpolates to a non-empty name n is searched as n,
      ahead of the levels that follow it. */
  lemma LevelKept(t: string, ts: seq<string>, n: string, scope: Scope)
    requires LevelName(t, scope) == Success(n) && n != ""
    ensures NonEmptyLevels([t] + ts, scope) == Prepend([n], NonEmptyLevels(ts, scope))
  {
  }

  /** A template in the middle of the hierarchy that interpolates to a
      non-empty name n is searched as n, after the non-empty names of the
      templates ahead of it. */
  lemma SearchedInPlace(override: Option<string>, hierarchy: Option<seq<string>>, configured: Option<seq<string>>, scope: Scope,
                        before: seq<string>, t: string, after: seq<string>, n: string)
    requires Templates(override, hierarchy, configured) == before + [t] + after
    requires LevelName(t, scope) == Success(n) && n != ""
    requires NonEmptyLevels(before, scope).Success? && NonEmptyLevels(after, scope).Success?
    ensures var r := Levels(override, hierarchy, configured, scope);
      var ahead := NonEmptyLevels(before, scope).value;
      r.Success? && |r.value| > |ahead| && r.value[..|ahead|] == ahead && r.value[|ahead|] == n
  {
    var ahead := NonEmptyLevels(before, scope).value;
    var rest := NonEmptyLevels(after, scope).value;
    ConcatAssoc(before, [t], after);
    NonEmptyLevelsAppend(before, [t] + after, scope);
    LevelKept(t, after, n, scope);
    LevelsOf(override, hierarchy, configured, scope);
    var names := ahead + ([n] + rest);
    assert names[..|ahead|] == ahead && names[|ahead|] == n;
  }

  /** When every template interpolates to "", no name is left, so `Levels`
      falls back to "common" alone. */
  lemma {:induction false} AllEmptyFallsBack(ts: seq<string>, scope: Scope)
    requires forall i :: 0 <= i < |ts| ==> LevelName(ts[i], scope) == Success("")
    ensures NonEmptyLevels(ts, scope) == Success([])
  {
    if ts != [] {
      AllEmptyFallsBack(ts[1..], scope);
      EmptyLevelSkipped(ts[0], ts[1..], scope);
      assert [ts[0]] + ts[1..] == ts;
    }
  }
}
