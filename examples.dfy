/** The behaviour Hiera's backend unit examples pin down, as lemmas about
    concrete inputs. */
module BackendExamples {
  import opened Values
  import opened Interpolation
  import opened InterpolationFacts
  import opened Answers
  import opened Hierarchy
  import opened Lookup

  lemma PlainText(s: string)
    requires '%' !in s
    ensures NoTokens(s)
  {
    TokenizePlain(s);
  }

  // ---------------------------------------------------------------------------
  // parse_string

  /** "test_%{rspec}_test" with the value only in extra_data. */
  lemma FromExtraData()
    ensures ParseString(Str("test_" + "%{" + "rspec" + "}" + "_test"), map[], map["rspec" := Str("extra")]) == Success(Str("test_" + "extra" + "_test"))
  {
    PlainText("extra");
    ExtraDataFillsIn("test_", "rspec", "_test", "extra", map[], map["rspec" := Str("extra")]);
  }

  /** The scope's value is preferred to extra_data's. */
  lemma ScopeBeforeExtraData()
    ensures ParseString(Str("test_" + "%{" + "rspec" + "}" + "_test"), map["rspec" := Str("test")], map["rspec" := Str("fail")]) ==
      Success(Str("test_" + "test" + "_test"))
  {
    PlainText("test");
    ScopeValueWins("test_", "rspec", "_test", "test", map["rspec" := Str("test")], map["rspec" := Str("fail")]);
  }

  /** nil and :undefined in the scope are no value; false is one. */
  lemma NilUndefinedFalse()
    ensures ParseString(Str("test_" + "%{" + "rspec" + "}" + "_test"), map["rspec" := Nil], map[]) == Success(Str("test_" + "_test"))
    ensures ParseString(Str("test_" + "%{" + "rspec" + "}" + "_test"), map["rspec" := Undefined], map[]) == Success(Str("test_" + "_test"))
    ensures ParseString(Str("test_" + "%{" + "rspec" + "}" + "_test"), map[], map["rspec" := Nil]) == Success(Str("test_" + "_test"))
    ensures ParseString(Str("test_" + "%{" + "rspec" + "}" + "_test"), map["rspec" := Bool(false)], map[]) == Success(Str("test_" + "false" + "_test"))
    ensures ParseString(Str("test_" + "%{" + "rspec" + "}" + "_test"), map[], map["rspec" := Bool(false)]) == Success(Str("test_" + "false" + "_test"))
    ensures ParseString(Str("test_" + "%{" + "rspec" + "}" + "_test"), map["rspec" := Undefined], map["rspec" := Str("extra")]) ==
      Success(Str("test_" + "extra" + "_test"))
  {
    MissingKeyIsEmpty("test_", "rspec", "_test", map["rspec" := Nil], map[]);
    MissingKeyIsEmpty("test_", "rspec", "_test", map["rspec" := Undefined], map[]);
    MissingKeyIsEmpty("test_", "rspec", "_test", map[], map["rspec" := Nil]);
    FalseIsAValue("test_", "rspec", "_test", map["rspec" := Bool(false)], map[]);
    FalseIsAValue("test_", "rspec", "_test", map[], map["rspec" := Bool(false)]);
    PlainText("extra");
    ExtraDataFillsIn("test_", "rspec", "_test", "extra", map["rspec" := Undefined], map["rspec" := Str("extra")]);
  }

  /** Both tokens of "replace %{part1} and %{part2}" are replaced. */
  lemma TwoTokens()
    ensures ParseString(Str("replace " + "%{" + "part1" + "}" + " and " + "%{" + "part2" + "}" + ""),
                        map["part1" := Str("value of part1"), "part2" := Str("value of part2")], map[]) ==
      Success(Str("replace " + "value of part1" + " and " + "value of part2"))
  {
    var scope: Scope := map["part1" := Str("value of part1"), "part2" := Str("value of part2")];
    var s := "replace " + "%{" + "part1" + "}" + " and " + "%{" + "part2" + "}" + "";
    PartsSplit();
    PartsPlain(scope);
    SinglePassSuffices(s, scope, map[]);
    PartsReplaced(scope);
  }

  lemma PartsSplit()
    ensures Tokenize("replace " + "%{" + "part1" + "}" + " and " + "%{" + "part2" + "}" + "") ==
      [Lit("replace "), Var("part1"), Lit(" and "), Var("part2")]
  {
    TokenizeTwoTokens("replace ", "part1", " and ", "part2", "");
  }

  lemma PartsReplaced(scope: Scope)
    requires scope == map["part1" := Str("value of part1"), "part2" := Str("value of part2")]
    ensures SinglePass([Lit("replace "), Var("part1"), Lit(" and "), Var("part2")], scope, map[]) ==
      "replace " + "value of part1" + " and " + "value of part2"
  {
    var segs := [Lit("replace "), Var("part1"), Lit(" and "), Var("part2")];
    assert segs[1..] == [Var("part1"), Lit(" and "), Var("part2")];
    assert segs[1..][1..] == [Lit(" and "), Var("part2")];
    assert segs[1..][1..][1..] == [Var("part2")];
    assert TokenText("part1", scope, map[]) == "value of part1";
    assert TokenText("part2", scope, map[]) == "value of part2";
    assert [Var("part2")][1..] == [] && [Var("part2")][0] == Var("part2");
    assert SinglePass([], scope, map[]) == "";
    var last := SinglePass([Var("part2")], scope, map[]);
    assert last == "value of part2" + "";
    var mid := SinglePass(segs[1..][1..], scope, map[]);
    assert mid == " and " + last;
    var tail := SinglePass(segs[1..], scope, map[]);
    assert tail == "value of part1" + mid;
    assert SinglePass(segs, scope, map[]) == "replace " + tail;
  }

  lemma PartsPlain(scope: Scope)
    requires scope == map["part1" := Str("value of part1"), "part2" := Str("value of part2")]
    ensures NoNestedTokens(scope, map[])
  {
    PlainText("value of part1");
    PlainText("value of part2");
    forall k | StrValue(k, scope, map[]).Some? ensures NoTokens(StrValue(k, scope, map[]).value) {
      assert k == "part1" || k == "part2";
    }
  }

  /** Keys are used exactly as written: a leading "::" and surrounding
      whitespace are part of the key, and no shorter key is tried. */
  lemma ExactKeys()
    ensures ParseString(Str("test_" + "%{" + "::rspec::data" + "}" + "_test"), map["::rspec::data" := Str("value")], map[]) ==
      Success(Str("test_" + "value" + "_test"))
    ensures ParseString(Str("test_" + "%{" + "\trspec::data " + "}" + "_test"), map["\trspec::data " := Str("value")], map[]) ==
      Success(Str("test_" + "value" + "_test"))
    ensures ParseString(Str("test_" + "%{" + "::rspec::data" + "}" + "_test"), map["rspec::data" := Str("value")], map[]) ==
      Success(Str("test_" + "_test"))
    ensures ParseString(Str("test_" + "%{" + "::rspec::data" + "}" + "_test"), map["data" := Str("value")], map[]) ==
      Success(Str("test_" + "_test"))
  {
    PlainText("value");
    ScopeValueWins("test_", "::rspec::data", "_test", "value", map["::rspec::data" := Str("value")], map[]);
    ScopeValueWins("test_", "\trspec::data ", "_test", "value", map["\trspec::data " := Str("value")], map[]);
    MissingKeyIsEmpty("test_", "::rspec::data", "_test", map["rspec::data" := Str("value")], map[]);
    MissingKeyIsEmpty("test_", "::rspec::data", "_test", map["data" := Str("value")], map[]);
  }

  /** a -> %{b} -> %{c} -> t: the chain resolves to t. */
  lemma ThreeKeyChain(a: string, b: string, c: string, t: string, scope: Scope, extra: Scope)
    requires a != b && b != c && a != c && '}' !in b && '}' !in c && NoTokens(t)
    requires StrValue(a, scope, extra) == Some("%{" + b + "}")
    requires StrValue(b, scope, extra) == Some("%{" + c + "}")
    requires StrValue(c, scope, extra) == Some(t)
    ensures Resolve(a, [], scope, extra) == Success(t)
  {
    ResolveAlias(a, b, [], scope, extra);
    assert [] + [a] == [a];
    ChainFromSecond(a, b, c, t, scope, extra);
  }

  lemma ChainFromSecond(a: string, b: string, c: string, t: string, scope: Scope, extra: Scope)
    requires a != b && b != c && a != c && '}' !in c && NoTokens(t)
    requires NoDup([a]) && IsChain([a], scope, extra)
    requires StrValue(a, scope, extra) == Some("%{" + b + "}") && Mentions("%{" + b + "}", b)
    requires StrValue(b, scope, extra) == Some("%{" + c + "}")
    requires StrValue(c, scope, extra) == Some(t)
    ensures Resolve(b, [a], scope, extra) == Success(t)
  {
    ResolveAlias(b, c, [a], scope, extra);
    assert [a] + [b] == [a, b];
    ResolvePlain(c, t, [a, b], scope, extra);
  }

  /** rspec -> %{first} -> %{last} -> final. */
  lemma RecursiveLookup()
    ensures var scope := map["rspec" := Str("%{" + "first" + "}"), "first" := Str("%{" + "last" + "}"), "last" := Str("final")];
      ParseString(Str("test_" + "%{" + "rspec" + "}" + "_test"), scope, map[]) == Success(Str("test_" + "final" + "_test"))
  {
    var scope := map["rspec" := Str("%{" + "first" + "}"), "first" := Str("%{" + "last" + "}"), "last" := Str("final")];
    PlainText("final");
    ThreeKeyChain("rspec", "first", "last", "final", scope, map[]);
    OneToken("test_", "rspec", "_test", scope, map[]);
  }

  /** first -> %{second} -> %{first} is a loop, reported as [first, second]. */
  lemma InfiniteLoop()
    ensures ParseString(Str("test_" + "%{" + "first" + "}" + "_test"), map["first" := Str("%{" + "second" + "}"), "second" := Str("%{" + "first" + "}")], map[]) ==
      Failure(InterpolationLoop(["first", "second"]))
  {
    TwoKeyLoop("test_", "first", "second", "_test", map["first" := Str("%{" + "second" + "}"), "second" := Str("%{" + "first" + "}")], map[]);
  }

  // ---------------------------------------------------------------------------
  // parse_answer

  /** A hash key that is a single token is replaced by the key's value. */
  lemma TokenKey(k: string, t: string, v: string, scope: Scope, extra: Scope)
    requires '}' !in k && k in scope && scope[k] == Str(t) && NoTokens(t) && NoTokens(v)
    ensures ParseAnswer(Hash([Entry(Str("%{" + k + "}"), Str(v))]), scope, extra) ==
      Success(Hash([Entry(Str(t), Str(v))]))
  {
    ScopeValueWins("", k, "", t, scope, extra);
    assert "" + "%{" + k + "}" + "" == "%{" + k + "}";
    assert "" + t + "" == t;
    ParseAnswerPlain(Str(v), scope, extra);
    ParseOneEntry(Str("%{" + k + "}"), Str(v), Str(t), Str(v), scope, extra);
  }

  /** {"%{rspec}" => "test"} with rspec = "foo" becomes {"foo" => "test"}. */
  lemma InterpolatedHashKey()
    ensures ParseAnswer(Hash([Entry(Str("%{" + "rspec" + "}"), Str("test"))]), map["rspec" := Str("foo")], map[]) ==
      Success(Hash([Entry(Str("foo"), Str("test"))]))
  {
    PlainText("foo");
    PlainText("test");
    TokenKey("rspec", "foo", "test", map["rspec" := Str("foo")], map[]);
  }

  /** A string without '%' parses to itself. */
  lemma PlainString(s: string, scope: Scope, extra: Scope)
    requires '%' !in s
    ensures ParseAnswer(Str(s), scope, extra) == Success(Str(s))
  {
    PlainText(s);
    ParseAnswerPlain(Str(s), scope, extra);
  }

  /** "test_%{rspec}_test" with rspec = "test" parses to "test_test_test". */
  lemma TestRspec()
    ensures ParseAnswer(Str("test_" + "%{" + "rspec" + "}" + "_test"), map["rspec" := Str("test")], map[]) ==
      Success(Str("test_" + "test" + "_test"))
  {
    PlainText("test");
    ScopeValueWins("test_", "rspec", "_test", "test", map["rspec" := Str("test")], map[]);
  }

  /** Each string of an array is interpolated, nested arrays included. */
  lemma ArrayElementsInterpolated()
    ensures var t, r := Str("test_" + "%{" + "rspec" + "}" + "_test"), Str("test_" + "test" + "_test");
      ParseAnswer(Arr([t, t, Arr([t])]), map["rspec" := Str("test")], map[]) == Success(Arr([r, r, Arr([r])]))
  {
    var t, r := Str("test_" + "%{" + "rspec" + "}" + "_test"), Str("test_" + "test" + "_test");
    var scope: Scope := map["rspec" := Str("test")];
    TestRspec();
    ParseArrayEach([t], [r], scope, map[]);
    ParseArrayEach([t, t, Arr([t])], [r, r, Arr([r])], scope, map[]);
  }

  /** Each value of a hash is interpolated. */
  lemma HashValuesInterpolated()
    ensures var t, r := Str("test_" + "%{" + "rspec" + "}" + "_test"), Str("test_" + "test" + "_test");
      ParseAnswer(Hash([Entry(Str("foo"), t), Entry(Str("bar"), t)]), map["rspec" := Str("test")], map[]) ==
        Success(Hash([Entry(Str("foo"), r), Entry(Str("bar"), r)]))
  {
    var t, r := Str("test_" + "%{" + "rspec" + "}" + "_test"), Str("test_" + "test" + "_test");
    var scope: Scope := map["rspec" := Str("test")];
    TestRspec();
    PlainString("foo", scope, map[]);
    PlainString("bar", scope, map[]);
    var ps := [Entry(Str("foo"), r), Entry(Str("bar"), r)];
    assert KeysOf(ps) == [Str("foo"), Str("bar")];
    ParseHashEach(Hash([Entry(Str("foo"), t), Entry(Str("bar"), t)]), ps, scope, map[]);
  }

  /** A token in the key of a nested hash is interpolated. */
  lemma NestedHashKey()
    ensures ParseAnswer(Hash([Entry(Str("topkey"), Hash([Entry(Str("%{" + "rspec" + "}"), Str("test"))]))]), map["rspec" := Str("foo")], map[]) ==
      Success(Hash([Entry(Str("topkey"), Hash([Entry(Str("foo"), Str("test"))]))]))
  {
    var scope: Scope := map["rspec" := Str("foo")];
    InterpolatedHashKey();
    PlainString("topkey", scope, map[]);
    var inner := Hash([Entry(Str("%{" + "rspec" + "}"), Str("test"))]);
    var ps := [Entry(Str("topkey"), Hash([Entry(Str("foo"), Str("test"))]))];
    assert KeysOf(ps) == [Str("topkey")];
    ParseHashEach(Hash([Entry(Str("topkey"), inner)]), ps, scope, map[]);
  }

  /** Strings are interpolated through a hash holding an array. */
  lemma MixedStructure()
    ensures var t, r := Str("test_" + "%{" + "rspec" + "}" + "_test"), Str("test_" + "test" + "_test");
      ParseAnswer(Hash([Entry(Str("foo"), t), Entry(Str("bar"), Arr([t, t]))]), map["rspec" := Str("test")], map[]) ==
        Success(Hash([Entry(Str("foo"), r), Entry(Str("bar"), Arr([r, r]))]))
  {
    var t, r := Str("test_" + "%{" + "rspec" + "}" + "_test"), Str("test_" + "test" + "_test");
    var scope: Scope := map["rspec" := Str("test")];
    TestRspec();
    ParseArrayEach([t, t], [r, r], scope, map[]);
    PlainString("foo", scope, map[]);
    PlainString("bar", scope, map[]);
    var ps := [Entry(Str("foo"), r), Entry(Str("bar"), Arr([r, r]))];
    assert KeysOf(ps) == [Str("foo"), Str("bar")];
    ParseHashEach(Hash([Entry(Str("foo"), t), Entry(Str("bar"), Arr([t, t]))]), ps, scope, map[]);
  }

  /** Integers, floats and booleans are passed unchanged. */
  lemma ScalarsUnchanged(scope: Scope, extra: Scope)
    ensures ParseAnswer(Int(1), scope, extra) == Success(Int(1))
    ensures ParseAnswer(Float("0.233"), scope, extra) == Success(Float("0.233"))
    ensures ParseAnswer(Bool(true), scope, extra) == Success(Bool(true))
    ensures ParseAnswer(Bool(false), scope, extra) == Success(Bool(false))
  {
  }

  // ---------------------------------------------------------------------------
  // resolve_answer

  lemma FlattenNested(x: Data, y: Data)
    requires !x.Arr? && !y.Arr?
    ensures FlattenAll([x, Arr([x, x]), y]) == [x, x, x, y]
  {
    var xs := [x, Arr([x, x]), y];
    assert Flatten(x) == [x] && Flatten(y) == [y];
    assert FlattenAll([y]) == [y] by {
      assert [y][1..] == [];
    }
    assert FlattenAll([x]) == [x] by {
      assert [x][1..] == [];
    }
    assert FlattenAll([x, x]) == [x, x] by {
      assert [x, x][1..] == [x];
    }
    assert Flatten(Arr([x, x])) == [x, x];
    assert xs[1..] == [Arr([x, x]), y] && xs[1..][1..] == [y];
    assert FlattenAll(xs[1..]) == [x, x, y];
  }

  lemma UniqRepeated(x: Data, y: Data)
    requires x != y
    ensures Uniq([x, x, x, y]) == [x, y]
  {
    UniqSame(x);
    assert [x, x, x, y] == [x, x, x] + [y];
    UniqSnoc([x, x, x], y);
  }

  lemma UniqSame(x: Data)
    ensures Uniq([x, x, x]) == [x]
  {
    calc {
      Uniq([x, x, x]);
      { assert [x, x, x] == [x, x] + [x]; UniqSnoc([x, x], x); }
      Uniq([x, x]);
      { assert [x, x] == [x] + [x]; UniqSnoc([x], x); }
      Uniq([x]);
      { assert [x] == [] + [x]; UniqSnoc([], x); }
      [x];
    }
  }

  /** [x, [x, x], y] with x, y distinct scalars resolves to [x, y] for an
      array lookup and to itself otherwise. */
  lemma ResolveNested(x: Data, y: Data)
    requires !x.Arr? && !y.Arr? && x != y
    ensures ResolveAnswer(Arr([x, Arr([x, x]), y]), ArrayResolution) == Arr([x, y])
    ensures ResolveAnswer(Arr([x, Arr([x, x]), y]), Priority) == Arr([x, Arr([x, x]), y])
  {
    FlattenNested(x, y);
    UniqRepeated(x, y);
  }

  /** ["foo", ["foo", "foo"], "bar"] becomes ["foo", "bar"] for an array
      lookup. */
  lemma ResolveExamples()
    ensures var a := Arr([Str("foo"), Arr([Str("foo"), Str("foo")]), Str("bar")]);
      ResolveAnswer(a, ArrayResolution) == Arr([Str("foo"), Str("bar")]) && ResolveAnswer(a, Priority) == a
  {
    ResolveNested(Str("foo"), Str("bar"));
  }

  // ---------------------------------------------------------------------------
  // datasources

  /** A hierarchy passed in is searched as given. */
  lemma GivenHierarchy()
    ensures Levels(None, Some(["one", "two"]), None, map[]) == Success(["one", "two"])
  {
    PlainText("one");
    PlainText("two");
    assert Templates(None, Some(["one", "two"]), None) == ["one", "two"];
    PlainLevels(None, Some(["one", "two"]), None, map[]);
  }

  /** Otherwise the configured :hierarchy is searched. */
  lemma ConfiguredHierarchy()
    ensures Levels(None, None, Some(["test"]), map[]) == Success(["test"])
  {
    PlainText("test");
    assert Templates(None, None, Some(["test"])) == ["test"];
    PlainLevels(None, None, Some(["test"]), map[]);
  }

  /** With no hierarchy anywhere, only "common" is searched. */
  lemma DefaultHierarchy()
    ensures Levels(None, None, None, map[]) == Success(["common"])
  {
    PlainText(CommonLevel);
    assert Templates(None, None, None) == [CommonLevel];
    PlainLevels(None, None, None, map[]);
  }

  /** An override comes ahead of the hierarchy. */
  lemma OverrideAhead()
    ensures Levels(Some("override"), None, None, map[]) == Success(["override", "common"])
  {
    PlainText(CommonLevel);
    PlainText("override");
    assert Templates(Some("override"), None, None) == ["override", CommonLevel];
    PlainLevels(Some("override"), None, None, map[]);
  }

  /** An override that interpolates to "" is skipped. */
  lemma EmptyOverrideSkipped()
    ensures Levels(Some("%{" + "rspec" + "}"), None, None, map[]) == Success(["common"])
  {
    MissingKeyIsEmpty("", "rspec", "", map[], map[]);
    assert "" + "%{" + "rspec" + "}" + "" == "%{" + "rspec" + "}";
    assert "" + "" == "";
    assert LevelName("%{" + "rspec" + "}", map[]) == Success("");
    PlainText("common");
    PlainTemplatesKept(["common"], map[]);
    EmptyLevelSkipped("%{" + "rspec" + "}", ["common"], map[]);
    assert Templates(Some("%{" + "rspec" + "}"), None, None) == ["%{" + "rspec" + "}"] + ["common"];
  }

  /** An override that interpolates to a non-empty name is searched under
      that name, ahead of "common". */
  lemma InterpolatedOverride()
    ensures Levels(Some("%{" + "env" + "}"), None, None, map["env" := Str("prod")]) == Success(["prod", "common"])
  {
    var scope := map["env" := Str("prod")];
    var t := "%{" + "env" + "}";
    EnvLevelName();
    PlainText("common");
    PlainTemplatesKept(["common"], scope);
    LevelKept(t, ["common"], "prod", scope);
    assert NonEmptyLevels([t] + ["common"], scope) == Success(["prod"] + ["common"]);
    assert ["prod"] + ["common"] == ["prod", "common"];
    assert Templates(Some(t), None, None) == [t] + ["common"];
    LevelsOf(Some(t), None, None, scope);
  }

  lemma EnvLevelName()
    ensures LevelName("%{" + "env" + "}", map["env" := Str("prod")]) == Success("prod")
  {
    PlainText("prod");
    ScopeValueWins("", "env", "", "prod", map["env" := Str("prod")], map[]);
    assert "" + "%{" + "env" + "}" + "" == "%{" + "env" + "}";
    assert "" + "prod" + "" == "prod";
  }

  // ---------------------------------------------------------------------------
  // lookup

  /** A backend that gives the same answer for every key and level. */
  function Constant(a: Data): Backend {
    Backend((key: string, level: string, scope: Scope) => a)
  }

  /** With no hierarchy given or configured and no override, the one level
      searched is "common", whatever the scope. */
  lemma CommonOnly(scope: Scope)
    ensures Levels(None, None, None, scope) == Success([CommonLevel])
  {
    PlainText(CommonLevel);
    assert Templates(None, None, None) == [CommonLevel];
    PlainLevels(None, None, None, scope);
  }

  lemma ConsultedTwo(n1: string, n2: string, p1: Backend, p2: Backend)
    requires n1 != n2
    ensures Consulted([n1, n2], map[n1 := p1, n2 := p2], map[]) == [p1, p2]
  {
    var plugins := map[n1 := p1, n2 := p2];
    assert [n1, n2][1..] == [n2] && [n2][1..] == [];
    assert plugins[n1] == p1 && plugins[n2] == p2;
    assert Consulted([n2], plugins, map[]) == [p2] + Consulted([], plugins, map[]);
    assert Consulted([n1, n2], plugins, map[]) == [p1] + Consulted([n2], plugins, map[]);
  }

  lemma AnswersOfTwo(p1: Backend, p2: Backend, key: string, scope: Scope)
    ensures AllAnswers([p1, p2], key, scope, [CommonLevel]) ==
      [p1.answer(key, CommonLevel, scope), p2.answer(key, CommonLevel, scope)]
  {
    assert [p1, p2][1..] == [p2] && [p2][1..] == [];
    var x1 := LevelAnswers(p1, key, scope, [CommonLevel]);
    var x2 := LevelAnswers(p2, key, scope, [CommonLevel]);
    assert x1 == [p1.answer(key, CommonLevel, scope)];
    assert x2 == [p2.answer(key, CommonLevel, scope)];
    assert AllAnswers([p2], key, scope, [CommonLevel]) == x2 + [];
    assert AllAnswers([p1, p2], key, scope, [CommonLevel]) == x1 + (x2 + []);
  }

  /** Two configured backends, nothing cached, no hierarchy configured: one
      level ("common") is searched, so each backend is asked once, in the
      configured order. */
  lemma TwoBackends(n1: string, n2: string, a: Data, b: Data, key: string, scope: Scope, cfg: Config)
    requires n1 != n2 && cfg.backends == [n1, n2] && cfg.hierarchy == None
    ensures Levels(None, None, cfg.hierarchy, scope) == Success([CommonLevel])
    ensures AnswersMet(key, scope, [CommonLevel], cfg, map[n1 := Constant(a), n2 := Constant(b)], map[]) == [a, b]
  {
    CommonOnly(scope);
    ConsultedTwo(n1, n2, Constant(a), Constant(b));
    AnswersOfTwo(Constant(a), Constant(b), key, scope);
  }

  lemma NonNilPair(a: Data, b: Data)
    requires a != Nil && b != Nil
    ensures NonNil([a, b]) == [a, b]
  {
    assert [a, b][1..] == [b] && [b][1..] == [];
    assert NonNil([b]) == [b] + NonNil([]);
  }

  lemma NonNilSkipsNil(b: Data)
    requires b != Nil
    ensures NonNil([Nil, b]) == [b]
  {
    assert [Nil, b][1..] == [b] && [b][1..] == [];
    assert NonNil([b]) == [b] + NonNil([]);
  }

  lemma FlattenTwoArrays(a: Data, b: Data, c: Data, d: Data)
    requires !a.Arr? && !b.Arr? && !c.Arr? && !d.Arr?
    ensures FlattenAll([Arr([a, b]), Arr([c, d])]) == [a, b, c, d]
  {
    FlattenFlat([a, b]);
    FlattenFlat([c, d]);
    assert [Arr([a, b]), Arr([c, d])][1..] == [Arr([c, d])];
    assert [Arr([c, d])][1..] == [];
    assert FlattenAll([Arr([c, d])]) == [c, d] + [];
  }

  /** A priority lookup takes the earliest backend's answer: ["a", "b"] from
      the first backend wins over ["c", "d"] from the second. */
  lemma EarliestBackendWins(n1: string, n2: string, a: Data, b: Data, key: string, default: Data, scope: Scope, cfg: Config)
    requires n1 != n2 && cfg.backends == [n1, n2] && cfg.hierarchy == None
    requires a != Nil && b != Nil
    ensures Outcome(key, default, scope, None, Priority, cfg, map[n1 := Constant(a), n2 := Constant(b)], map[]) == Success(a)
  {
    TwoBackends(n1, n2, a, b, key, scope, cfg);
    NonNilPair(a, b);
    PriorityLookup(key, default, scope, None, Priority, cfg, map[n1 := Constant(a), n2 := Constant(b)], map[], [CommonLevel]);
  }

  /** A backend with no answer is passed over for the next one. */
  lemma NilAnswerPassedOver(n1: string, n2: string, b: Data, key: string, default: Data, scope: Scope, cfg: Config)
    requires n1 != n2 && cfg.backends == [n1, n2] && cfg.hierarchy == None
    requires b != Nil
    ensures Outcome(key, default, scope, None, Unset, cfg, map[n1 := Constant(Nil), n2 := Constant(b)], map[]) == Success(b)
  {
    TwoBackends(n1, n2, Nil, b, key, scope, cfg);
    NonNilSkipsNil(b);
    PriorityLookup(key, default, scope, None, Unset, cfg, map[n1 := Constant(Nil), n2 := Constant(b)], map[], [CommonLevel]);
  }

  /** With no answer anywhere, the default is returned, interpolated. */
  lemma DefaultWhenNothingFound(n1: string, n2: string, key: string, default: Data, scope: Scope, cfg: Config)
    requires n1 != n2 && cfg.backends == [n1, n2] && cfg.hierarchy == None
    ensures Outcome(key, default, scope, None, Priority, cfg, map[n1 := Constant(Nil), n2 := Constant(Nil)], map[]) ==
      ParseAnswer(default, scope, map[])
  {
    TwoBackends(n1, n2, Nil, Nil, key, scope, cfg);
    assert NonNil([Nil, Nil]) == [] by {
      assert [Nil, Nil][1..] == [Nil] && [Nil][1..] == [];
    }
    PriorityLookup(key, default, scope, None, Priority, cfg, map[n1 := Constant(Nil), n2 := Constant(Nil)], map[], [CommonLevel]);
  }

  /** The default "test_%{rspec}" with rspec = "test" comes back as "test_test". */
  lemma DefaultInterpolated(n1: string, n2: string, key: string, cfg: Config)
    requires n1 != n2 && cfg.backends == [n1, n2] && cfg.hierarchy == None
    ensures Outcome(key, Str("test_" + "%{" + "rspec" + "}" + ""), map["rspec" := Str("test")], None, Priority, cfg,
                    map[n1 := Constant(Nil), n2 := Constant(Nil)], map[]) == Success(Str("test_" + "test" + ""))
  {
    DefaultWhenNothingFound(n1, n2, key, Str("test_" + "%{" + "rspec" + "}" + ""), map["rspec" := Str("test")], cfg);
    PlainText("test");
    ScopeValueWins("test_", "rspec", "", "test", map["rspec" := Str("test")], map[]);
  }

  /** An array lookup concatenates every backend's answer: ["a", "b"] and
      ["c", "d"] give ["a", "b", "c", "d"]. */
  lemma ArrayFromAllBackends(n1: string, n2: string, a: Data, b: Data, c: Data, d: Data,
                             key: string, default: Data, scope: Scope, cfg: Config)
    requires n1 != n2 && cfg.backends == [n1, n2] && cfg.hierarchy == None
    requires !a.Arr? && !b.Arr? && !c.Arr? && !d.Arr? && NoDup([a, b, c, d])
    ensures Outcome(key, default, scope, None, ArrayResolution, cfg,
                    map[n1 := Constant(Arr([a, b])), n2 := Constant(Arr([c, d]))], map[]) == Success(Arr([a, b, c, d]))
  {
    var plugins := map[n1 := Constant(Arr([a, b])), n2 := Constant(Arr([c, d]))];
    TwoBackends(n1, n2, Arr([a, b]), Arr([c, d]), key, scope, cfg);
    NonNilPair(Arr([a, b]), Arr([c, d]));
    ArrayLookup(key, default, scope, None, cfg, plugins, map[], [CommonLevel]);
    FlattenTwoArrays(a, b, c, d);
    UniqNoDup([a, b, c, d]);
  }

  /** A :native hash lookup merges every backend's hash: {"a" => "answer"}
      from the first and {"b" => "bnswer"} from the second give both
      entries. The second answer is merged with the first on its right, so
      its key comes first; Ruby's Hash#== ignores that order. */
  lemma HashFromAllBackends(n1: string, n2: string, key: string, default: Data, scope: Scope, cfg: Config)
    requires n1 != n2 && cfg.backends == [n1, n2] && cfg.hierarchy == None && cfg.mergeBehavior == Native
    ensures var ea, eb := Entry(Str("a"), Str("answer")), Entry(Str("b"), Str("bnswer"));
      Outcome(key, default, scope, None, HashResolution, cfg,
              map[n1 := Constant(Hash([ea])), n2 := Constant(Hash([eb]))], map[]) == Success(Hash([eb, ea]))
  {
    var ea, eb := Entry(Str("a"), Str("answer")), Entry(Str("b"), Str("bnswer"));
    var plugins := map[n1 := Constant(Hash([ea])), n2 := Constant(Hash([eb]))];
    TwoBackends(n1, n2, Hash([ea]), Hash([eb]), key, scope, cfg);
    WalkIsFold(Walk(Searching(Nil), map[], []), cfg.backends, plugins, key, scope, [CommonLevel], HashResolution, cfg);
    TwoHashesFold(ea, eb, cfg);
    var w := LookupWalk(key, scope, None, HashResolution, cfg, plugins, map[], []);
    assert w.search == Searching(Hash([eb, ea]));
  }

  /** The fold of a :native hash search over two one-entry hashes with
      different keys. */
  lemma TwoHashesFold(ea: Entry, eb: Entry, cfg: Config)
    requires cfg.mergeBehavior == Native && ea.key != eb.key
    ensures FoldSteps(Searching(Nil), [Hash([ea]), Hash([eb])], HashResolution, cfg) == Searching(Hash([eb, ea]))
  {
    var xs := [Hash([ea]), Hash([eb])];
    assert xs[1..] == [Hash([eb])] && xs[1..][1..] == [];
    assert Step(Nil, Hash([ea]), HashResolution, cfg) == Searching(Hash([ea]));
    assert KeysOf([eb, ea]) == [eb.key, ea.key];
    ShallowMergeDisjoint([eb], [ea]);
    assert Step(Hash([ea]), Hash([eb]), HashResolution, cfg) == Searching(Hash([eb, ea]));
    var s1 := Searching(Hash([ea]));
    var s2 := Searching(Hash([eb, ea]));
    assert FoldSteps(s2, [], HashResolution, cfg) == s2;
    assert FoldSteps(s1, [Hash([eb])], HashResolution, cfg) == FoldSteps(s2, [], HashResolution, cfg);
    assert FoldSteps(Searching(Nil), xs, HashResolution, cfg) == FoldSteps(s1, [Hash([eb])], HashResolution, cfg);
  }

  /** merge_answer with :native: {"a" => "answer"} merged with
      {"b" => "bnswer"} holds both entries. */
  lemma NativeMergeExample(lib: DeepMergeLib)
    ensures MergeAnswer([Entry(Str("a"), Str("answer"))], [Entry(Str("b"), Str("bnswer"))], Native, lib) ==
      [Entry(Str("a"), Str("answer")), Entry(Str("b"), Str("bnswer"))]
  {
  }
}
