/** Backend.lookup: asks each configured backend, at each hierarchy level, for
    the key's answer and combines what it finds according to the resolution
    type. A priority (or unset) lookup stops at the first answer; an array
    lookup collects every answer; a hash lookup merges every answer with
    merge_answer, an earlier answer winning on a shared key. When nothing is
    found the default comes back, interpolated. Backend instances are created
    once per name and kept for later lookups. */
module Lookup {
  import opened Values
  import opened Interpolation
  import opened Answers
  import opened Hierarchy

  /** A backend plugin's lookup capability: its answer for a key at one
      hierarchy level, given the caller's scope; nil when it has none. */
  datatype Backend = Backend(answer: (string, string, Scope) -> Data)

  /** What lookup reads from the configuration: the :backends list, the
      :hierarchy (if set), the :merge_behavior and the deep_merge library. */
  datatype Config = Config(
    backends: seq<string>,
    hierarchy: Option<seq<string>>,
    mergeBehavior: MergeBehavior,
    lib: DeepMergeLib)

  /** Where a lookup stands. */
  datatype Search =
    | Searching(answer: Data)  // the answer accumulated so far; nil while nothing was found
    | Found(answer: Data)      // a priority lookup has its answer
    | Failed(error: Error)

  // ---------------------------------------------------------------------------
  // The search, as functions of the answers met

  /** Takes one backend answer into account. */
  function Step(answer: Data, found: Data, rt: ResolutionType, cfg: Config): (r: Search)
    ensures found == Nil ==> r == Searching(answer)
    ensures found != Nil && (rt == Priority || rt == Unset) ==> r == Found(found)
    ensures found != Nil && rt == ArrayResolution ==>
      r.Searching? && r.answer.Arr? && r.answer.elems == (if answer.Arr? then answer.elems else []) + [found]
    ensures found != Nil && rt == HashResolution && !found.Hash? ==> r == Failed(NotAHash(found))
    ensures found.Hash? && rt == HashResolution && cfg.mergeBehavior == Native && (answer.Hash? ==> DistinctKeys(answer.entries)) ==>
      r.Searching? && r.answer.Hash? && RightWins(r.answer.entries, found.entries, if answer.Hash? then answer.entries else [])
  {
    if found == Nil then Searching(answer)
    else
      match rt
      case ArrayResolution =>
        Searching(Arr((if answer.Arr? then answer.elems else []) + [found]))
      case HashResolution =>
        if !found.Hash? then Failed(NotAHash(found))
        else Searching(Hash(MergeAnswer(found.entries, if answer.Hash? then answer.entries else [], cfg.mergeBehavior, cfg.lib)))
      case _ => Found(found)
  }

  /** Takes a sequence of answers into account, in order, until the search stops. */
  function FoldSteps(s: Search, xs: seq<Data>, rt: ResolutionType, cfg: Config): Search
    decreases |xs|
  {
    if xs == [] || !s.Searching? then s
    else FoldSteps(Step(s.answer, xs[0], rt, cfg), xs[1..], rt, cfg)
  }

  /** One backend asked at each level in turn. */
  function WalkLevels(s: Search, b: Backend, key: string, scope: Scope, levels: seq<string>, rt: ResolutionType, cfg: Config): Search
    decreases |levels|
  {
    if levels == [] || !s.Searching? then s
    else WalkLevels(Step(s.answer, b.answer(key, levels[0], scope), rt, cfg), b, key, scope, levels[1..], rt, cfg)
  }

  /** The search together with the backend cache and the log of backends
      started (created) so far. */
  datatype Walk = Walk(search: Search, cache: map<string, Backend>, started: seq<string>)

  /** The configured backends asked in turn. A name without a backend class
      is skipped; a backend not yet in the cache is created and logged as
      started; each backend is asked at every level of levels. */
  function WalkBackends(w: Walk, names: seq<string>, plugins: map<string, Backend>, key: string, scope: Scope,
                        levels: Result<seq<string>>, rt: ResolutionType, cfg: Config): (r: Walk)
    ensures !w.search.Searching? ==> r == w
    ensures r.search.Searching? ==> w.search.Searching?
    decreases |names|
  {
    if names == [] || !w.search.Searching? then w
    else if names[0] !in plugins then WalkBackends(w, names[1..], plugins, key, scope, levels, rt, cfg)
    else WalkBackends(Visit(w, names[0], plugins, key, scope, levels, rt, cfg), names[1..], plugins, key, scope, levels, rt, cfg)
  }

  /** One configured backend that has a class: its instance is taken from the
      cache, or created, cached and logged as started, and asked at each level. */
  function Visit(w: Walk, n: string, plugins: map<string, Backend>, key: string, scope: Scope,
                 levels: Result<seq<string>>, rt: ResolutionType, cfg: Config): (r: Walk)
    requires n in plugins
    ensures Grows(w, r, plugins) && n in r.cache
    ensures n in w.cache ==> r.started == w.started
    ensures n !in w.cache ==> r.started == w.started + [n]
    ensures levels.Failure? ==> r.search == Failed(levels.error)
    ensures levels.Success? ==> r.search == WalkLevels(w.search, r.cache[n], key, scope, levels.value, rt, cfg)
  {
    var cache := if n in w.cache then w.cache else w.cache[n := plugins[n]];
    var started := if n in w.cache then w.started else w.started + [n];
    var search := match levels
      case Failure(e) => Failed(e)
      case Success(ls) => WalkLevels(w.search, cache[n], key, scope, ls, rt, cfg);
    Walk(search, cache, started)
  }

  /** The walk of a whole lookup, from an empty search and the given registry state. */
  function LookupWalk(key: string, scope: Scope, override: Option<string>, rt: ResolutionType, cfg: Config,
                      plugins: map<string, Backend>, cache: map<string, Backend>, started: seq<string>): (r: Walk)
    ensures Grows(Walk(Searching(Nil), cache, started), r, plugins)
  {
    var w := Walk(Searching(Nil), cache, started);
    var levels := Levels(override, None, cfg.hierarchy, scope);
    WalkGrowsCache(w, cfg.backends, plugins, key, scope, levels, rt, cfg);
    WalkBackends(w, cfg.backends, plugins, key, scope, levels, rt, cfg)
  }

  /** The result of a lookup once the search is over: a failure, the answer
      resolved for its resolution type, or else the default interpolated. */
  function Finish(s: Search, default: Data, scope: Scope, rt: ResolutionType): (r: Result<Data>)
    ensures s.Failed? ==> r == Failure(s.error)
    ensures s == Searching(Nil) ==> r == ParseAnswer(default, scope, map[])
    ensures s.Found? || (s.Searching? && s.answer != Nil) ==> r == Success(ResolveAnswer(s.answer, rt))
  {
    match s
    case Failed(e) => Failure(e)
    case Found(a) => Success(ResolveAnswer(a, rt))
    case Searching(a) => if a == Nil then ParseAnswer(default, scope, map[]) else Success(ResolveAnswer(a, rt))
  }

  // ---------------------------------------------------------------------------
  // The backend cache and the lookup itself

  /** Hiera's process-wide backend registry: the backend classes that exist
      (found by name), the instances created so far (`@backends`) and the
      order in which they were started. */
  class BackendCache {
    const plugins: map<string, Backend>
    var cache: map<string, Backend>
    var started: seq<string>

    /** Each backend is started at most once, and a started backend stays cached. */
    ghost predicate Valid()
      reads this
    {
      NoDup(started) && forall i :: 0 <= i < |started| ==> started[i] in cache
    }

    /** A registry over the given classes, holding the given instances already. */
    constructor(plugins: map<string, Backend>, preloaded: map<string, Backend>)
      ensures this.plugins == plugins && cache == preloaded && started == []
      ensures Valid()
    {
      this.plugins := plugins;
      cache := preloaded;
      started := [];
    }

    /** Backend.lookup(key, default, scope, order_override, resolution_type). */
    method Lookup(key: string, default: Data, scope: Scope, override: Option<string>, rt: ResolutionType, cfg: Config)
      returns (r: Result<Data>)
      requires Valid()
      modifies this
      ensures Valid()
      ensures var w := LookupWalk(key, scope, override, rt, cfg, plugins, old(cache), old(started));
        cache == w.cache && started == w.started && r == Finish(w.search, default, scope, rt)
    {
      ghost var levels := Levels(override, None, cfg.hierarchy, scope);
      ghost var whole := LookupWalk(key, scope, override, rt, cfg, plugins, cache, started);
      var search := Searching(Nil);
      var names := cfg.backends;
      while names != [] && search.Searching?
        invariant Valid()
        invariant whole == WalkBackends(Walk(search, cache, started), names, plugins, key, scope, levels, rt, cfg)
        decreases |names|
      {
        if names[0] in plugins {
          search := Ask(names[0], search, key, scope, override, rt, cfg);
        }
        names := names[1..];
      }
      r := Finish(search, default, scope, rt);
    }

    /** Asks the backend named n, creating and caching it first if need be. */
    method Ask(n: string, search: Search, key: string, scope: Scope, override: Option<string>, rt: ResolutionType, cfg: Config)
      returns (next: Search)
      requires Valid() && n in plugins
      modifies this
      ensures Valid()
      ensures Walk(next, cache, started) ==
        Visit(Walk(search, old(cache), old(started)), n, plugins, key, scope, Levels(override, None, cfg.hierarchy, scope), rt, cfg)
    {
      if n !in cache {
        StartKeepsValid(started, cache, n, plugins[n]);
        cache := cache[n := plugins[n]];
        started := started + [n];
      }
      var backend := cache[n];
      var ls := Datasources(override, None, cfg.hierarchy, scope);
      if ls.Failure? {
        next := Failed(ls.error);
      } else {
        next := AskLevels(search, backend, key, scope, ls.value, rt, cfg);
      }
    }
  }

  lemma StartKeepsValid(started: seq<string>, cache: map<string, Backend>, n: string, b: Backend)
    requires NoDup(started) && forall i :: 0 <= i < |started| ==> started[i] in cache
    requires n !in cache
    ensures NoDup(started + [n]) && forall i :: 0 <= i < |started + [n]| ==> (started + [n])[i] in cache[n := b]
  {
  }

  /** Asks one backend at each level in turn, stopping when the search stops. */
  method AskLevels(s: Search, b: Backend, key: string, scope: Scope, levels: seq<string>, rt: ResolutionType, cfg: Config)
    returns (r: Search)
    ensures r == WalkLevels(s, b, key, scope, levels, rt, cfg)
  {
    r := s;
    var j := 0;
    while j < |levels| && r.Searching?
      invariant 0 <= j <= |levels|
      invariant WalkLevels(s, b, key, scope, levels, rt, cfg) == WalkLevels(r, b, key, scope, levels[j..], rt, cfg)
    {
      assert levels[j..][1..] == levels[j + 1..];
      r := Step(r.answer, b.answer(key, levels[j], scope), rt, cfg);
      j := j + 1;
    }
  }

  // ---------------------------------------------------------------------------
  // The answers a lookup meets

  /** The answers of one backend, level by level. */
  function LevelAnswers(b: Backend, key: string, scope: Scope, levels: seq<string>): (xs: seq<Data>)
    ensures |xs| == |levels|
    ensures forall i :: 0 <= i < |levels| ==> xs[i] == b.answer(key, levels[i], scope)
  {
    if levels == [] then [] else [b.answer(key, levels[0], scope)] + LevelAnswers(b, key, scope, levels[1..])
  }

  /** The answers of several backends, backend by backend, each level by level. */
  function AllAnswers(bs: seq<Backend>, key: string, scope: Scope, levels: seq<string>): seq<Data> {
    if bs == [] then [] else LevelAnswers(bs[0], key, scope, levels) + AllAnswers(bs[1..], key, scope, levels)
  }

  /** The backend instances asked, in order: each configured name that has a
      class, the cached instance if there is one, a new one otherwise. */
  function Consulted(names: seq<string>, plugins: map<string, Backend>, cache: map<string, Backend>): seq<Backend> {
    if names == [] then []
    else if names[0] !in plugins then Consulted(names[1..], plugins, cache)
    else [if names[0] in cache then cache[names[0]] else plugins[names[0]]] + Consulted(names[1..], plugins, cache)
  }

  /** The answers that are not nil. */
  function NonNil(xs: seq<Data>): (ys: seq<Data>)
    ensures Nil !in ys
    ensures forall y :: y in ys ==> y in xs
  {
    if xs == [] then []
    else if xs[0] == Nil then NonNil(xs[1..])
    else [xs[0]] + NonNil(xs[1..])
  }

  /** Once the search has stopped, further answers change nothing; so a
      search over xs + ys is a search over xs continued over ys. */
  lemma {:induction false} FoldAppend(s: Search, xs: seq<Data>, ys: seq<Data>, rt: ResolutionType, cfg: Config)
    ensures FoldSteps(s, xs + ys, rt, cfg) == FoldSteps(FoldSteps(s, xs, rt, cfg), ys, rt, cfg)
    decreases |xs|
  {
    if xs == [] {
      assert xs + ys == ys;
    } else if s.Searching? {
      assert (xs + ys)[0] == xs[0] && (xs + ys)[1..] == xs[1..] + ys;
      FoldAppend(Step(s.answer, xs[0], rt, cfg), xs[1..], ys, rt, cfg);
    } else {
      assert FoldSteps(s, ys, rt, cfg) == s by {
        if ys != [] { }
      }
    }
  }

  lemma {:induction false} WalkLevelsIsFold(s: Search, b: Backend, key: string, scope: Scope, levels: seq<string>, rt: ResolutionType, cfg: Config)
    ensures WalkLevels(s, b, key, scope, levels, rt, cfg) == FoldSteps(s, LevelAnswers(b, key, scope, levels), rt, cfg)
    decreases |levels|
  {
    if levels != [] && s.Searching? {
      WalkLevelsIsFold(Step(s.answer, b.answer(key, levels[0], scope), rt, cfg), b, key, scope, levels[1..], rt, cfg);
      assert LevelAnswers(b, key, scope, levels)[1..] == LevelAnswers(b, key, scope, levels[1..]);
    }
  }

  /** Adding a freshly created instance to the cache does not change which
      instances are asked. */
  lemma {:induction false} ConsultedStable(names: seq<string>, plugins: map<string, Backend>, cache: map<string, Backend>, n: string)
    requires n in plugins && n !in cache
    ensures Consulted(names, plugins, cache[n := plugins[n]]) == Consulted(names, plugins, cache)
    decreases |names|
  {
    if names != [] {
      ConsultedStable(names[1..], plugins, cache, n);
    }
  }

  /** The search of a lookup is the search over all the answers of the
      backends asked, in order, whatever the cache held. */
  lemma {:induction false} WalkIsFold(w: Walk, names: seq<string>, plugins: map<string, Backend>, key: string, scope: Scope,
                                      levels: seq<string>, rt: ResolutionType, cfg: Config)
    ensures WalkBackends(w, names, plugins, key, scope, Success(levels), rt, cfg).search ==
      FoldSteps(w.search, AllAnswers(Consulted(names, plugins, w.cache), key, scope, levels), rt, cfg)
    decreases |names|
  {
    var all := AllAnswers(Consulted(names, plugins, w.cache), key, scope, levels);
    if names == [] {
    } else if !w.search.Searching? {
      assert FoldSteps(w.search, all, rt, cfg) == w.search by {
        if all != [] { }
      }
    } else if names[0] !in plugins {
      WalkIsFold(w, names[1..], plugins, key, scope, levels, rt, cfg);
    } else {
      var n := names[0];
      var cache := if n in w.cache then w.cache else w.cache[n := plugins[n]];
      var started := if n in w.cache then w.started else w.started + [n];
      var b := cache[n];
      var search := WalkLevels(w.search, b, key, scope, levels, rt, cfg);
      WalkIsFold(Walk(search, cache, started), names[1..], plugins, key, scope, levels, rt, cfg);
      if n !in w.cache {
        ConsultedStable(names[1..], plugins, w.cache, n);
      }
      var rest := Consulted(names[1..], plugins, w.cache);
      assert Consulted(names, plugins, w.cache) == [b] + rest;
      assert ([b] + rest)[1..] == rest;
      WalkLevelsIsFold(w.search, b, key, scope, levels, rt, cfg);
      FoldAppend(w.search, LevelAnswers(b, key, scope, levels), AllAnswers(rest, key, scope, levels), rt, cfg);
    }
  }

  // ---------------------------------------------------------------------------
  // The three resolution types

  /** A priority (or unset) search ends with the first answer that is not nil. */
  lemma {:induction false} PriorityFold(xs: seq<Data>, rt: ResolutionType, cfg: Config)
    requires rt == Priority || rt == Unset
    ensures FoldSteps(Searching(Nil), xs, rt, cfg) ==
      if NonNil(xs) == [] then Searching(Nil) else Found(NonNil(xs)[0])
    decreases |xs|
  {
    if xs != [] {
      if xs[0] == Nil {
        PriorityFold(xs[1..], rt, cfg);
      } else {
        var s := Found(xs[0]);
        assert FoldSteps(s, xs[1..], rt, cfg) == s by {
          if xs[1..] != [] { }
        }
      }
    }
  }

  /** The accumulated answer of an array search over the answers acc. */
  function ArrayState(acc: seq<Data>): Data {
    if acc == [] then Nil else Arr(acc)
  }

  /** An array search collects every answer that is not nil, in order. */
  lemma {:induction false} ArrayFold(acc: seq<Data>, xs: seq<Data>, cfg: Config)
    ensures FoldSteps(Searching(ArrayState(acc)), xs, ArrayResolution, cfg) == Searching(ArrayState(acc + NonNil(xs)))
    decreases |xs|
  {
    if xs == [] {
      assert acc + [] == acc;
    } else if xs[0] == Nil {
      ArrayFold(acc, xs[1..], cfg);
    } else {
      assert Step(ArrayState(acc), xs[0], ArrayResolution, cfg) == Searching(ArrayState(acc + [xs[0]]));
      ArrayFold(acc + [xs[0]], xs[1..], cfg);
      assert acc + [xs[0]] + NonNil(xs[1..]) == acc + NonNil(xs);
    }
  }

  /** A hash search fails at the first answer that is neither nil nor a hash. */
  lemma {:induction false} HashMismatch(a: Data, xs: seq<Data>, j: nat, cfg: Config)
    requires j < |xs| && xs[j] != Nil && !xs[j].Hash?
    requires forall i :: 0 <= i < j ==> xs[i] == Nil || xs[i].Hash?
    ensures FoldSteps(Searching(a), xs, HashResolution, cfg) == Failed(NotAHash(xs[j]))
    decreases j
  {
    if j == 0 {
      var s := Failed(NotAHash(xs[0]));
      assert FoldSteps(s, xs[1..], HashResolution, cfg) == s by {
        if xs[1..] != [] { }
      }
    } else {
      var s := Step(a, xs[0], HashResolution, cfg);
      HashMismatch(s.answer, xs[1..], j - 1, cfg);
    }
  }

  /** The value of key k in the first of the hashes hs that has it. */
  function EarliestGet(hs: seq<seq<Entry>>, k: Data): Option<Data> {
    if hs == [] then None
    else if k in KeysOf(hs[0]) then Get(hs[0], k)
    else EarliestGet(hs[1..], k)
  }

  /** The entries of the answers that are hashes, in order. */
  function EntriesOf(xs: seq<Data>): seq<seq<Entry>> {
    if xs == [] then []
    else if xs[0].Hash? then [xs[0].entries] + EntriesOf(xs[1..])
    else EntriesOf(xs[1..])
  }

  /** Every answer that is not nil is a hash whose keys are distinct. */
  ghost predicate HashAnswers(xs: seq<Data>) {
    forall i :: 0 <= i < |xs| ==> xs[i] == Nil || (xs[i].Hash? && DistinctKeys(xs[i].entries))
  }

  lemma HashAnswersNonNil(xs: seq<Data>)
    requires HashAnswers(xs)
    ensures forall i :: 0 <= i < |NonNil(xs)| ==> NonNil(xs)[i].Hash?
  {
    forall i | 0 <= i < |NonNil(xs)| ensures NonNil(xs)[i].Hash? {
      assert NonNil(xs)[i] in xs;
    }
  }

  /** With :native merging, a hash search ends with a hash holding, for each
      key, the value of the earliest answer that has the key: a backend asked
      earlier, or a level more specific, wins. */
  lemma {:induction false} NativeHashFold(acc: seq<Entry>, started: bool, xs: seq<Data>, cfg: Config)
    requires cfg.mergeBehavior == Native && DistinctKeys(acc) && HashAnswers(xs)
    requires !started ==> acc == []
    ensures var s := FoldSteps(Searching(if started then Hash(acc) else Nil), xs, HashResolution, cfg);
      && s.Searching?
      && (s.answer == Nil <==> !started && NonNil(xs) == [])
      && (s.answer != Nil ==> s.answer.Hash? && DistinctKeys(s.answer.entries))
      && (s.answer != Nil ==> forall k :: Get(s.answer.entries, k) == EarliestGet([acc] + EntriesOf(NonNil(xs)), k))
    decreases |xs|
  {
    HashAnswersNonNil(xs);
    if xs != [] {
      var rest := xs[1..];
      assert HashAnswers(rest) by {
        forall i | 0 <= i < |rest| ensures rest[i] == Nil || (rest[i].Hash? && DistinctKeys(rest[i].entries)) {
          assert rest[i] == xs[i + 1];
        }
      }
      HashAnswersNonNil(rest);
      if xs[0] == Nil {
        NativeHashFold(acc, started, rest, cfg);
      } else {
        var h := xs[0].entries;
        var merged := MergeAnswer(h, acc, Native, cfg.lib);
        assert Step(if started then Hash(acc) else Nil, xs[0], HashResolution, cfg) == Searching(Hash(merged));
        NativeHashFold(merged, true, rest, cfg);
        var later := EntriesOf(NonNil(rest));
        assert EntriesOf(NonNil(xs)) == [h] + later;
        EarliestMerged(merged, h, acc, later);
      }
    }
  }

  /** A hash merged under the earlier answers acc reads, key by key, as acc
      ahead of h. */
  lemma EarliestMerged(merged: seq<Entry>, h: seq<Entry>, acc: seq<Entry>, later: seq<seq<Entry>>)
    requires RightWins(merged, h, acc)
    requires forall k :: k in KeysOf(merged) <==> k in KeysOf(h) || k in KeysOf(acc)
    ensures forall k :: EarliestGet([merged] + later, k) == EarliestGet([acc] + ([h] + later), k)
  {
    forall k ensures EarliestGet([merged] + later, k) == EarliestGet([acc] + ([h] + later), k) {
      assert ([merged] + later)[1..] == later;
      assert ([acc] + ([h] + later))[1..] == [h] + later;
      assert ([h] + later)[1..] == later;
    }
  }

  // ---------------------------------------------------------------------------
  // What a lookup returns

  /** The result Backend.lookup computes, for a cache holding the given instances. */
  function Outcome(key: string, default: Data, scope: Scope, override: Option<string>, rt: ResolutionType, cfg: Config,
                   plugins: map<string, Backend>, cache: map<string, Backend>): Result<Data>
  {
    Finish(LookupWalk(key, scope, override, rt, cfg, plugins, cache, []).search, default, scope, rt)
  }

  /** Every answer a lookup can meet, in the order it meets them. */
  function AnswersMet(key: string, scope: Scope, levels: seq<string>, cfg: Config,
                   plugins: map<string, Backend>, cache: map<string, Backend>): seq<Data>
  {
    AllAnswers(Consulted(cfg.backends, plugins, cache), key, scope, levels)
  }

  /** A priority or unset lookup returns the first answer found, over the
      backends in their configured order and the levels most specific first;
      if there is none, the default interpolated. */
  lemma PriorityLookup(key: string, default: Data, scope: Scope, override: Option<string>, rt: ResolutionType, cfg: Config,
                       plugins: map<string, Backend>, cache: map<string, Backend>, levels: seq<string>)
    requires rt == Priority || rt == Unset
    requires Levels(override, None, cfg.hierarchy, scope) == Success(levels)
    ensures var found := NonNil(AnswersMet(key, scope, levels, cfg, plugins, cache));
      Outcome(key, default, scope, override, rt, cfg, plugins, cache) ==
        if found == [] then ParseAnswer(default, scope, map[]) else Success(found[0])
  {
    WalkIsFold(Walk(Searching(Nil), cache, []), cfg.backends, plugins, key, scope, levels, rt, cfg);
    PriorityFold(AnswersMet(key, scope, levels, cfg, plugins, cache), rt, cfg);
  }

  /** An array lookup returns every answer found, in order, flattened and
      without repetitions; if there is none, the default interpolated. */
  lemma ArrayLookup(key: string, default: Data, scope: Scope, override: Option<string>, cfg: Config,
                    plugins: map<string, Backend>, cache: map<string, Backend>, levels: seq<string>)
    requires Levels(override, None, cfg.hierarchy, scope) == Success(levels)
    ensures var found := NonNil(AnswersMet(key, scope, levels, cfg, plugins, cache));
      Outcome(key, default, scope, override, ArrayResolution, cfg, plugins, cache) ==
        if found == [] then ParseAnswer(default, scope, map[]) else Success(Arr(Uniq(FlattenAll(found))))
  {
    var xs := AnswersMet(key, scope, levels, cfg, plugins, cache);
    WalkIsFold(Walk(Searching(Nil), cache, []), cfg.backends, plugins, key, scope, levels, ArrayResolution, cfg);
    ArrayFold([], xs, cfg);
    assert [] + NonNil(xs) == NonNil(xs);
  }

  /** A :native hash lookup returns, for each key, the value of the earliest
      hash found that has it; if no hash is found, the default interpolated. */
  lemma NativeHashLookup(key: string, default: Data, scope: Scope, override: Option<string>, cfg: Config,
                         plugins: map<string, Backend>, cache: map<string, Backend>, levels: seq<string>)
    requires cfg.mergeBehavior == Native
    requires Levels(override, None, cfg.hierarchy, scope) == Success(levels)
    requires HashAnswers(AnswersMet(key, scope, levels, cfg, plugins, cache))
    ensures var xs := AnswersMet(key, scope, levels, cfg, plugins, cache);
      var r := Outcome(key, default, scope, override, HashResolution, cfg, plugins, cache);
      && (NonNil(xs) == [] ==> r == ParseAnswer(default, scope, map[]))
      && (NonNil(xs) != [] ==> r.Success? && r.value.Hash? && DistinctKeys(r.value.entries))
      && (NonNil(xs) != [] ==> forall k :: Get(r.value.entries, k) == EarliestGet(EntriesOf(NonNil(xs)), k))
  {
    var xs := AnswersMet(key, scope, levels, cfg, plugins, cache);
    WalkIsFold(Walk(Searching(Nil), cache, []), cfg.backends, plugins, key, scope, levels, HashResolution, cfg);
    NativeHashFold([], false, xs, cfg);
    HashAnswersNonNil(xs);
    forall k ensures EarliestGet([[]] + EntriesOf(NonNil(xs)), k) == EarliestGet(EntriesOf(NonNil(xs)), k) {
      assert ([[]] + EntriesOf(NonNil(xs)))[1..] == EntriesOf(NonNil(xs));
    }
  }

  /** A failing interpolation of the hierarchy fails a lookup that asks any
      backend, whatever the resolution type. */
  lemma LevelsFailureFailsLookup(key: string, default: Data, scope: Scope, override: Option<string>, rt: ResolutionType, cfg: Config,
                                 plugins: map<string, Backend>, cache: map<string, Backend>, e: Error)
    requires Levels(override, None, cfg.hierarchy, scope) == Failure(e)
    requires exists i :: 0 <= i < |cfg.backends| && cfg.backends[i] in plugins
    ensures Outcome(key, default, scope, override, rt, cfg, plugins, cache) == Failure(e)
  {
    var i :| 0 <= i < |cfg.backends| && cfg.backends[i] in plugins;
    FirstPluginFails(Walk(Searching(Nil), cache, []), cfg.backends, i, plugins, key, scope, e, rt, cfg);
  }

  lemma {:induction false} FirstPluginFails(w: Walk, names: seq<string>, i: nat, plugins: map<string, Backend>, key: string, scope: Scope,
                                            e: Error, rt: ResolutionType, cfg: Config)
    requires w.search.Searching? && i < |names| && names[i] in plugins
    ensures WalkBackends(w, names, plugins, key, scope, Failure(e), rt, cfg).search == Failed(e)
    decreases i
  {
    if names[0] !in plugins {
      FirstPluginFails(w, names[1..], i - 1, plugins, key, scope, e, rt, cfg);
    } else {
      var n := names[0];
      var cache := if n in w.cache then w.cache else w.cache[n := plugins[n]];
      var started := if n in w.cache then w.started else w.started + [n];
      var w' := Walk(Failed(e), cache, started);
      assert WalkBackends(w', names[1..], plugins, key, scope, Failure(e), rt, cfg) == w' by {
        if names[1..] != [] { }
      }
    }
  }

  // ---------------------------------------------------------------------------
  // The cache

  /** The cache of w' extends the cache of w: what w cached stays as it was,
      each backend started since was not cached before and has a class, and
      each new instance is its class's. */
  ghost predicate Grows(w: Walk, w': Walk, plugins: map<string, Backend>) {
    && w.started <= w'.started
    && (forall n :: n in w.cache ==> n in w'.cache && w'.cache[n] == w.cache[n])
    && (forall i :: |w.started| <= i < |w'.started| ==> w'.started[i] !in w.cache && w'.started[i] in plugins)
    && (forall n :: n in w'.cache && n !in w.cache ==> n in plugins && w'.cache[n] == plugins[n])
  }

  lemma VisitGrows(w: Walk, n: string, plugins: map<string, Backend>, key: string, scope: Scope,
                   levels: Result<seq<string>>, rt: ResolutionType, cfg: Config)
    requires n in plugins
    ensures Grows(w, Visit(w, n, plugins, key, scope, levels, rt, cfg), plugins)
    ensures n in Visit(w, n, plugins, key, scope, levels, rt, cfg).cache
  {
  }

  lemma GrowsTrans(w1: Walk, w2: Walk, w3: Walk, plugins: map<string, Backend>)
    requires Grows(w1, w2, plugins) && Grows(w2, w3, plugins)
    ensures Grows(w1, w3, plugins)
  {
    forall i | |w1.started| <= i < |w3.started|
      ensures w3.started[i] !in w1.cache && w3.started[i] in plugins
    {
      if i < |w2.started| {
        assert w3.started[i] == w2.started[i];
      }
    }
  }

  /** A lookup only adds to the cache: what was cached stays as it was, and
      each backend it starts was not cached before and has a class. */
  lemma {:induction false} WalkGrowsCache(w: Walk, names: seq<string>, plugins: map<string, Backend>, key: string, scope: Scope,
                                          levels: Result<seq<string>>, rt: ResolutionType, cfg: Config)
    ensures Grows(w, WalkBackends(w, names, plugins, key, scope, levels, rt, cfg), plugins)
    decreases |names|
  {
    if names != [] && w.search.Searching? {
      if names[0] !in plugins {
        WalkGrowsCache(w, names[1..], plugins, key, scope, levels, rt, cfg);
      } else {
        var next := Visit(w, names[0], plugins, key, scope, levels, rt, cfg);
        VisitGrows(w, names[0], plugins, key, scope, levels, rt, cfg);
        WalkGrowsCache(next, names[1..], plugins, key, scope, levels, rt, cfg);
        GrowsTrans(w, next, WalkBackends(next, names[1..], plugins, key, scope, levels, rt, cfg), plugins);
      }
    }
  }

  /** When every configured backend that has a class is cached already, a
      lookup starts no backend and leaves the cache as it was. */
  lemma {:induction false} CachedStartsNothing(w: Walk, names: seq<string>, plugins: map<string, Backend>, key: string, scope: Scope,
                                               levels: Result<seq<string>>, rt: ResolutionType, cfg: Config)
    requires forall i :: 0 <= i < |names| && names[i] in plugins ==> names[i] in w.cache
    ensures var w' := WalkBackends(w, names, plugins, key, scope, levels, rt, cfg);
      w'.cache == w.cache && w'.started == w.started
    decreases |names|
  {
    if names != [] && w.search.Searching? {
      var n := names[0];
      if n in plugins {
        assert names[0] in w.cache;
        var next := Visit(w, n, plugins, key, scope, levels, rt, cfg);
        assert next.cache == w.cache && next.started == w.started;
        CachedStartsNothing(next, names[1..], plugins, key, scope, levels, rt, cfg);
      } else {
        CachedStartsNothing(w, names[1..], plugins, key, scope, levels, rt, cfg);
      }
    }
  }

  /** A lookup that asks every backend (one that never stops early) leaves
      every configured backend that has a class in the cache. */
  lemma {:induction false} FullWalkCachesAll(w: Walk, names: seq<string>, plugins: map<string, Backend>, key: string, scope: Scope,
                                             levels: Result<seq<string>>, rt: ResolutionType, cfg: Config)
    ensures var w' := WalkBackends(w, names, plugins, key, scope, levels, rt, cfg);
      w'.search.Searching? ==> forall i :: 0 <= i < |names| && names[i] in plugins ==> names[i] in w'.cache
    decreases |names|
  {
    var w' := WalkBackends(w, names, plugins, key, scope, levels, rt, cfg);
    if names != [] && w.search.Searching? {
      var n := names[0];
      if n !in plugins {
        FullWalkCachesAll(w, names[1..], plugins, key, scope, levels, rt, cfg);
      } else {
        var next := Visit(w, n, plugins, key, scope, levels, rt, cfg);
        VisitGrows(w, n, plugins, key, scope, levels, rt, cfg);
        FullWalkCachesAll(next, names[1..], plugins, key, scope, levels, rt, cfg);
        WalkGrowsCache(next, names[1..], plugins, key, scope, levels, rt, cfg);
        assert w' == WalkBackends(next, names[1..], plugins, key, scope, levels, rt, cfg);
      }
      if w'.search.Searching? {
        forall i | 0 <= i < |names| && names[i] in plugins ensures names[i] in w'.cache {
          if i > 0 { assert names[i] == names[1..][i - 1]; }
        }
      }
    }
  }

  /** After a lookup that asked every backend, the same lookup again starts
      no backend: each backend is initialised once. */
  lemma RepeatStartsNothing(w: Walk, names: seq<string>, plugins: map<string, Backend>, key: string, scope: Scope,
                            levels: Result<seq<string>>, rt: ResolutionType, cfg: Config)
    requires WalkBackends(w, names, plugins, key, scope, levels, rt, cfg).search.Searching?
    ensures var w1 := WalkBackends(w, names, plugins, key, scope, levels, rt, cfg);
      var w2 := WalkBackends(Walk(Searching(Nil), w1.cache, w1.started), names, plugins, key, scope, levels, rt, cfg);
      w2.cache == w1.cache && w2.started == w1.started
  {
    var w1 := WalkBackends(w, names, plugins, key, scope, levels, rt, cfg);
    FullWalkCachesAll(w, names, plugins, key, scope, levels, rt, cfg);
    CachedStartsNothing(Walk(Searching(Nil), w1.cache, w1.started), names, plugins, key, scope, levels, rt, cfg);
  }
}
