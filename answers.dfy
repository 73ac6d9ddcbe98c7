/** What Hiera does with an answer once a backend has produced it:
    Backend.parse_answer (interpolation through a whole answer tree),
    Backend.resolve_answer (flatten and de-duplicate for array lookups) and
    Backend.merge_answer (the merge_behavior dispatch for hash lookups). */
module Answers {
  import opened Values
  import opened Interpolation
  import InterpolationFacts

  // ---------------------------------------------------------------------------
  // parse_answer

  /** Interpolates every string of an answer: array elements in order, hash
      keys and values, at any depth. Integers, floats, booleans, nil and
      symbols come back unchanged. The first interpolation loop met fails the
      whole answer. */
  function ParseAnswer(d: Data, scope: Scope, extra: Scope): (r: Result<Data>)
    ensures !d.Str? && !d.Arr? && !d.Hash? ==> r == Success(d)
    ensures d.Str? ==> r == ParseString(d, scope, extra)
    ensures r.Success? && d.Str? ==> r.value.Str?
    ensures r.Success? && d.Arr? ==> r.value.Arr? && |r.value.elems| == |d.elems|
    ensures r.Success? && d.Hash? ==>
      r.value.Hash? && DistinctKeys(r.value.entries) && |r.value.entries| <= |d.entries|
    ensures r.Failure? ==> r.error.InterpolationLoop? && IsLoop(r.error.keys, scope, extra)
    decreases d, 1
  {
    match d
    case Str(_) => ParseString(d, scope, extra)
    case Arr(xs) =>
      (match ParseAll(xs, scope, extra)
       case Success(ys) => Success(Arr(ys))
       case Failure(e) => Failure(e))
    case Hash(_) =>
      (match ParseEntries(d, 0, [], scope, extra)
       case Success(es) => Success(Hash(es))
       case Failure(e) => Failure(e))
    case _ => Success(d)
  }

  /** parse_answer over each element of an array, in order. */
  function ParseAll(xs: seq<Data>, scope: Scope, extra: Scope): (r: Result<seq<Data>>)
    ensures r.Success? ==> |r.value| == |xs|
    ensures r.Success? ==> forall i :: 0 <= i < |xs| ==> ParseAnswer(xs[i], scope, extra) == Success(r.value[i])
    ensures r.Failure? ==> r.error.InterpolationLoop? && IsLoop(r.error.keys, scope, extra)
    decreases xs
  {
    if xs == [] then Success([])
    else
      match ParseAnswer(xs[0], scope, extra)
      case Failure(e) => Failure(e)
      case Success(y) =>
        match ParseAll(xs[1..], scope, extra)
        case Failure(e) => Failure(e)
        case Success(ys) =>
          var r := [y] + ys;
          assert forall i :: 1 <= i < |xs| ==> xs[i] == xs[1..][i - 1] && r[i] == ys[i - 1];
          Success(r)
  }

  /** parse_answer on an array: each element parsed in place; the array
      fails exactly when one of its elements does. */
  lemma ParseArray(xs: seq<Data>, scope: Scope, extra: Scope)
    ensures var r := ParseAnswer(Arr(xs), scope, extra);
      && (r.Success? ==> r.value.Arr? && |r.value.elems| == |xs|)
      && (r.Success? ==> forall i :: 0 <= i < |xs| ==> ParseAnswer(xs[i], scope, extra) == Success(r.value.elems[i]))
      && (r.Failure? <==> exists i :: 0 <= i < |xs| && ParseAnswer(xs[i], scope, extra).Failure?)
  {
    ParseAllFails(xs, scope, extra);
  }

  lemma {:induction false} ParseAllFails(xs: seq<Data>, scope: Scope, extra: Scope)
    ensures ParseAll(xs, scope, extra).Failure? ==> exists i :: 0 <= i < |xs| && ParseAnswer(xs[i], scope, extra).Failure?
    decreases xs
  {
    if xs != [] && ParseAnswer(xs[0], scope, extra).Success? && ParseAll(xs, scope, extra).Failure? {
      ParseAllFails(xs[1..], scope, extra);
      var i :| 0 <= i < |xs[1..]| && ParseAnswer(xs[1..][i], scope, extra).Failure?;
      assert xs[1..][i] == xs[i + 1];
    }
  }

  /** Builds the parsed hash from the entries of h from position i on, adding
      each parsed key and value to acc as `answer[key] = value` does: a key
      that two entries parse to keeps its first position and the later value. */
  function ParseEntries(h: Data, i: nat, acc: seq<Entry>, scope: Scope, extra: Scope): (r: Result<seq<Entry>>)
    requires h.Hash? && i <= |h.entries| && DistinctKeys(acc)
    ensures r.Success? ==> DistinctKeys(r.value) && KeysOf(acc) <= KeysOf(r.value)
    ensures r.Success? ==> |r.value| <= |acc| + |h.entries| - i
    ensures r.Success? ==> KeysParsedInto(h, i, KeysOf(r.value), scope, extra)
    ensures r.Failure? ==> r.error.InterpolationLoop? && IsLoop(r.error.keys, scope, extra)
    decreases h, 0, |h.entries| - i, 2
  {
    if i == |h.entries| then Success(acc)
    else
      var e := h.entries[i];
      assert e in h.entries;
      match ParseAnswer(e.key, scope, extra)
      case Failure(err) => Failure(err)
      case Success(k) =>
        match ParseAnswer(e.val, scope, extra)
        case Failure(err) => Failure(err)
        case Success(v) =>
          PutKeepsDistinct(acc, k, v);
          var next := Put(acc, k, v);
          var r := ParseEntries(h, i + 1, next, scope, extra);
          if r.Failure? then r
          else
            PrefixStep(KeysOf(acc), KeysOf(next), KeysOf(r.value), k);
            KeysParsedStep(h, i, KeysOf(r.value), scope, extra);
            r
  }

  /** Every key of h from position i on parses, and what it parses to is in ks. */
  ghost predicate KeysParsedInto(h: Data, i: nat, ks: seq<Data>, scope: Scope, extra: Scope)
    requires h.Hash?
    decreases h, 0, |h.entries| - i, 0
  {
    forall j :: i <= j < |h.entries| ==>
      ParseAnswer(h.entries[j].key, scope, extra).Success? &&
      ParseAnswer(h.entries[j].key, scope, extra).value in ks
  }

  lemma KeysParsedStep(h: Data, i: nat, ks: seq<Data>, scope: Scope, extra: Scope)
    requires h.Hash? && i < |h.entries|
    requires KeysParsedInto(h, i + 1, ks, scope, extra)
    requires ParseAnswer(h.entries[i].key, scope, extra).Success?
    requires ParseAnswer(h.entries[i].key, scope, extra).value in ks
    ensures KeysParsedInto(h, i, ks, scope, extra)
    decreases h, 0, |h.entries| - i, 1
  {
  }

  /** Keys kn that extend ka by k (when new), and are a prefix of ks, make
      ka a prefix of ks that holds k. */
  lemma PrefixStep(ka: seq<Data>, kn: seq<Data>, ks: seq<Data>, k: Data)
    requires kn == if k in ka then ka else ka + [k]
    requires kn <= ks
    ensures ka <= ks && k in ks
  {
    assert ka == kn[..|ka|];
    if k in ka {
      var n :| 0 <= n < |ka| && ka[n] == k;
      assert ks[n] == k;
    } else {
      assert ks[|ka|] == k;
    }
  }

  /** The entries of h from position i on, each key and value parsed, in
      order and before any of them is stored; the first loop met fails them. */
  function ParsedPairs(h: Data, i: nat, scope: Scope, extra: Scope): (r: Result<seq<Entry>>)
    requires h.Hash? && i <= |h.entries|
    ensures r.Success? ==> |r.value| == |h.entries| - i
    ensures r.Success? ==> forall j :: 0 <= j < |r.value| ==>
      && ParseAnswer(h.entries[i + j].key, scope, extra) == Success(r.value[j].key)
      && ParseAnswer(h.entries[i + j].val, scope, extra) == Success(r.value[j].val)
    decreases |h.entries| - i
  {
    if i == |h.entries| then Success([])
    else
      var e := h.entries[i];
      match ParseAnswer(e.key, scope, extra)
      case Failure(err) => Failure(err)
      case Success(k) =>
        match ParseAnswer(e.val, scope, extra)
        case Failure(err) => Failure(err)
        case Success(v) =>
          match ParsedPairs(h, i + 1, scope, extra)
          case Failure(err) => Failure(err)
          case Success(ps) =>
            var r := [Entry(k, v)] + ps;
            assert forall j :: 1 <= j < |r| ==> r[j] == ps[j - 1];
            Success(r)
  }

  /** Parsing the entries from i on into acc is merging their parsed pairs
      into acc, one `answer[key] = value` at a time. */
  lemma {:induction false} ParseEntriesIsMerge(h: Data, i: nat, acc: seq<Entry>, scope: Scope, extra: Scope)
    requires h.Hash? && i <= |h.entries| && DistinctKeys(acc)
    ensures ParseEntries(h, i, acc, scope, extra) ==
      match ParsedPairs(h, i, scope, extra)
      case Success(ps) => Success(ShallowMerge(acc, ps))
      case Failure(e) => Failure(e)
    decreases |h.entries| - i
  {
    if i < |h.entries| {
      var e := h.entries[i];
      var pk := ParseAnswer(e.key, scope, extra);
      var pv := ParseAnswer(e.val, scope, extra);
      if pk.Success? && pv.Success? {
        var k, v := pk.value, pv.value;
        PutKeepsDistinct(acc, k, v);
        ParseEntriesIsMerge(h, i + 1, Put(acc, k, v), scope, extra);
        var rest := ParsedPairs(h, i + 1, scope, extra);
        if rest.Success? {
          var ps := [Entry(k, v)] + rest.value;
          assert ps[0] == Entry(k, v) && ps[1..] == rest.value;
        }
      }
    }
  }

  /** parse_answer on a hash: its entries are parsed in order, then stored
      one by one with `answer[key] = value`. So the keys are the parsed keys,
      each once, where it first occurs; a key reads the value of the last
      entry whose key parses to it; and the first loop met fails the hash. */
  lemma ParseHash(h: Data, scope: Scope, extra: Scope)
    requires h.Hash?
    ensures var r := ParseAnswer(h, scope, extra);
      var ps := ParsedPairs(h, 0, scope, extra);
      && (r.Failure? <==> ps.Failure?)
      && (ps.Failure? ==> r == Failure(ps.error))
      && (r.Success? ==> r.value.Hash? && KeysOf(r.value.entries) == Uniq(KeysOf(ps.value)))
      && (r.Success? ==> forall k :: Get(r.value.entries, k) == LastGet(ps.value, k))
      && (r.Success? ==> forall j :: 0 <= j < |ps.value| && (forall m :: j < m < |ps.value| ==> ps.value[m].key != ps.value[j].key) ==>
            Get(r.value.entries, ps.value[j].key) == Some(ps.value[j].val))
  {
    var r := ParseAnswer(h, scope, extra);
    var ps := ParsedPairs(h, 0, scope, extra);
    assert r == match ParseEntries(h, 0, [], scope, extra)
      case Success(es) => Success(Hash(es))
      case Failure(e) => Failure(e);
    ParseEntriesIsMerge(h, 0, [], scope, extra);
    if ps.Success? {
      StoredKeys(ps.value);
      StoredValues(ps.value);
    }
  }

  /** The entries of h from position i on parse to ps, entry by entry. */
  lemma {:induction false} ParsedPairsFrom(h: Data, i: nat, ps: seq<Entry>, scope: Scope, extra: Scope)
    requires h.Hash? && i <= |h.entries| && |ps| == |h.entries|
    requires forall j :: 0 <= j < |ps| ==>
      ParseAnswer(h.entries[j].key, scope, extra) == Success(ps[j].key) &&
      ParseAnswer(h.entries[j].val, scope, extra) == Success(ps[j].val)
    ensures ParsedPairs(h, i, scope, extra) == Success(ps[i..])
    decreases |h.entries| - i
  {
    if i < |h.entries| {
      ParsedPairsFrom(h, i + 1, ps, scope, extra);
      var e := h.entries[i];
      assert ParseAnswer(e.key, scope, extra) == Success(ps[i].key);
      assert ParseAnswer(e.val, scope, extra) == Success(ps[i].val);
      assert ps[i..] == [Entry(ps[i].key, ps[i].val)] + ps[i + 1..];
    } else {
      assert ps[i..] == [];
    }
  }

  /** A hash whose entries parse, one by one, to entries with distinct keys
      parses to exactly those entries, in the same order. */
  lemma ParseHashEach(h: Data, ps: seq<Entry>, scope: Scope, extra: Scope)
    requires h.Hash? && |ps| == |h.entries| && DistinctKeys(ps)
    requires forall j :: 0 <= j < |ps| ==>
      ParseAnswer(h.entries[j].key, scope, extra) == Success(ps[j].key) &&
      ParseAnswer(h.entries[j].val, scope, extra) == Success(ps[j].val)
    ensures ParseAnswer(h, scope, extra) == Success(Hash(ps))
  {
    ParsedPairsFrom(h, 0, ps, scope, extra);
    assert ps[0..] == ps && [] + ps == ps;
    ParseEntriesIsMerge(h, 0, [], scope, extra);
    ShallowMergeDisjoint([], ps);
  }

  /** An array whose elements parse, one by one, to ys parses to ys. */
  lemma {:induction false} ParseArrayEach(xs: seq<Data>, ys: seq<Data>, scope: Scope, extra: Scope)
    requires |ys| == |xs|
    requires forall i :: 0 <= i < |xs| ==> ParseAnswer(xs[i], scope, extra) == Success(ys[i])
    ensures ParseAll(xs, scope, extra) == Success(ys)
    ensures ParseAnswer(Arr(xs), scope, extra) == Success(Arr(ys))
    decreases xs
  {
    if xs != [] {
      ParseArrayEach(xs[1..], ys[1..], scope, extra);
      assert ys == [ys[0]] + ys[1..];
    }
  }

  /** Pairs stored one by one into an empty hash keep each key once, where
      it first occurs. */
  lemma StoredKeys(ps: seq<Entry>)
    ensures KeysOf(ShallowMerge([], ps)) == Uniq(KeysOf(ps))
  {
    ShallowMergeKeys([], ps);
    assert KeysOf([]) + KeysOf(ps) == KeysOf(ps);
  }

  /** Pairs stored one by one into an empty hash: a key holds the value of
      the last pair with that key. */
  lemma StoredValues(ps: seq<Entry>)
    ensures forall k :: Get(ShallowMerge([], ps), k) == LastGet(ps, k)
    ensures forall j :: 0 <= j < |ps| && (forall m :: j < m < |ps| ==> ps[m].key != ps[j].key) ==>
      Get(ShallowMerge([], ps), ps[j].key) == Some(ps[j].val)
  {
    forall k ensures Get(ShallowMerge([], ps), k) == LastGet(ps, k) {
      ShallowMergeLast([], ps, k);
    }
    forall j | 0 <= j < |ps| && (forall m :: j < m < |ps| ==> ps[m].key != ps[j].key) {
      LastGetLast(ps, j);
    }
  }

  // ---------------------------------------------------------------------------
  // Answers without anything to interpolate

  /** An answer with no token in any of its strings and no repeated hash key. */
  ghost predicate Plain(d: Data)
    decreases d, 1
  {
    match d
    case Str(s) => NoTokens(s)
    case Arr(xs) => forall i :: 0 <= i < |xs| ==> Plain(xs[i])
    case Hash(es) => DistinctKeys(es) && PlainEntries(d, 0)
    case _ => true
  }

  ghost predicate PlainEntries(h: Data, i: nat)
    requires h.Hash? && i <= |h.entries|
    decreases h, 0, |h.entries| - i
  {
    i < |h.entries| ==>
      var e := h.entries[i];
      assert e in h.entries;
      Plain(e.key) && Plain(e.val) && PlainEntries(h, i + 1)
  }

  /** parse_answer leaves an answer with nothing to interpolate exactly as it
      was, whatever the scope. */
  lemma {:induction false} ParseAnswerPlain(d: Data, scope: Scope, extra: Scope)
    requires Plain(d)
    ensures ParseAnswer(d, scope, extra) == Success(d)
    decreases d, 1
  {
    match d
    case Str(s) => InterpolationFacts.ParseStringPlain(s, scope, extra);
    case Arr(xs) => ParseAllPlain(xs, scope, extra);
    case Hash(es) =>
      ParseEntriesPlain(d, 0, scope, extra);
      assert es[..0] == [];
    case _ =>
  }

  lemma {:induction false} ParseAllPlain(xs: seq<Data>, scope: Scope, extra: Scope)
    requires forall i :: 0 <= i < |xs| ==> Plain(xs[i])
    ensures ParseAll(xs, scope, extra) == Success(xs)
    decreases xs
  {
    if xs != [] {
      ParseAnswerPlain(xs[0], scope, extra);
      ParseAllPlain(xs[1..], scope, extra);
      assert [xs[0]] + xs[1..] == xs;
    }
  }

  lemma {:induction false} ParseEntriesPlain(h: Data, i: nat, scope: Scope, extra: Scope)
    requires h.Hash? && i <= |h.entries| && DistinctKeys(h.entries) && PlainEntries(h, i)
    ensures DistinctKeys(h.entries[..i])
    ensures ParseEntries(h, i, h.entries[..i], scope, extra) == Success(h.entries)
    decreases h, 0, |h.entries| - i
  {
    DistinctPrefix(h.entries, i);
    if i == |h.entries| {
      assert h.entries[..i] == h.entries;
    } else {
      PlainEntriesStep(h, i, scope, extra);
      ParseEntriesPlain(h, i + 1, scope, extra);
    }
  }

  lemma DistinctPrefix(es: seq<Entry>, i: nat)
    requires i <= |es| && DistinctKeys(es)
    ensures DistinctKeys(es[..i])
  {
    assert KeysOf(es[..i]) == KeysOf(es)[..i];
  }

  /** One plain entry is parsed to itself and appended. */
  lemma PlainEntriesStep(h: Data, i: nat, scope: Scope, extra: Scope)
    requires h.Hash? && i < |h.entries| && DistinctKeys(h.entries) && PlainEntries(h, i)
    requires DistinctKeys(h.entries[..i])
    ensures PlainEntries(h, i + 1)
    ensures ParseEntries(h, i, h.entries[..i], scope, extra) == ParseEntries(h, i + 1, h.entries[..i + 1], scope, extra)
    decreases h, 0, |h.entries| - i - 1
  {
    var es := h.entries;
    var acc := es[..i];
    var e := es[i];
    assert e in es;
    ParseAnswerPlain(e.key, scope, extra);
    ParseAnswerPlain(e.val, scope, extra);
    assert e.key !in KeysOf(acc) by {
      assert KeysOf(acc) == KeysOf(es)[..i];
      assert KeysOf(es)[i] == e.key;
    }
    assert acc + [e] == es[..i + 1];
    PutFresh(acc, e.key, e.val);
  }

  /** A hash of one entry parses to the entry of its parsed key and value. */
  lemma ParseOneEntry(kd: Data, vd: Data, k: Data, v: Data, scope: Scope, extra: Scope)
    requires ParseAnswer(kd, scope, extra) == Success(k) && ParseAnswer(vd, scope, extra) == Success(v)
    ensures ParseAnswer(Hash([Entry(kd, vd)]), scope, extra) == Success(Hash([Entry(k, v)]))
  {
    var h := Hash([Entry(kd, vd)]);
    assert h.entries[0] == Entry(kd, vd);
    PutFresh([], k, v);
    assert [] + [Entry(k, v)] == [Entry(k, v)];
    assert ParseEntries(h, 1, [Entry(k, v)], scope, extra) == Success([Entry(k, v)]);
    assert ParseEntries(h, 0, [], scope, extra) == Success([Entry(k, v)]);
  }

  // ---------------------------------------------------------------------------
  // resolve_answer

  /** How the answers of several backends and levels are combined: nil (the
      caller gave none), :priority, :array or :hash. */
  datatype ResolutionType = Unset | Priority | ArrayResolution | HashResolution

  /** No element is itself an array. */
  predicate Flat(xs: seq<Data>) {
    forall i :: 0 <= i < |xs| ==> !xs[i].Arr?
  }

  /** Ruby's `[d].flatten`: the non-array values inside d, depth first, left
      to right. */
  function Flatten(d: Data): (r: seq<Data>)
    ensures Flat(r)
    decreases d, 1
  {
    if d.Arr? then FlattenAll(d.elems) else [d]
  }

  function FlattenAll(xs: seq<Data>): (r: seq<Data>)
    ensures Flat(r)
    decreases xs
  {
    if xs == [] then [] else Flatten(xs[0]) + FlattenAll(xs[1..])
  }

  /** Flattening runs left to right: the values of xs come first, then those of ys. */
  lemma {:induction false} FlattenAllAppend(xs: seq<Data>, ys: seq<Data>)
    ensures FlattenAll(xs + ys) == FlattenAll(xs) + FlattenAll(ys)
    decreases |xs|
  {
    if xs == [] {
      assert xs + ys == ys;
    } else {
      assert (xs + ys)[0] == xs[0] && (xs + ys)[1..] == xs[1..] + ys;
      FlattenAllAppend(xs[1..], ys);
    }
  }

  /** Each element contributes its own flattening, in place: a value that is
      not an array contributes itself. */
  lemma FlattenElement(x: Data)
    ensures FlattenAll([x]) == Flatten(x)
    ensures !x.Arr? ==> Flatten(x) == [x]
  {
  }

  /** x is one of the non-array values found inside d, at any depth. */
  ghost predicate Occurs(x: Data, d: Data)
    decreases d
  {
    if d.Arr? then exists i :: 0 <= i < |d.elems| && Occurs(x, d.elems[i])
    else x == d
  }

  /** Flattening keeps exactly the values found inside the array. */
  lemma {:induction false} FlattenKeepsLeaves(x: Data, d: Data)
    ensures x in Flatten(d) <==> Occurs(x, d)
    decreases d, 1
  {
    if d.Arr? {
      FlattenAllKeepsLeaves(x, d.elems);
    }
  }

  lemma {:induction false} FlattenAllKeepsLeaves(x: Data, xs: seq<Data>)
    ensures x in FlattenAll(xs) <==> exists i :: 0 <= i < |xs| && Occurs(x, xs[i])
    decreases xs
  {
    if xs != [] {
      FlattenKeepsLeaves(x, xs[0]);
      FlattenAllKeepsLeaves(x, xs[1..]);
      if exists i :: 0 <= i < |xs| && Occurs(x, xs[i]) {
        var i :| 0 <= i < |xs| && Occurs(x, xs[i]);
        if i > 0 { assert xs[1..][i - 1] == xs[i]; }
      }
      if exists i :: 0 <= i < |xs[1..]| && Occurs(x, xs[1..][i]) {
        var i :| 0 <= i < |xs[1..]| && Occurs(x, xs[1..][i]);
        assert xs[i + 1] == xs[1..][i];
      }
    }
  }

  /** An array that holds no array flattens to itself. */
  lemma {:induction false} FlattenFlat(xs: seq<Data>)
    requires Flat(xs)
    ensures FlattenAll(xs) == xs
    decreases xs
  {
    if xs != [] {
      FlattenFlat(xs[1..]);
      assert [xs[0]] + xs[1..] == xs;
    }
  }

  /** Position of the first occurrence of x. */
  function IndexOf<T(==)>(xs: seq<T>, x: T): (n: nat)
    requires x in xs
    ensures n < |xs| && xs[n] == x && x !in xs[..n]
  {
    if xs[0] == x then 0
    else
      var n := 1 + IndexOf(xs[1..], x);
      assert xs[..n] == [xs[0]] + xs[1..][..n - 1];
      n
  }

  /** Ruby's Array#uniq: each value once, at the place it first occurs. */
  function Uniq(xs: seq<Data>): (r: seq<Data>)
    ensures NoDup(r)
    ensures forall x :: x in r <==> x in xs
    ensures forall i, j :: 0 <= i < j < |r| ==> IndexOf(xs, r[i]) < IndexOf(xs, r[j])
    decreases |xs|
  {
    if xs == [] then []
    else
      var init, last := xs[..|xs| - 1], xs[|xs| - 1];
      assert xs == init + [last];
      var u := Uniq(init);
      UniqStep(init, last, u);
      if last in u then u else u + [last]
  }

  /** Adding last, unless it is there already, to a uniq of init gives a
      uniq of init + [last]. */
  lemma UniqStep(init: seq<Data>, last: Data, u: seq<Data>)
    requires NoDup(u)
    requires forall x :: x in u <==> x in init
    requires forall i :: 0 <= i < |u| ==> u[i] in init
    requires forall i, j :: 0 <= i < j < |u| ==> IndexOf(init, u[i]) < IndexOf(init, u[j])
    ensures var r := if last in u then u else u + [last];
      && NoDup(r)
      && (forall x :: x in r <==> x in init + [last])
      && (forall i, j :: 0 <= i < j < |r| ==> IndexOf(init + [last], r[i]) < IndexOf(init + [last], r[j]))
  {
    var xs := init + [last];
    assert forall x :: x in init ==> IndexOf(xs, x) == IndexOf(init, x) by {
      forall x | x in init ensures IndexOf(xs, x) == IndexOf(init, x) {
        IndexOfPrefix(init, [last], x);
      }
    }
    if last !in u {
      UniqAppend(init, last, u);
    }
  }

  lemma UniqAppend(init: seq<Data>, last: Data, u: seq<Data>)
    requires last !in init
    requires forall i :: 0 <= i < |u| ==> u[i] in init
    requires forall x :: x in init ==> IndexOf(init + [last], x) == IndexOf(init, x)
    requires forall i, j :: 0 <= i < j < |u| ==> IndexOf(init, u[i]) < IndexOf(init, u[j])
    ensures forall i, j :: 0 <= i < j < |u| + 1 ==> IndexOf(init + [last], (u + [last])[i]) < IndexOf(init + [last], (u + [last])[j])
  {
    var xs := init + [last];
    assert IndexOf(xs, last) == |init| by {
      assert xs[..|init|] == init;
    }
    forall i, j | 0 <= i < j < |u| + 1
      ensures IndexOf(xs, (u + [last])[i]) < IndexOf(xs, (u + [last])[j])
    {
      assert (u + [last])[i] == u[i];
      if j < |u| {
        assert (u + [last])[j] == u[j];
      }
    }
  }

  /** The first occurrence is the only position before which x does not occur. */
  lemma IndexOfUnique<T>(xs: seq<T>, x: T, n: nat)
    requires n < |xs| && xs[n] == x && x !in xs[..n]
    ensures IndexOf(xs, x) == n
  {
    var m := IndexOf(xs, x);
    assert forall p :: 0 <= p < n ==> xs[p] != x by {
      forall p | 0 <= p < n ensures xs[p] != x { assert xs[..n][p] == xs[p]; }
    }
    assert forall p :: 0 <= p < m ==> xs[p] != x by {
      forall p | 0 <= p < m ensures xs[p] != x { assert xs[..m][p] == xs[p]; }
    }
  }

  lemma IndexOfPrefix<T>(xs: seq<T>, ys: seq<T>, x: T)
    requires x in xs
    ensures x in xs + ys && IndexOf(xs + ys, x) == IndexOf(xs, x)
  {
    var n := IndexOf(xs, x);
    var zs := xs + ys;
    assert zs[n] == x;
    assert zs[..n] == xs[..n];
    IndexOfUnique(zs, x, n);
  }

  /** One more value at the end: uniq keeps it only if it is new. */
  lemma UniqSnoc(xs: seq<Data>, y: Data)
    ensures Uniq(xs + [y]) == if y in xs then Uniq(xs) else Uniq(xs) + [y]
  {
  }

  /** A sequence without repetitions is its own uniq. */
  lemma {:induction false} UniqNoDup(xs: seq<Data>)
    requires NoDup(xs)
    ensures Uniq(xs) == xs
    decreases |xs|
  {
    if xs != [] {
      var init := xs[..|xs| - 1];
      UniqNoDup(init);
      assert xs[|xs| - 1] !in init;
      assert init + [xs[|xs| - 1]] == xs;
    }
  }

  /** Every value of a flat sequence's uniq is a flat value. */
  lemma UniqFlat(xs: seq<Data>)
    requires Flat(xs)
    ensures Flat(Uniq(xs))
  {
    var u := Uniq(xs);
    forall i | 0 <= i < |u| ensures !u[i].Arr? {
      assert u[i] in xs;
    }
  }

  /** Backend.resolve_answer: an array lookup's answer is flattened and
      de-duplicated; any other lookup's answer is returned as it is. */
  function ResolveAnswer(answer: Data, rt: ResolutionType): (r: Data)
    ensures rt == ArrayResolution ==> r.Arr? && Flat(r.elems) && NoDup(r.elems)
    ensures rt == ArrayResolution ==> r == Arr(Uniq(Flatten(answer)))
    ensures rt == ArrayResolution ==> forall x :: x in r.elems <==> x in Flatten(answer)
    ensures rt == ArrayResolution ==> forall i, j :: 0 <= i < j < |r.elems| ==>
      IndexOf(Flatten(answer), r.elems[i]) < IndexOf(Flatten(answer), r.elems[j])
    ensures rt != ArrayResolution ==> r == answer
  {
    if rt == ArrayResolution then
      UniqFlat(Flatten(answer));
      Arr(Uniq(Flatten(answer)))
    else answer
  }

  /** The values of an array lookup's answer are exactly the values found
      inside the accumulated answer, each once, in order of first occurrence. */
  lemma ResolveArrayContents(answer: Data, x: Data)
    ensures x in ResolveAnswer(answer, ArrayResolution).elems <==> Occurs(x, answer)
  {
    FlattenKeepsLeaves(x, answer);
  }

  /** Resolving an answer twice is resolving it once. */
  lemma ResolveIdempotent(answer: Data, rt: ResolutionType)
    ensures ResolveAnswer(ResolveAnswer(answer, rt), rt) == ResolveAnswer(answer, rt)
  {
    if rt == ArrayResolution {
      var u := Uniq(Flatten(answer));
      UniqFlat(Flatten(answer));
      FlattenFlat(u);
      UniqNoDup(u);
    }
  }

  // ---------------------------------------------------------------------------
  // merge_answer

  /** The configured :merge_behavior. */
  datatype MergeBehavior = Native | Deep | Deeper

  /** The deep_merge library's two entry points, `left.deep_merge(right)` and
      `left.deep_merge!(right)`. Their mechanics are the library's own. */
  datatype DeepMergeLib = DeepMergeLib(
    deepMerge: (seq<Entry>, seq<Entry>) -> seq<Entry>,
    deepMergeBang: (seq<Entry>, seq<Entry>) -> seq<Entry>)

  /** Ruby's `left.merge(right)`: every key of right is set on a copy of left,
      so right's value wins where both have the key; the keys of left keep
      their places and right's new keys follow in right's order. */
  function ShallowMerge(left: seq<Entry>, right: seq<Entry>): (r: seq<Entry>)
    ensures forall k :: k in KeysOf(r) <==> k in KeysOf(left) || k in KeysOf(right)
    ensures KeysOf(left) <= KeysOf(r)
    decreases |right|
  {
    if right == [] then left
    else
      var e := right[0];
      assert KeysOf(right) == [e.key] + KeysOf(right[1..]);
      ShallowMerge(Put(left, e.key, e.val), right[1..])
  }

  lemma {:induction false} ShallowMergeDistinct(left: seq<Entry>, right: seq<Entry>)
    requires DistinctKeys(left)
    ensures DistinctKeys(ShallowMerge(left, right))
    decreases |right|
  {
    if right != [] {
      PutKeepsDistinct(left, right[0].key, right[0].val);
      ShallowMergeDistinct(Put(left, right[0].key, right[0].val), right[1..]);
    }
  }

  /** Where both hashes have a key, right's value wins; elsewhere the value is
      the one hash's that has the key. */
  lemma {:induction false} ShallowMergeGet(left: seq<Entry>, right: seq<Entry>, k: Data)
    requires DistinctKeys(right)
    ensures Get(ShallowMerge(left, right), k) == if k in KeysOf(right) then Get(right, k) else Get(left, k)
    decreases |right|
  {
    if right != [] {
      var e := right[0];
      var rest := right[1..];
      assert KeysOf(right) == [e.key] + KeysOf(rest);
      assert KeysOf(rest) == KeysOf(right)[1..];
      ShallowMergeGet(Put(left, e.key, e.val), rest, k);
      PutGet(left, e.key, e.val, k);
      if k == e.key {
        assert k !in KeysOf(rest);
      }
    }
  }

  /** Where right has a key, possibly more than once, its last value wins;
      elsewhere left's value stays. */
  lemma {:induction false} ShallowMergeLast(left: seq<Entry>, right: seq<Entry>, k: Data)
    ensures Get(ShallowMerge(left, right), k) == if k in KeysOf(right) then LastGet(right, k) else Get(left, k)
    decreases |right|
  {
    if right != [] {
      var e := right[0];
      var rest := right[1..];
      assert KeysOf(right) == [e.key] + KeysOf(rest);
      ShallowMergeLast(Put(left, e.key, e.val), rest, k);
      PutGet(left, e.key, e.val, k);
    }
  }

  /** The keys of a merge are the keys of left, then right's new keys, each
      once, in the order they first occur. */
  lemma {:induction false} ShallowMergeKeys(left: seq<Entry>, right: seq<Entry>)
    requires DistinctKeys(left)
    ensures KeysOf(ShallowMerge(left, right)) == Uniq(KeysOf(left) + KeysOf(right))
    decreases |right|
  {
    var kl := KeysOf(left);
    if right == [] {
      assert kl + KeysOf(right) == kl;
      UniqNoDup(kl);
    } else {
      var e := right[0];
      var next := Put(left, e.key, e.val);
      PutKeepsDistinct(left, e.key, e.val);
      ShallowMergeKeys(next, right[1..]);
      MergeKeysStep(left, right);
    }
  }

  /** One step of ShallowMergeKeys: storing right[0] first, then the rest. */
  lemma MergeKeysStep(left: seq<Entry>, right: seq<Entry>)
    requires DistinctKeys(left) && right != []
    requires var next := Put(left, right[0].key, right[0].val);
      KeysOf(ShallowMerge(next, right[1..])) == Uniq(KeysOf(next) + KeysOf(right[1..]))
    ensures KeysOf(ShallowMerge(left, right)) == Uniq(KeysOf(left) + KeysOf(right))
  {
    var kl, e, rest := KeysOf(left), right[0], right[1..];
    calc {
      KeysOf(ShallowMerge(left, right));
      KeysOf(ShallowMerge(Put(left, e.key, e.val), rest));
      Uniq(KeysOf(Put(left, e.key, e.val)) + KeysOf(rest));
      { PutKeysUniq(left, e.key, e.val); }
      Uniq(Uniq(kl + [e.key]) + KeysOf(rest));
      { UniqOfUniq(kl + [e.key], KeysOf(rest)); }
      Uniq(kl + [e.key] + KeysOf(rest));
      { KeysOfFirst(right);
        ConcatAssoc(kl, [e.key], KeysOf(rest)); }
      Uniq(kl + KeysOf(right));
    }
  }

  lemma KeysOfFirst(es: seq<Entry>)
    requires es != []
    ensures KeysOf(es) == [es[0].key] + KeysOf(es[1..])
  {
    KeysOfCons(es[0], es[1..]);
    assert [es[0]] + es[1..] == es;
  }

  /** The keys after `hash[k] = v` are the old keys and k, each once. */
  lemma PutKeysUniq(es: seq<Entry>, k: Data, v: Data)
    requires DistinctKeys(es)
    ensures KeysOf(Put(es, k, v)) == Uniq(KeysOf(es) + [k])
  {
    UniqSnoc(KeysOf(es), k);
    UniqNoDup(KeysOf(es));
  }

  /** Taking the uniq of a prefix first changes nothing. */
  lemma {:induction false} UniqOfUniq(xs: seq<Data>, ys: seq<Data>)
    ensures Uniq(Uniq(xs) + ys) == Uniq(xs + ys)
    decreases |ys|
  {
    var u := Uniq(xs);
    if ys == [] {
      assert u + ys == u && xs + ys == xs;
      UniqNoDup(u);
    } else {
      var init, y := ys[..|ys| - 1], ys[|ys| - 1];
      assert ys == init + [y];
      calc {
        Uniq(u + ys);
        { ConcatAssoc(u, init, [y]); }
        Uniq((u + init) + [y]);
        { UniqSnoc(u + init, y); }
        if y in u + init then Uniq(u + init) else Uniq(u + init) + [y];
        { UniqOfUniq(xs, init); UniqPrefixMembers(xs, init, y); }
        if y in xs + init then Uniq(xs + init) else Uniq(xs + init) + [y];
        { UniqSnoc(xs + init, y); }
        Uniq((xs + init) + [y]);
        { ConcatAssoc(xs, init, [y]); }
        Uniq(xs + ys);
      }
    }
  }

  lemma UniqPrefixMembers(xs: seq<Data>, ys: seq<Data>, y: Data)
    ensures y in Uniq(xs) + ys <==> y in xs + ys
  {
  }

  /** r holds right's value for each key of right and left's for each other key. */
  ghost predicate RightWins(r: seq<Entry>, left: seq<Entry>, right: seq<Entry>) {
    forall k :: Get(r, k) == if k in KeysOf(right) then Get(right, k) else Get(left, k)
  }

  /** Backend.merge_answer: dispatches on the configured merge behaviour. */
  function MergeAnswer(left: seq<Entry>, right: seq<Entry>, behavior: MergeBehavior, lib: DeepMergeLib): (r: seq<Entry>)
    ensures behavior == Native && DistinctKeys(right) ==> RightWins(r, left, right)
    ensures behavior == Native ==> forall k :: k in KeysOf(r) <==> k in KeysOf(left) || k in KeysOf(right)
    ensures behavior == Native && DistinctKeys(left) ==> DistinctKeys(r)
    ensures behavior == Deep ==> r == lib.deepMerge(left, right)
    ensures behavior == Deeper ==> r == lib.deepMergeBang(left, right)
  {
    match behavior
    case Native =>
      assert DistinctKeys(right) ==> RightWins(ShallowMerge(left, right), left, right) by {
        if DistinctKeys(right) {
          forall k ensures Get(ShallowMerge(left, right), k) ==
              if k in KeysOf(right) then Get(right, k) else Get(left, k) {
            ShallowMergeGet(left, right, k);
          }
        }
      }
      assert DistinctKeys(left) ==> DistinctKeys(ShallowMerge(left, right)) by {
        if DistinctKeys(left) { ShallowMergeDistinct(left, right); }
      }
      ShallowMerge(left, right)
    case Deep => lib.deepMerge(left, right)
    case Deeper => lib.deepMergeBang(left, right)
  }

  /** Merging hashes that share no key, neither hash repeating one, keeps
      every entry of both, left's first. */
  lemma {:induction false} ShallowMergeDisjoint(left: seq<Entry>, right: seq<Entry>)
    requires DistinctKeys(left + right)
    ensures ShallowMerge(left, right) == left + right
    decreases |right|
  {
    if right != [] {
      var e := right[0];
      assert left + [e] + right[1..] == left + right;
      calc {
        ShallowMerge(left, right);
        ShallowMerge(Put(left, e.key, e.val), right[1..]);
        { FreshKeyAppended(left, right); }
        ShallowMerge(left + [e], right[1..]);
        { ShallowMergeDisjoint(left + [e], right[1..]); }
        left + [e] + right[1..];
      }
    }
  }

  /** The first key of right is new to left, so putting it appends it. */
  lemma FreshKeyAppended(left: seq<Entry>, right: seq<Entry>)
    requires right != [] && DistinctKeys(left + right)
    ensures Put(left, right[0].key, right[0].val) == left + [right[0]]
  {
    var e := right[0];
    var all := left + right;
    assert KeysOf(all)[|left|] == e.key;
    assert e.key !in KeysOf(left) by {
      forall i | 0 <= i < |left| ensures KeysOf(left)[i] != e.key {
        assert KeysOf(left)[i] == KeysOf(all)[i];
      }
    }
    PutFresh(left, e.key, e.val);
  }
}
