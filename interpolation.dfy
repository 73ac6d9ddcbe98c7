/** Hiera's `%{key}` interpolation (Backend.parse_string). Each token is
    replaced by the value of its key, looked up exactly as written: in the scope
    first, then in extra_data, where nil and :undefined mean "no value" and false
    is a value. A value that is a string is interpolated in turn; the keys being
    followed form a chain, and a key that comes back around in its own chain is
    an interpolation loop. */
module Interpolation {
  import opened Values

  type Scope = map<string, Data>

  // ---------------------------------------------------------------------------
  // Tokens

  /** A string cut at its tokens, as the pattern `%\{([^\}]*)\}` finds them
      from left to right. */
  datatype Segment = Lit(text: string) | Var(name: string)

  /** The first '}' at or after position i. */
  function CloseBrace(s: string, i: nat): (r: Option<nat>)
    requires i <= |s|
    ensures r.Some? ==> i <= r.value < |s| && s[r.value] == '}' && '}' !in s[i..r.value]
    ensures r.None? ==> '}' !in s[i..]
    decreases |s| - i
  {
    if i == |s| then None
    else if s[i] == '}' then Some(i)
    else
      var r := CloseBrace(s, i + 1);
      assert r.Some? ==> s[i..r.value] == [s[i]] + s[i + 1..r.value];
      assert r.None? ==> s[i..] == [s[i]] + s[i + 1..];
      r
  }

  /** Token names never contain '}'. */
  ghost predicate NamesClosed(segs: seq<Segment>) {
    forall seg :: seg in segs && seg.Var? ==> '}' !in seg.name
  }

  function Tokenize(s: string): (segs: seq<Segment>)
    ensures NamesClosed(segs)
    decreases |s|
  {
    if s == [] then []
    else if |s| >= 2 && s[0] == '%' && s[1] == '{' && CloseBrace(s, 2).Some? then
      var j := CloseBrace(s, 2).value;
      [Var(s[2..j])] + Tokenize(s[j + 1..])
    else
      AddChar(s[0], Tokenize(s[1..]))
  }

  /** Prepends one literal character, merging it into a leading literal. */
  function AddChar(c: char, segs: seq<Segment>): (r: seq<Segment>)
    ensures forall seg :: seg in r && seg.Var? ==> seg in segs
  {
    if segs != [] && segs[0].Lit? then [Lit([c] + segs[0].text)] + segs[1..]
    else [Lit([c])] + segs
  }

  function Text(seg: Segment): string {
    match seg
    case Lit(t) => t
    case Var(name) => "%{" + name + "}"
  }

  function Untokenize(segs: seq<Segment>): string {
    if segs == [] then [] else Text(segs[0]) + Untokenize(segs[1..])
  }

  /** A string holds no token at all. */
  ghost predicate NoTokens(s: string) {
    forall seg :: seg in Tokenize(s) ==> seg.Lit?
  }

  lemma AddCharText(c: char, segs: seq<Segment>)
    ensures Untokenize(AddChar(c, segs)) == [c] + Untokenize(segs)
  {
    if segs != [] && segs[0].Lit? {
      var t := segs[0].text;
      calc {
        Untokenize(AddChar(c, segs));
        Untokenize([Lit([c] + t)] + segs[1..]);
        { UntokenizeCons(Lit([c] + t), segs[1..]); }
        [c] + t + Untokenize(segs[1..]);
        { UntokenizeCons(segs[0], segs[1..]); assert [segs[0]] + segs[1..] == segs; }
        [c] + Untokenize(segs);
      }
    } else {
      UntokenizeCons(Lit([c]), segs);
    }
  }

  lemma UntokenizeCons(seg: Segment, rest: seq<Segment>)
    ensures Untokenize([seg] + rest) == Text(seg) + Untokenize(rest)
  {
    assert ([seg] + rest)[1..] == rest;
  }

  /** Cutting a string into tokens loses nothing. */
  lemma {:induction false} TokenizeRoundTrip(s: string)
    ensures Untokenize(Tokenize(s)) == s
    decreases |s|
  {
    if s == [] {
    } else if |s| >= 2 && s[0] == '%' && s[1] == '{' && CloseBrace(s, 2).Some? {
      var j := CloseBrace(s, 2).value;
      TokenizeRoundTrip(s[j + 1..]);
      UntokenizeCons(Var(s[2..j]), Tokenize(s[j + 1..]));
      TokenAt(s, j);
    } else {
      TokenizeRoundTrip(s[1..]);
      AddCharText(s[0], Tokenize(s[1..]));
      assert s == [s[0]] + s[1..];
    }
  }

  /** A string that opens with "%{" and has '}' at j is that token followed
      by the rest. */
  lemma TokenAt(s: string, j: nat)
    requires 2 <= j < |s| && s[0] == '%' && s[1] == '{' && s[j] == '}'
    ensures s == "%{" + s[2..j] + "}" + s[j + 1..]
  {
    assert s[..2] == "%{";
    assert s == s[..2] + s[2..j] + [s[j]] + s[j + 1..];
  }

  // ---------------------------------------------------------------------------
  // What a key stands for

  /** The value of a token's key: the scope's unless it is nil or :undefined,
      else extra_data's under the same rule; None when neither has one. The
      key is used exactly as written. */
  function KeyValue(k: string, scope: Scope, extra: Scope): (r: Option<Data>)
    ensures r.Some? ==> !IsNoValue(r.value)
    ensures k in scope && !IsNoValue(scope[k]) ==> r == Some(scope[k])
    ensures (k !in scope || IsNoValue(scope[k])) && r.Some? ==> k in extra && r == Some(extra[k])
    ensures r.None? <==> (k !in scope || IsNoValue(scope[k])) && (k !in extra || IsNoValue(extra[k]))
  {
    if k in scope && !IsNoValue(scope[k]) then Some(scope[k])
    else if k in extra && !IsNoValue(extra[k]) then Some(extra[k])
    else None
  }

  /** The key's value when it is a string, the case that is interpolated in turn. */
  function StrValue(k: string, scope: Scope, extra: Scope): Option<string> {
    match KeyValue(k, scope, extra)
    case Some(Str(t)) => Some(t)
    case _ => None
  }

  ghost predicate Mentions(t: string, k: string) {
    Var(k) in Tokenize(t)
  }

  /** keys is a chain of interpolation: every key has a string value, and each
      one's value holds a token for the next. */
  ghost predicate IsChain(keys: seq<string>, scope: Scope, extra: Scope) {
    && (forall i :: 0 <= i < |keys| ==> StrValue(keys[i], scope, extra).Some?)
    && (forall i :: 0 < i < |keys| ==> Mentions(StrValue(keys[i - 1], scope, extra).value, keys[i]))
  }

  /** keys is a genuine interpolation loop: a chain of distinct keys whose last
      value mentions one of the keys of the chain again. */
  ghost predicate IsLoop(keys: seq<string>, scope: Scope, extra: Scope) {
    && |keys| > 0
    && NoDup(keys)
    && IsChain(keys, scope, extra)
    && exists j :: 0 <= j < |keys| && Mentions(StrValue(keys[|keys| - 1], scope, extra).value, keys[j])
  }

  /** A failure reports a loop whose keys begin with the chain being followed. */
  ghost predicate ReportsLoop(e: Error, chain: seq<string>, scope: Scope, extra: Scope) {
    e.InterpolationLoop? && chain <= e.keys && IsLoop(e.keys, scope, extra)
  }

  /** The tokens of segs come from the value of the chain's last key. */
  ghost predicate DrawnFrom(segs: seq<Segment>, chain: seq<string>, scope: Scope, extra: Scope) {
    chain != [] ==>
      && StrValue(chain[|chain| - 1], scope, extra).Some?
      && forall seg :: seg in segs && seg.Var? ==> seg in Tokenize(StrValue(chain[|chain| - 1], scope, extra).value)
  }

  /** The keys that can still be followed: every key followed has a string
      value, so lies in scope or extra_data, and is never followed twice. */
  ghost function Budget(chain: seq<string>, scope: Scope, extra: Scope): nat {
    |(scope.Keys + extra.Keys) - (set k | k in chain)|
  }

  lemma BudgetShrinks(k: string, chain: seq<string>, scope: Scope, extra: Scope)
    requires k !in chain && (k in scope || k in extra)
    ensures Budget(chain + [k], scope, extra) < Budget(chain, scope, extra)
  {
    var all := scope.Keys + extra.Keys;
    var before := all - (set x | x in chain);
    var after := all - (set x | x in chain + [k]);
    assert (set x | x in chain + [k]) == (set x | x in chain) + {k};
    assert before == after + {k};
  }

  // ---------------------------------------------------------------------------
  // Interpolation

  /** Interpolates the segments left to right while following chain. */
  function Subst(segs: seq<Segment>, chain: seq<string>, scope: Scope, extra: Scope): (r: Result<string>)
    requires NoDup(chain) && IsChain(chain, scope, extra) && DrawnFrom(segs, chain, scope, extra)
    ensures r.Failure? ==> ReportsLoop(r.error, chain, scope, extra)
    ensures r.Failure? && r.error.keys != chain ==> Var(r.error.keys[|chain|]) in segs
    decreases Budget(chain, scope, extra), 2, |segs|
  {
    if segs == [] then Success("")
    else
      var head := match segs[0]
        case Lit(t) => Success(t)
        case Var(k) => assert segs[0] in segs; Resolve(k, chain, scope, extra);
      if head.Failure? then head
      else
        var tail := Subst(segs[1..], chain, scope, extra);
        if tail.Failure? then tail else Success(head.value + tail.value)
  }

  /** The text one token stands for, k being mentioned by the last key of chain. */
  function Resolve(k: string, chain: seq<string>, scope: Scope, extra: Scope): (r: Result<string>)
    requires NoDup(chain) && IsChain(chain, scope, extra)
    requires chain != [] ==>
      StrValue(chain[|chain| - 1], scope, extra).Some? &&
      Mentions(StrValue(chain[|chain| - 1], scope, extra).value, k)
    ensures r.Failure? ==> ReportsLoop(r.error, chain, scope, extra)
    ensures r.Failure? && r.error.keys != chain ==> r.error.keys[|chain|] == k
    decreases Budget(chain, scope, extra), 1, 0
  {
    if k in chain then
      LoopClosed(k, chain, scope, extra);
      Failure(InterpolationLoop(chain))
    else if StrValue(k, scope, extra).Some? then
      Follow(k, chain, scope, extra)
    else
      match KeyValue(k, scope, extra)
      case None => Success("")
      case Some(v) => Success(Render(v))
  }

  /** Interpolates the string value of k, with k added to the chain. */
  function Follow(k: string, chain: seq<string>, scope: Scope, extra: Scope): (r: Result<string>)
    requires NoDup(chain) && IsChain(chain, scope, extra) && k !in chain
    requires StrValue(k, scope, extra).Some?
    requires chain != [] ==>
      StrValue(chain[|chain| - 1], scope, extra).Some? &&
      Mentions(StrValue(chain[|chain| - 1], scope, extra).value, k)
    ensures r.Failure? ==> ReportsLoop(r.error, chain, scope, extra)
    ensures r.Failure? ==> r.error.keys != chain && r.error.keys[|chain|] == k
    decreases Budget(chain, scope, extra), 0, 0
  {
    FollowEnters(k, chain, scope, extra);
    var r := Subst(Tokenize(StrValue(k, scope, extra).value), chain + [k], scope, extra);
    LoopReportExtends(r, k, chain, scope, extra);
    r
  }

  /** What following k needs: the longer chain is still a chain, the value
      of k supplies the tokens, and fewer keys are left to follow. */
  lemma FollowEnters(k: string, chain: seq<string>, scope: Scope, extra: Scope)
    requires NoDup(chain) && IsChain(chain, scope, extra) && k !in chain
    requires StrValue(k, scope, extra).Some?
    requires chain != [] ==>
      StrValue(chain[|chain| - 1], scope, extra).Some? &&
      Mentions(StrValue(chain[|chain| - 1], scope, extra).value, k)
    ensures NoDup(chain + [k]) && IsChain(chain + [k], scope, extra)
    ensures DrawnFrom(Tokenize(StrValue(k, scope, extra).value), chain + [k], scope, extra)
    ensures Budget(chain + [k], scope, extra) < Budget(chain, scope, extra)
  {
    var next := chain + [k];
    assert k in scope || k in extra;
    BudgetShrinks(k, chain, scope, extra);
    ChainExtends(k, chain, scope, extra);
    assert next[|next| - 1] == k;
  }

  lemma LoopReportExtends(r: Result<string>, k: string, chain: seq<string>, scope: Scope, extra: Scope)
    requires r.Failure? ==> ReportsLoop(r.error, chain + [k], scope, extra)
    ensures r.Failure? ==> ReportsLoop(r.error, chain, scope, extra) && r.error.keys != chain && r.error.keys[|chain|] == k
  {
    if r.Failure? {
      assert (chain + [k])[|chain|] == k;
    }
  }

  /** A key met again in its own chain closes a loop. */
  lemma LoopClosed(k: string, chain: seq<string>, scope: Scope, extra: Scope)
    requires NoDup(chain) && IsChain(chain, scope, extra) && k in chain
    requires StrValue(chain[|chain| - 1], scope, extra).Some?
    requires Mentions(StrValue(chain[|chain| - 1], scope, extra).value, k)
    ensures IsLoop(chain, scope, extra)
  {
  }

  /** Following a key mentioned by the chain's last value extends the chain. */
  lemma ChainExtends(k: string, chain: seq<string>, scope: Scope, extra: Scope)
    requires NoDup(chain) && IsChain(chain, scope, extra) && k !in chain
    requires StrValue(k, scope, extra).Some?
    requires chain != [] ==>
      StrValue(chain[|chain| - 1], scope, extra).Some? &&
      Mentions(StrValue(chain[|chain| - 1], scope, extra).value, k)
    ensures NoDup(chain + [k]) && IsChain(chain + [k], scope, extra)
  {
    var next := chain + [k];
    forall i | 0 < i < |next|
      ensures Mentions(StrValue(next[i - 1], scope, extra).value, next[i])
    {
      if i < |chain| { assert next[i - 1] == chain[i - 1] && next[i] == chain[i]; }
    }
  }

  /** Backend.parse_string: interpolates a string; any other value, nil
      included, is returned as it is. */
  function ParseString(d: Data, scope: Scope, extra: Scope): (r: Result<Data>)
    ensures !d.Str? ==> r == Success(d)
    ensures d.Str? && r.Success? ==> r.value.Str?
    ensures r.Failure? ==> r.error.InterpolationLoop? && IsLoop(r.error.keys, scope, extra)
    ensures d.Str? && r.Failure? ==> Var(r.error.keys[0]) in Tokenize(d.s)
  {
    match d
    case Str(s) =>
      (match Subst(Tokenize(s), [], scope, extra)
       case Success(t) => Success(Str(t))
       case Failure(e) => Failure(e))
    case _ => Success(d)
  }
}

/** Properties of Backend.parse_string. */
module InterpolationFacts {
  import opened Values
  import opened Interpolation

  function LitSeg(x: string): seq<Segment> {
    if x == [] then [] else [Lit(x)]
  }

  // ---------------------------------------------------------------------------
  // How particular strings are cut into tokens

  lemma {:induction false} TokenizePlain(p: string)
    requires '%' !in p
    ensures Tokenize(p) == LitSeg(p)
    decreases |p|
  {
    if p != [] {
      assert p[0] != '%';
      var rest := p[1..];
      assert '%' !in rest by {
        forall m | 0 <= m < |rest| ensures rest[m] != '%' { assert rest[m] == p[m + 1]; }
      }
      TokenizePlain(rest);
      assert Tokenize(p) == AddChar(p[0], LitSeg(rest));
      assert p == [p[0]] + rest;
      if rest != [] {
        assert LitSeg(rest)[1..] == [];
        assert AddChar(p[0], LitSeg(rest)) == [Lit(p)] + [];
      } else {
        assert p == [p[0]];
        assert AddChar(p[0], []) == [Lit([p[0]])];
      }
    }
  }

  lemma {:induction false} TokenizeLitPrefix(p: string, rest: string)
    requires '%' !in p
    requires Tokenize(rest) == [] || Tokenize(rest)[0].Var?
    ensures Tokenize(p + rest) == LitSeg(p) + Tokenize(rest)
    decreases |p|
  {
    if p == [] {
      assert p + rest == rest;
    } else {
      var s := p + rest;
      assert s[0] == p[0] && s[1..] == p[1..] + rest;
      TokenizeLitPrefix(p[1..], rest);
      var tail := LitSeg(p[1..]) + Tokenize(rest);
      if p[1..] == [] {
        assert p == [p[0]];
      } else {
        assert tail[0] == Lit(p[1..]) && tail[1..] == Tokenize(rest);
        assert [p[0]] + p[1..] == p;
      }
    }
  }

  lemma CloseBraceFinds(s: string, i: nat, j: nat)
    requires i <= j < |s| && s[j] == '}' && '}' !in s[i..j]
    ensures CloseBrace(s, i) == Some(j)
  {
    assert s[i..][j - i] == '}';
    assert forall m :: i <= m < j ==> s[m] != '}' by {
      forall m | i <= m < j ensures s[m] != '}' { assert s[i..j][m - i] == s[m]; }
    }
    var r := CloseBrace(s, i);
    if r.Some? {
      assert r.value <= j by {
        assert forall m :: i <= m < r.value ==> s[m] != '}' by {
          forall m | i <= m < r.value ensures s[m] != '}' { assert s[i..r.value][m - i] == s[m]; }
        }
      }
    }
  }

  lemma TokenizeToken(k: string, q: string)
    requires '}' !in k
    ensures Tokenize("%{" + k + "}" + q) == [Var(k)] + Tokenize(q)
  {
    var s := "%{" + k + "}" + q;
    var j := 2 + |k|;
    assert s[2..j] == k && s[j] == '}' && s[j + 1..] == q;
    CloseBraceFinds(s, 2, j);
  }

  lemma TokenizeOneToken(p: string, k: string, q: string)
    requires '%' !in p && '%' !in q && '}' !in k
    ensures Tokenize(p + "%{" + k + "}" + q) == LitSeg(p) + [Var(k)] + LitSeg(q)
  {
    var rest := "%{" + k + "}" + q;
    var tr := [Var(k)] + LitSeg(q);
    assert Tokenize(rest) == tr by {
      TokenizeToken(k, q);
      TokenizePlain(q);
    }
    calc {
      Tokenize(p + "%{" + k + "}" + q);
      { assert p + "%{" + k + "}" + q == p + rest; }
      Tokenize(p + rest);
      { assert tr[0].Var?; TokenizeLitPrefix(p, rest); }
      LitSeg(p) + tr;
      LitSeg(p) + [Var(k)] + LitSeg(q);
    }
  }

  lemma TokenizeTwoTokens(p: string, k1: string, m: string, k2: string, q: string)
    requires '%' !in p && '%' !in m && '%' !in q && '}' !in k1 && '}' !in k2
    ensures Tokenize(p + "%{" + k1 + "}" + m + "%{" + k2 + "}" + q) ==
      LitSeg(p) + [Var(k1)] + LitSeg(m) + [Var(k2)] + LitSeg(q)
  {
    var rest1 := "%{" + k1 + "}" + (m + "%{" + k2 + "}" + q);
    var t1 := [Var(k1)] + (LitSeg(m) + [Var(k2)] + LitSeg(q));
    TokenizeTokenThenOne(k1, m, k2, q);
    TokenizeLitPrefix(p, rest1);
    ConcatTwoTokens(p, k1, m, k2, q);
    SegmentsTwoTokens(LitSeg(p), k1, LitSeg(m), k2, LitSeg(q));
  }

  lemma TokenizeTokenThenOne(k1: string, m: string, k2: string, q: string)
    requires '%' !in m && '%' !in q && '}' !in k1 && '}' !in k2
    ensures Tokenize("%{" + k1 + "}" + (m + "%{" + k2 + "}" + q)) == [Var(k1)] + (LitSeg(m) + [Var(k2)] + LitSeg(q))
  {
    TokenizeOneToken(m, k2, q);
    TokenizeToken(k1, m + "%{" + k2 + "}" + q);
  }

  lemma ConcatTwoTokens(p: string, k1: string, m: string, k2: string, q: string)
    ensures p + "%{" + k1 + "}" + m + "%{" + k2 + "}" + q == p + ("%{" + k1 + "}" + (m + "%{" + k2 + "}" + q))
  {
  }

  lemma SegmentsTwoTokens(a: seq<Segment>, k1: string, b: seq<Segment>, k2: string, c: seq<Segment>)
    ensures a + ([Var(k1)] + (b + [Var(k2)] + c)) == a + [Var(k1)] + b + [Var(k2)] + c
  {
  }

  /** A string without '}' is one literal: no token can close in it. */
  lemma {:induction false} TokenizeNoClose(s: string)
    requires '}' !in s
    ensures Tokenize(s) == LitSeg(s)
    decreases |s|
  {
    if s != [] {
      var rest := s[1..];
      assert forall m :: 0 <= m < |s| ==> s[m] != '}';
      assert |s| >= 2 ==> CloseBrace(s, 2).None?;
      assert '}' !in rest by {
        forall m | 0 <= m < |rest| ensures rest[m] != '}' { assert rest[m] == s[m + 1]; }
      }
      TokenizeNoClose(rest);
      assert Tokenize(s) == AddChar(s[0], LitSeg(rest));
      assert s == [s[0]] + rest;
      if rest != [] {
        assert AddChar(s[0], LitSeg(rest)) == [Lit(s)] + [];
      } else {
        assert s == [s[0]];
      }
    }
  }

  /** No literal piece hides a token: a "%{" inside a literal has no '}'
      anywhere after it, and only the last piece can hold one. */
  ghost predicate NoHiddenToken(segs: seq<Segment>) {
    forall k, p :: (0 <= k < |segs| && segs[k].Lit? && 0 <= p < |segs[k].text| - 1 &&
                    segs[k].text[p] == '%' && segs[k].text[p + 1] == '{') ==>
      k == |segs| - 1 && '}' !in segs[k].text[p + 2..]
  }

  /** A token put ahead of pieces that hide none hides none. */
  lemma NoHiddenVarCons(v: string, rest: seq<Segment>)
    requires NoHiddenToken(rest)
    ensures NoHiddenToken([Var(v)] + rest)
  {
    var segs := [Var(v)] + rest;
    forall k, p | (0 <= k < |segs| && segs[k].Lit? && 0 <= p < |segs[k].text| - 1 &&
                   segs[k].text[p] == '%' && segs[k].text[p + 1] == '{')
      ensures k == |segs| - 1 && '}' !in segs[k].text[p + 2..]
    {
      assert segs[k] == rest[k - 1];
    }
  }

  /** A whole literal whose "%{" openings have no '}' after them. */
  lemma NoHiddenOpen(s: string)
    requires |s| >= 2 && s[0] == '%' && s[1] == '{' && '}' !in s[2..]
    ensures NoHiddenToken([Lit(s)])
  {
    forall p | 0 <= p < |s| - 1 && s[p] == '%' && s[p + 1] == '{'
      ensures '}' !in s[p + 2..]
    {
      assert s[p + 2..] == s[2..][p..];
    }
  }

  /** One literal character put ahead, when it does not open "%{" with
      what follows. */
  lemma NoHiddenAddChar(c: char, segs: seq<Segment>)
    requires NoHiddenToken(segs)
    requires c == '%' && segs != [] && segs[0].Lit? && segs[0].text != [] ==> segs[0].text[0] != '{'
    ensures NoHiddenToken(AddChar(c, segs))
  {
    var r := AddChar(c, segs);
    if segs != [] && segs[0].Lit? {
      var u := segs[0].text;
      assert r == [Lit([c] + u)] + segs[1..];
      forall k, p | (0 <= k < |r| && r[k].Lit? && 0 <= p < |r[k].text| - 1 &&
                     r[k].text[p] == '%' && r[k].text[p + 1] == '{')
        ensures k == |r| - 1 && '}' !in r[k].text[p + 2..]
      {
        if k == 0 && p > 0 {
          assert r[0].text[p] == u[p - 1] && r[0].text[p + 1] == u[p];
          assert r[0].text[p + 2..] == u[p + 1..];
        } else if k > 0 {
          assert r[k] == segs[k];
        }
      }
    } else {
      assert r == [Lit([c])] + segs;
      forall k, p | (0 <= k < |r| && r[k].Lit? && 0 <= p < |r[k].text| - 1 &&
                     r[k].text[p] == '%' && r[k].text[p + 1] == '{')
        ensures k == |r| - 1 && '}' !in r[k].text[p + 2..]
      {
        assert r[k] == segs[k - 1];
      }
    }
  }

  /** The split finds every token: each "%{" that has a '}' after it opens a
      token, so no literal piece holds a match of `%\{([^\}]*)\}`. */
  lemma {:induction false} TokenizeFindsEvery(s: string)
    ensures NoHiddenToken(Tokenize(s))
    decreases |s|
  {
    if s == [] {
    } else if |s| >= 2 && s[0] == '%' && s[1] == '{' && CloseBrace(s, 2).Some? {
      var j := CloseBrace(s, 2).value;
      TokenizeFindsEvery(s[j + 1..]);
      NoHiddenVarCons(s[2..j], Tokenize(s[j + 1..]));
    } else if |s| >= 2 && s[0] == '%' && s[1] == '{' {
      assert '}' !in s[1..] by {
        forall m | 0 <= m < |s[1..]| ensures s[1..][m] != '}' {
          if m > 0 { assert s[1..][m] == s[2..][m - 1]; }
        }
      }
      TokenizeNoClose(s[1..]);
      assert s == [s[0]] + s[1..];
      assert Tokenize(s) == [Lit(s)];
      NoHiddenOpen(s);
    } else {
      var t := Tokenize(s[1..]);
      TokenizeFindsEvery(s[1..]);
      if t != [] && t[0].Lit? && t[0].text != [] {
        TokenizeRoundTrip(s[1..]);
        UntokenizeCons(t[0], t[1..]);
        assert [t[0]] + t[1..] == t;
        assert t[0].text[0] == s[1];
      }
      NoHiddenAddChar(s[0], t);
    }
  }

  // ---------------------------------------------------------------------------
  // Strings without tokens

  lemma {:induction false} SubstLiterals(segs: seq<Segment>, chain: seq<string>, scope: Scope, extra: Scope)
    requires NoDup(chain) && IsChain(chain, scope, extra) && DrawnFrom(segs, chain, scope, extra)
    requires forall seg :: seg in segs ==> seg.Lit?
    ensures Subst(segs, chain, scope, extra) == Success(Untokenize(segs))
    decreases |segs|
  {
    if segs != [] {
      assert segs[0] in segs;
      SubstLiterals(segs[1..], chain, scope, extra);
    }
  }

  /** A string without tokens comes back unchanged, whatever the scope. */
  lemma ParseStringPlain(s: string, scope: Scope, extra: Scope)
    requires NoTokens(s)
    ensures ParseString(Str(s), scope, extra) == Success(Str(s))
  {
    SubstLiterals(Tokenize(s), [], scope, extra);
    TokenizeRoundTrip(s);
  }

  /** The text a token stands for is spliced in and not scanned again: with
      a = "%", "%{a}{b}" becomes "%{b}", which still holds a token. */
  lemma SplicedTextNotRescanned()
    ensures ParseString(Str("%{" + "a" + "}" + "{b}"), map["a" := Str("%"), "b" := Str("x")], map[]) ==
      Success(Str("%{" + "b" + "}"))
    ensures !NoTokens("%{" + "b" + "}")
  {
    assert Tokenize("%") == [Lit("%")];
    assert NoTokens("%");
    ScopeValueWins("", "a", "{b}", "%", map["a" := Str("%"), "b" := Str("x")], map[]);
    assert "" + "%{" + "a" + "}" + "{b}" == "%{" + "a" + "}" + "{b}";
    assert "" + "%" + "{b}" == "%{" + "b" + "}";
    TokenizeToken("b", "");
    assert "%{" + "b" + "}" + "" == "%{" + "b" + "}";
    assert Var("b") in Tokenize("%{" + "b" + "}");
  }

  /** A key whose value is a string without tokens stands for that string. */
  lemma ResolvePlain(k: string, t: string, chain: seq<string>, scope: Scope, extra: Scope)
    requires NoDup(chain) && IsChain(chain, scope, extra) && k !in chain
    requires chain != [] ==>
      StrValue(chain[|chain| - 1], scope, extra).Some? &&
      Mentions(StrValue(chain[|chain| - 1], scope, extra).value, k)
    requires StrValue(k, scope, extra) == Some(t) && NoTokens(t)
    ensures Resolve(k, chain, scope, extra) == Success(t)
  {
    ChainExtends(k, chain, scope, extra);
    SubstLiterals(Tokenize(t), chain + [k], scope, extra);
    TokenizeRoundTrip(t);
  }

  // ---------------------------------------------------------------------------
  // One token between two plain texts

  /** The result of two interpolations placed side by side: the first failure, or both texts. */
  function Join(a: Result<string>, b: Result<string>): Result<string> {
    if a.Failure? then a else if b.Failure? then b else Success(a.value + b.value)
  }

  lemma SubstCons(seg: Segment, rest: seq<Segment>, chain: seq<string>, scope: Scope, extra: Scope)
    requires NoDup(chain) && IsChain(chain, scope, extra) && DrawnFrom([seg] + rest, chain, scope, extra)
    ensures DrawnFrom([seg], chain, scope, extra) && DrawnFrom(rest, chain, scope, extra)
    ensures Subst([seg] + rest, chain, scope, extra) ==
      Join(Subst([seg], chain, scope, extra), Subst(rest, chain, scope, extra))
  {
    var segs := [seg] + rest;
    assert segs[0] == seg && segs[1..] == rest;
    assert [seg][1..] == [];
    var head := match seg
      case Lit(t) => Success(t)
      case Var(k) => assert seg in segs; Resolve(k, chain, scope, extra);
    assert seg in [seg];
    assert Subst([seg], chain, scope, extra) == Join(head, Success(""));
    assert Subst(segs, chain, scope, extra) == Join(head, Subst(rest, chain, scope, extra));
    if head.Success? {
      assert head.value + "" == head.value;
    }
  }

  lemma SubstTokenThenText(k: string, q: string, scope: Scope, extra: Scope)
    ensures Subst([Var(k)] + LitSeg(q), [], scope, extra) == Join(Resolve(k, [], scope, extra), Success(q))
  {
    SubstCons(Var(k), LitSeg(q), [], scope, extra);
    SubstOneVar(k, scope, extra);
    SubstLitSeg(q, scope, extra);
  }

  lemma SubstOneVar(k: string, scope: Scope, extra: Scope)
    ensures Subst([Var(k)], [], scope, extra) == Resolve(k, [], scope, extra)
  {
    assert [Var(k)][0] == Var(k) && [Var(k)][1..] == [];
    var rk := Resolve(k, [], scope, extra);
    if rk.Success? { assert rk.value + "" == rk.value; }
  }

  lemma SubstLitSeg(q: string, scope: Scope, extra: Scope)
    ensures Subst(LitSeg(q), [], scope, extra) == Success(q)
  {
    if q != [] {
      assert LitSeg(q)[1..] == [];
      assert q + "" == q;
    }
  }

  lemma SubstTextFirst(p: string, rest: seq<Segment>, scope: Scope, extra: Scope)
    ensures Subst(LitSeg(p) + rest, [], scope, extra) == Join(Success(p), Subst(rest, [], scope, extra))
  {
    if p == [] {
      assert LitSeg(p) + rest == rest;
      var r := Subst(rest, [], scope, extra);
      if r.Success? { assert p + r.value == r.value; }
    } else {
      SubstCons(Lit(p), rest, [], scope, extra);
      assert [Lit(p)][1..] == [];
      assert p + "" == p;
    }
  }

  lemma OneToken(p: string, k: string, q: string, scope: Scope, extra: Scope)
    requires '%' !in p && '%' !in q && '}' !in k
    ensures ParseString(Str(p + "%{" + k + "}" + q), scope, extra) ==
      match Resolve(k, [], scope, extra)
      case Success(x) => Success(Str(p + x + q))
      case Failure(e) => Failure(e)
  {
    TokenizeOneToken(p, k, q);
    SubstOneToken(p, k, q, scope, extra);
  }

  lemma SubstOneToken(p: string, k: string, q: string, scope: Scope, extra: Scope)
    ensures Subst(LitSeg(p) + [Var(k)] + LitSeg(q), [], scope, extra) ==
      match Resolve(k, [], scope, extra)
      case Success(x) => Success(p + x + q)
      case Failure(e) => Failure(e)
  {
    var mid := [Var(k)] + LitSeg(q);
    assert LitSeg(p) + [Var(k)] + LitSeg(q) == LitSeg(p) + mid;
    SubstTokenThenText(k, q, scope, extra);
    SubstTextFirst(p, mid, scope, extra);
    var rk := Resolve(k, [], scope, extra);
    if rk.Success? { assert p + (rk.value + q) == p + rk.value + q; }
  }

  /** A value in the scope is used, whatever extra_data holds. */
  lemma ScopeValueWins(p: string, k: string, q: string, t: string, scope: Scope, extra: Scope)
    requires '%' !in p && '%' !in q && '}' !in k
    requires k in scope && scope[k] == Str(t) && NoTokens(t)
    ensures ParseString(Str(p + "%{" + k + "}" + q), scope, extra) == Success(Str(p + t + q))
  {
    OneToken(p, k, q, scope, extra);
    ResolvePlain(k, t, [], scope, extra);
  }

  /** A key that the scope lacks, or holds as nil or :undefined, is taken from extra_data. */
  lemma ExtraDataFillsIn(p: string, k: string, q: string, t: string, scope: Scope, extra: Scope)
    requires '%' !in p && '%' !in q && '}' !in k
    requires k !in scope || IsNoValue(scope[k])
    requires k in extra && extra[k] == Str(t) && NoTokens(t)
    ensures ParseString(Str(p + "%{" + k + "}" + q), scope, extra) == Success(Str(p + t + q))
  {
    OneToken(p, k, q, scope, extra);
    ResolvePlain(k, t, [], scope, extra);
  }

  /** false, in the scope or in extra_data, is a real value and reads "false". */
  lemma FalseIsAValue(p: string, k: string, q: string, scope: Scope, extra: Scope)
    requires '%' !in p && '%' !in q && '}' !in k
    requires (k in scope && scope[k] == Bool(false)) ||
             ((k !in scope || IsNoValue(scope[k])) && k in extra && extra[k] == Bool(false))
    ensures ParseString(Str(p + "%{" + k + "}" + q), scope, extra) == Success(Str(p + "false" + q))
  {
    OneToken(p, k, q, scope, extra);
  }

  /** A key with no value in either map becomes the empty string. The key is
      the token's text exactly: nothing is trimmed and no shortened key
      (without a leading "::", say) is tried. */
  lemma MissingKeyIsEmpty(p: string, k: string, q: string, scope: Scope, extra: Scope)
    requires '%' !in p && '%' !in q && '}' !in k
    requires k !in scope || IsNoValue(scope[k])
    requires k !in extra || IsNoValue(extra[k])
    ensures ParseString(Str(p + "%{" + k + "}" + q), scope, extra) == Success(Str(p + q))
  {
    OneToken(p, k, q, scope, extra);
    assert Resolve(k, [], scope, extra) == Success("");
    assert p + "" + q == p + q;
  }

  // ---------------------------------------------------------------------------
  // Chains and loops

  /** A key whose value is exactly the token of another key stands for what
      that key stands for, one step further along the chain. */
  lemma ResolveAlias(a: string, b: string, chain: seq<string>, scope: Scope, extra: Scope)
    requires NoDup(chain) && IsChain(chain, scope, extra) && a !in chain
    requires chain != [] ==>
      StrValue(chain[|chain| - 1], scope, extra).Some? &&
      Mentions(StrValue(chain[|chain| - 1], scope, extra).value, a)
    requires StrValue(a, scope, extra) == Some("%{" + b + "}") && '}' !in b
    ensures NoDup(chain + [a]) && IsChain(chain + [a], scope, extra)
    ensures Mentions("%{" + b + "}", b)
    ensures Resolve(a, chain, scope, extra) == Resolve(b, chain + [a], scope, extra)
  {
    ChainExtends(a, chain, scope, extra);
    TokenizeToken(b, "");
    assert "%{" + b + "}" + "" == "%{" + b + "}";
    var segs := [Var(b)];
    assert Tokenize("%{" + b + "}") == segs;
    var next := chain + [a];
    assert next[|next| - 1] == a;
    assert Follow(a, chain, scope, extra) == Subst(segs, next, scope, extra);
    SubstCons(Var(b), [], next, scope, extra);
    assert segs == [Var(b)] + [];
    var rb := Resolve(b, next, scope, extra);
    assert Subst(segs, next, scope, extra) == Join(rb, Success(""));
    if rb.Success? { assert rb.value + "" == rb.value; }
  }

  /** Two keys whose values name each other form a loop, reported with the
      keys in the order they were followed. */
  lemma TwoKeyLoop(p: string, a: string, b: string, q: string, scope: Scope, extra: Scope)
    requires '%' !in p && '%' !in q && '}' !in a && '}' !in b && a != b
    requires StrValue(a, scope, extra) == Some("%{" + b + "}")
    requires StrValue(b, scope, extra) == Some("%{" + a + "}")
    ensures ParseString(Str(p + "%{" + a + "}" + q), scope, extra) == Failure(InterpolationLoop([a, b]))
  {
    LoopFromFirst(a, b, scope, extra);
    OneToken(p, a, q, scope, extra);
  }

  lemma LoopFromFirst(a: string, b: string, scope: Scope, extra: Scope)
    requires '}' !in a && '}' !in b && a != b
    requires StrValue(a, scope, extra) == Some("%{" + b + "}")
    requires StrValue(b, scope, extra) == Some("%{" + a + "}")
    ensures Resolve(a, [], scope, extra) == Failure(InterpolationLoop([a, b]))
  {
    ResolveAlias(a, b, [], scope, extra);
    assert [] + [a] == [a];
    LoopFromSecond(a, b, scope, extra);
  }

  lemma LoopFromSecond(a: string, b: string, scope: Scope, extra: Scope)
    requires '}' !in a && '}' !in b && a != b
    requires NoDup([a]) && IsChain([a], scope, extra)
    requires StrValue(a, scope, extra) == Some("%{" + b + "}") && Mentions("%{" + b + "}", b)
    requires StrValue(b, scope, extra) == Some("%{" + a + "}")
    ensures Resolve(b, [a], scope, extra) == Failure(InterpolationLoop([a, b]))
  {
    ResolveAlias(b, a, [a], scope, extra);
    assert [a] + [b] == [a, b];
    ResolveInChain(a, [a, b], scope, extra);
  }

  /** A key already on the chain reports the chain as a loop. */
  lemma ResolveInChain(k: string, chain: seq<string>, scope: Scope, extra: Scope)
    requires NoDup(chain) && IsChain(chain, scope, extra) && k in chain
    requires StrValue(chain[|chain| - 1], scope, extra).Some?
    requires Mentions(StrValue(chain[|chain| - 1], scope, extra).value, k)
    ensures Resolve(k, chain, scope, extra) == Failure(InterpolationLoop(chain))
  {
  }

  // ---------------------------------------------------------------------------
  // Every reachable loop is reported

  /** A loop of keys that the string's tokens lead into: the first key is a
      token of s, and following the keys' values comes back around. */
  ghost predicate LoopReachable(s: string, scope: Scope, extra: Scope) {
    exists keys :: IsLoop(keys, scope, extra) && Var(keys[0]) in Tokenize(s)
  }

  /** parse_string raises exactly when the string's tokens lead into a loop
      of keys; otherwise it returns the interpolated string. */
  lemma ParseStringFailsIffLoop(s: string, scope: Scope, extra: Scope)
    ensures ParseString(Str(s), scope, extra).Failure? <==> LoopReachable(s, scope, extra)
  {
    var r := ParseString(Str(s), scope, extra);
    if r.Failure? {
      assert IsLoop(r.error.keys, scope, extra) && Var(r.error.keys[0]) in Tokenize(s);
    }
    if LoopReachable(s, scope, extra) {
      var keys :| IsLoop(keys, scope, extra) && Var(keys[0]) in Tokenize(s);
      LoopFails(s, keys, scope, extra);
    }
  }

  /** A loop that the string's tokens lead into makes interpolation fail. */
  lemma LoopFails(s: string, keys: seq<string>, scope: Scope, extra: Scope)
    requires IsLoop(keys, scope, extra) && Var(keys[0]) in Tokenize(s)
    ensures ParseString(Str(s), scope, extra).Failure?
  {
    var j :| 0 <= j < |keys| && Mentions(StrValue(keys[|keys| - 1], scope, extra).value, keys[j]);
    var walk := keys + [keys[j]];
    WalkOfLoop(keys, j, scope, extra);
    assert !NoDup([] + walk) by {
      assert ([] + walk)[j] == ([] + walk)[|keys|];
    }
    ResolveRepeatFails(keys[0], [], walk, scope, extra);
    SubstFailsOnToken(Tokenize(s), [], keys[0], scope, extra);
  }

  /** A loop followed once more around to keys[j] is still a chain. */
  lemma WalkOfLoop(keys: seq<string>, j: nat, scope: Scope, extra: Scope)
    requires IsLoop(keys, scope, extra) && j < |keys|
    requires Mentions(StrValue(keys[|keys| - 1], scope, extra).value, keys[j])
    ensures IsChain(keys + [keys[j]], scope, extra)
  {
    var walk := keys + [keys[j]];
    forall i | 0 < i < |walk| ensures Mentions(StrValue(walk[i - 1], scope, extra).value, walk[i]) {
      if i < |keys| { assert walk[i - 1] == keys[i - 1] && walk[i] == keys[i]; }
    }
  }

  /** A token that fails to resolve fails the interpolation of its string. */
  lemma {:induction false} SubstFailsOnToken(segs: seq<Segment>, chain: seq<string>, k: string, scope: Scope, extra: Scope)
    requires NoDup(chain) && IsChain(chain, scope, extra) && DrawnFrom(segs, chain, scope, extra)
    requires Var(k) in segs
    requires chain != [] ==> Mentions(StrValue(chain[|chain| - 1], scope, extra).value, k)
    requires Resolve(k, chain, scope, extra).Failure?
    ensures Subst(segs, chain, scope, extra).Failure?
    decreases |segs|
  {
    assert segs[0] in segs;
    if segs[0] != Var(k) {
      assert Var(k) in segs[1..];
      SubstFailsOnToken(segs[1..], chain, k, scope, extra);
    }
  }

  /** Following a chain of keys from k that meets one of the keys being
      followed, or repeats one of its own, fails the resolution of k. */
  lemma {:induction false} ResolveRepeatFails(k: string, chain: seq<string>, walk: seq<string>, scope: Scope, extra: Scope)
    requires NoDup(chain) && IsChain(chain, scope, extra)
    requires chain != [] ==>
      StrValue(chain[|chain| - 1], scope, extra).Some? &&
      Mentions(StrValue(chain[|chain| - 1], scope, extra).value, k)
    requires walk != [] && walk[0] == k && IsChain(walk, scope, extra)
    requires !NoDup(chain + walk)
    ensures Resolve(k, chain, scope, extra).Failure?
    decreases |walk|
  {
    if k !in chain && |walk| > 1 {
      var t := StrValue(k, scope, extra).value;
      FollowEnters(k, chain, scope, extra);
      var next := chain + [k];
      assert next[|next| - 1] == k;
      assert Mentions(t, walk[1]);
      var rest := walk[1..];
      assert IsChain(rest, scope, extra) by {
        forall i | 0 < i < |rest| ensures Mentions(StrValue(rest[i - 1], scope, extra).value, rest[i]) {
          assert rest[i - 1] == walk[i] && rest[i] == walk[i + 1];
        }
      }
      assert next + rest == chain + walk by {
        ConcatAssoc(chain, [k], rest);
        assert [k] + rest == walk;
      }
      ResolveRepeatFails(walk[1], next, rest, scope, extra);
      SubstFailsOnToken(Tokenize(t), next, walk[1], scope, extra);
    }
  }

  // ---------------------------------------------------------------------------
  // A reference definition: one pass of substitution

  function TokenText(k: string, scope: Scope, extra: Scope): string {
    match KeyValue(k, scope, extra)
    case None => ""
    case Some(v) => Render(v)
  }

  /** Each token replaced once by its key's value, rendered, with no recursion. */
  function SinglePass(segs: seq<Segment>, scope: Scope, extra: Scope): string {
    if segs == [] then ""
    else
      (match segs[0]
       case Lit(t) => t
       case Var(k) => TokenText(k, scope, extra))
      + SinglePass(segs[1..], scope, extra)
  }

  /** No variable's value holds a token. */
  ghost predicate NoNestedTokens(scope: Scope, extra: Scope) {
    forall k :: StrValue(k, scope, extra).Some? ==> NoTokens(StrValue(k, scope, extra).value)
  }

  lemma {:induction false} SubstIsSinglePass(segs: seq<Segment>, scope: Scope, extra: Scope)
    requires NoNestedTokens(scope, extra)
    ensures Subst(segs, [], scope, extra) == Success(SinglePass(segs, scope, extra))
    decreases |segs|
  {
    if segs != [] {
      SubstIsSinglePass(segs[1..], scope, extra);
      if segs[0].Var? {
        var k := segs[0].name;
        if StrValue(k, scope, extra).Some? {
          ResolvePlain(k, StrValue(k, scope, extra).value, [], scope, extra);
        }
      }
    }
  }

  /** When no variable's value holds a token, interpolation is one pass of
      substitution and never reports a loop. */
  lemma SinglePassSuffices(s: string, scope: Scope, extra: Scope)
    requires NoNestedTokens(scope, extra)
    ensures ParseString(Str(s), scope, extra) == Success(Str(SinglePass(Tokenize(s), scope, extra)))
  {
    SubstIsSinglePass(Tokenize(s), scope, extra);
  }
}
