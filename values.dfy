/** Ruby values that flow through Hiera's lookup engine: scope variables,
    answers returned by backends, lookup defaults and the engine's results. */
module Values {

  datatype Option<+T> = None | Some(value: T)

  /** Ruby values as the engine sees them. A Hash keeps its entries in insertion
      order, as Ruby's Hash does; a Float is kept opaque (its `to_s` text). */
  datatype Data =
    | Nil
    | Bool(b: bool)
    | Int(i: int)
    | Float(repr: string)
    | Str(s: string)
    | Sym(name: string)
    | Arr(elems: seq<Data>)
    | Hash(entries: seq<Entry>)

  datatype Entry = Entry(key: Data, val: Data)

  /** Puppet's marker for an unset variable, the Ruby symbol `:undefined`. */
  const Undefined: Data := Sym("undefined")

  /** nil and :undefined both mean "this variable has no value"; false is a value. */
  predicate IsNoValue(d: Data) {
    d == Nil || d == Undefined
  }

  /** Why a lookup fails. */
  datatype Error =
    | InterpolationLoop(keys: seq<string>)  // "Interpolation loop detected in [keys]"
    | NotAHash(got: Data)                   // a hash lookup met an answer that is not a Hash

  datatype Result<+T> = Success(value: T) | Failure(error: Error)

  ghost predicate NoDup<T>(s: seq<T>) {
    forall i, j :: 0 <= i < j < |s| ==> s[i] != s[j]
  }

  lemma ConcatAssoc<T>(a: seq<T>, b: seq<T>, c: seq<T>)
    ensures a + b + c == a + (b + c)
  {
  }

  // ---------------------------------------------------------------------------
  // Hashes as insertion-ordered entry lists

  function KeysOf(es: seq<Entry>): (ks: seq<Data>)
    ensures |ks| == |es|
    ensures forall i :: 0 <= i < |es| ==> ks[i] == es[i].key
  {
    seq(|es|, i requires 0 <= i < |es| => es[i].key)
  }

  /** A well-formed Ruby Hash holds each key once. */
  ghost predicate DistinctKeys(es: seq<Entry>) {
    NoDup(KeysOf(es))
  }

  /** `hash[k]`: the value stored under k, if any. */
  function Get(es: seq<Entry>, k: Data): (r: Option<Data>)
    ensures r.Some? <==> k in KeysOf(es)
    ensures r.Some? ==> Entry(k, r.value) in es
  {
    if es == [] then None
    else if es[0].key == k then Some(es[0].val)
    else Get(es[1..], k)
  }

  /** The value of the last entry whose key is k, when entries that repeat a
      key are read as successive assignments `hash[k] = v`. */
  function LastGet(es: seq<Entry>, k: Data): (r: Option<Data>)
    ensures r.Some? <==> k in KeysOf(es)
  {
    if es == [] then None
    else
      assert KeysOf(es) == [es[0].key] + KeysOf(es[1..]);
      match LastGet(es[1..], k)
      case Some(v) => Some(v)
      case None => if es[0].key == k then Some(es[0].val) else None
  }

  /** The entry at i, when no later entry has its key, gives LastGet's value. */
  lemma {:induction false} LastGetLast(es: seq<Entry>, i: nat)
    requires i < |es| && forall j :: i < j < |es| ==> es[j].key != es[i].key
    ensures LastGet(es, es[i].key) == Some(es[i].val)
    decreases i
  {
    var k := es[i].key;
    var rest := es[1..];
    if i == 0 {
      assert k !in KeysOf(rest) by {
        forall j | 0 <= j < |rest| ensures KeysOf(rest)[j] != k { assert rest[j] == es[j + 1]; }
      }
    } else {
      assert rest[i - 1] == es[i];
      assert forall j :: i - 1 < j < |rest| ==> rest[j].key != k by {
        forall j | i - 1 < j < |rest| ensures rest[j].key != k { assert rest[j] == es[j + 1]; }
      }
      LastGetLast(rest, i - 1);
    }
  }

  /** `hash[k] = v`: a key already present keeps its position and takes the
      new value (PutGet); a new key is appended (PutFresh). */
  function Put(es: seq<Entry>, k: Data, v: Data): (r: seq<Entry>)
    ensures KeysOf(r) == if k in KeysOf(es) then KeysOf(es) else KeysOf(es) + [k]
  {
    if es == [] then [Entry(k, v)]
    else if es[0].key == k then
      PutHere(es, k, v);
      [Entry(k, v)] + es[1..]
    else
      var rest := Put(es[1..], k, v);
      PutFurther(es, rest, k);
      [es[0]] + rest
  }

  /** Put on a hash whose first key is k. */
  lemma PutHere(es: seq<Entry>, k: Data, v: Data)
    requires es != [] && es[0].key == k
    ensures KeysOf([Entry(k, v)] + es[1..]) == KeysOf(es)
  {
    KeysOfCons(Entry(k, v), es[1..]);
    KeysOfCons(es[0], es[1..]);
    assert [es[0]] + es[1..] == es;
  }

  /** Put on a hash whose first key is not k, given Put on the rest. */
  lemma PutFurther(es: seq<Entry>, rest: seq<Entry>, k: Data)
    requires es != [] && es[0].key != k
    requires KeysOf(rest) == if k in KeysOf(es[1..]) then KeysOf(es[1..]) else KeysOf(es[1..]) + [k]
    ensures KeysOf([es[0]] + rest) == if k in KeysOf(es) then KeysOf(es) else KeysOf(es) + [k]
  {
    var x, ks := es[0].key, KeysOf(es[1..]);
    KeysOfCons(es[0], rest);
    KeysOfCons(es[0], es[1..]);
    assert [es[0]] + es[1..] == es;
    assert k in [x] + ks <==> k in ks;
    if k !in ks {
      assert [x] + (ks + [k]) == [x] + ks + [k];
    }
  }

  lemma KeysOfCons(e: Entry, es: seq<Entry>)
    ensures KeysOf([e] + es) == [e.key] + KeysOf(es)
  {
  }

  /** After `hash[k] = v`, k reads v and every other key reads as before. */
  lemma {:induction false} PutGet(es: seq<Entry>, k: Data, v: Data, k': Data)
    ensures Get(Put(es, k, v), k') == if k' == k then Some(v) else Get(es, k')
  {
    if es == [] {
      assert Put(es, k, v) == [Entry(k, v)] + [];
      GetCons(Entry(k, v), [], k');
    } else {
      assert [es[0]] + es[1..] == es;
      GetCons(es[0], es[1..], k');
      if es[0].key == k {
        assert Put(es, k, v) == [Entry(k, v)] + es[1..];
        GetCons(Entry(k, v), es[1..], k');
      } else {
        assert Put(es, k, v) == [es[0]] + Put(es[1..], k, v);
        PutGet(es[1..], k, v, k');
        GetCons(es[0], Put(es[1..], k, v), k');
      }
    }
  }

  lemma GetCons(e: Entry, es: seq<Entry>, k: Data)
    ensures Get([e] + es, k) == if e.key == k then Some(e.val) else Get(es, k)
  {
    assert ([e] + es)[1..] == es;
  }

  /** A key not yet in the hash is appended at its end. */
  lemma {:induction false} PutFresh(es: seq<Entry>, k: Data, v: Data)
    requires k !in KeysOf(es)
    ensures Put(es, k, v) == es + [Entry(k, v)]
  {
    if es != [] {
      assert es[0].key == KeysOf(es)[0] && KeysOf(es[1..]) == KeysOf(es)[1..];
      calc {
        Put(es, k, v);
        [es[0]] + Put(es[1..], k, v);
        { PutFresh(es[1..], k, v); }
        [es[0]] + (es[1..] + [Entry(k, v)]);
        { assert es == [es[0]] + es[1..]; }
        es + [Entry(k, v)];
      }
    }
  }

  lemma {:induction false} PutKeepsDistinct(es: seq<Entry>, k: Data, v: Data)
    requires DistinctKeys(es)
    ensures DistinctKeys(Put(es, k, v))
  {
    var ks := KeysOf(es);
    if k !in ks {
      assert KeysOf(Put(es, k, v)) == ks + [k];
    }
  }

  // ---------------------------------------------------------------------------
  // Ruby's to_s, used when a variable's value is spliced into a string

  /** Ruby's `Object#to_s` for the values a scope can hold: nil renders as "",
      false as "false"; arrays and hashes render as their `inspect` text. */
  function Render(d: Data): (r: string)
    ensures d == Nil ==> r == ""
    ensures d.Bool? ==> r == if d.b then "true" else "false"
    ensures d.Str? ==> r == d.s
    ensures d.Int? ==> r == IntToString(d.i) && (d.i < 0 <==> r[0] == '-')
    ensures d.Arr? ==> |r| >= 2 && r[0] == '[' && r[|r| - 1] == ']'
    ensures d.Hash? ==> |r| >= 2 && r[0] == '{' && r[|r| - 1] == '}'
  {
    match d
    case Nil => ""
    case Bool(b) => if b then "true" else "false"
    case Int(i) => IntToString(i)
    case Float(repr) => repr
    case Str(s) => s
    case Sym(name) => name
    case Arr(_) => Inspect(d)
    case Hash(_) => Inspect(d)
  }

  /** Ruby's `inspect` (the 1.9 forms `["a", 1]` and `{"a"=>1}`), without escaping. */
  function Inspect(d: Data): string
    decreases d, 1
  {
    match d
    case Nil => "nil"
    case Bool(b) => if b then "true" else "false"
    case Int(i) => IntToString(i)
    case Float(repr) => repr
    case Str(s) => "\"" + s + "\""
    case Sym(name) => ":" + name
    case Arr(xs) => "[" + InspectElems(xs) + "]"
    case Hash(_) => "{" + InspectEntries(d, 0) + "}"
  }

  function InspectElems(xs: seq<Data>): string
    decreases xs
  {
    if xs == [] then ""
    else if |xs| == 1 then Inspect(xs[0])
    else Inspect(xs[0]) + ", " + InspectElems(xs[1..])
  }

  function InspectEntries(h: Data, i: nat): string
    requires h.Hash? && i <= |h.entries|
    decreases h, 0, |h.entries| - i
  {
    if i == |h.entries| then ""
    else
      var e := h.entries[i];
      assert e in h.entries;
      var text := Inspect(e.key) + "=>" + Inspect(e.val);
      if i + 1 == |h.entries| then text else text + ", " + InspectEntries(h, i + 1)
  }

  predicate IsDigit(c: char) {
    '0' <= c <= '9'
  }

  function DigitChar(d: nat): (c: char)
    requires d < 10
    ensures IsDigit(c) && c as int - '0' as int == d
  {
    ('0' as int + d) as char
  }

  /** The number a string of decimal digits denotes. */
  function DecimalValue(s: string): nat
    requires forall i :: 0 <= i < |s| ==> IsDigit(s[i])
    decreases |s|
  {
    if s == [] then 0
    else
      assert IsDigit(s[|s| - 1]);
      10 * DecimalValue(s[..|s| - 1]) + (s[|s| - 1] as int - '0' as int)
  }

  /** Decimal notation of n, without leading zeros. */
  function NatToString(n: nat): (r: string)
    ensures |r| > 0 && forall i :: 0 <= i < |r| ==> IsDigit(r[i])
    ensures |r| > 1 ==> r[0] != '0'
    ensures DecimalValue(r) == n
    decreases n
  {
    if n < 10 then [DigitChar(n)]
    else
      var r := NatToString(n / 10) + [DigitChar(n % 10)];
      assert r[..|r| - 1] == NatToString(n / 10);
      r
  }

  /** Ruby's `Integer#to_s`: a minus sign for a negative number, then the
      digits of its magnitude. */
  function IntToString(i: int): (r: string)
    ensures |r| > 0
    ensures i < 0 ==> r[0] == '-' && r[1..] == NatToString(-i)
    ensures i >= 0 ==> r == NatToString(i) && r[0] != '-'
  {
    if i < 0 then "-" + NatToString(-i) else NatToString(i)
  }
}
