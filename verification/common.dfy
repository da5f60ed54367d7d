/** Shared vocabulary: optional values, results, opaque runtime values and
    insertion-ordered dictionaries. */
module Common {

  /** A value that may be absent (the source's `null` / `undefined`). */
  datatype Option<+T> = None | Some(value: T) {
    function GetOr(default: T): T {
      match this
      case Some(v) => v
      case None => default
    }
  }

  /** The outcome of an operation that may throw: the thrown error is the `Failure` side. */
  datatype Result<+R, +E> = Success(value: R) | Failure(error: E)

  /** An untyped runtime value (`object?` / `unknown`); `Null` is the null reference. */
  datatype Value = Null | Val(token: int)

  /** An insertion-ordered dictionary with exact-match string keys, as a list of entries. */
  type Entries<V> = seq<(string, V)>

  /** Position of the entry with key `k`, or -1 when there is none. */
  function IndexOf<V>(es: Entries<V>, k: string): (i: int)
    ensures -1 <= i < |es|
    ensures 0 <= i ==> es[i].0 == k && forall j :: 0 <= j < i ==> es[j].0 != k
    ensures i < 0 ==> forall j :: 0 <= j < |es| ==> es[j].0 != k
  {
    if es == [] then -1
    else if es[0].0 == k then 0
    else
      var t := IndexOf(es[1..], k);
      if t < 0 then -1 else t + 1
  }

  predicate HasKey<V>(es: Entries<V>, k: string) {
    0 <= IndexOf(es, k)
  }

  /** Lookup in a list with one more entry at the front. */
  lemma LookupCons<V>(e: (string, V), rest: Entries<V>, k: string)
    ensures HasKey([e] + rest, k) <==> e.0 == k || HasKey(rest, k)
    ensures Lookup([e] + rest, k) == if e.0 == k then Some(e.1) else Lookup(rest, k)
  {
    assert ([e] + rest)[1..] == rest;
  }

  /** The keys, as a set. */
  function KeySet<V>(es: Entries<V>): (r: set<string>)
    ensures forall k :: k in r <==> HasKey(es, k)
  {
    set i | 0 <= i < |es| :: es[i].0
  }

  /** No key occurs twice. */
  predicate DistinctKeys<V>(es: Entries<V>) {
    forall i, j :: 0 <= i < j < |es| ==> es[i].0 != es[j].0
  }

  /** Dictionary `TryGetValue`. */
  function Lookup<V>(es: Entries<V>, k: string): (r: Option<V>)
    ensures r.None? <==> !HasKey(es, k)
    ensures r.Some? ==> (k, r.value) in es
  {
    var i := IndexOf(es, k);
    if i < 0 then None else Some(es[i].1)
  }

  /** Dictionary indexer assignment `d[k] = v`: an existing key keeps its position
      and takes the new value, a new key is appended. */
  function Put<V>(es: Entries<V>, k: string, v: V): (r: Entries<V>)
    ensures HasKey(es, k) ==> |r| == |es|
    ensures !HasKey(es, k) ==> r == es + [(k, v)]
    ensures Lookup(r, k) == Some(v)
    ensures forall k' :: k' != k ==> Lookup(r, k') == Lookup(es, k')
    ensures forall k' :: HasKey(r, k') <==> HasKey(es, k') || k' == k
    ensures DistinctKeys(es) ==> DistinctKeys(r)
  {
    var i := IndexOf(es, k);
    var r := if i < 0 then es + [(k, v)] else es[i := (k, v)];
    PutIndex(es, k, v, r);
    r
  }

  lemma PutIndex<V>(es: Entries<V>, k: string, v: V, r: Entries<V>)
    requires r == if IndexOf(es, k) < 0 then es + [(k, v)] else es[IndexOf(es, k) := (k, v)]
    ensures IndexOf(r, k) == if IndexOf(es, k) < 0 then |es| else IndexOf(es, k)
    ensures forall k' :: k' != k ==> IndexOf(r, k') == IndexOf(es, k')
  {
    var i := IndexOf(es, k);
    SameKeys(es, k, v, r);
    if i < 0 {
      IndexOfIs(r, k, |es|);
    } else {
      IndexOfIs(r, k, i);
    }
    forall k' | k' != k ensures IndexOf(r, k') == IndexOf(es, k') {
      PutOther(es, k, v, r, k');
    }
  }

  /** Storing under an existing key or appending leaves every old key in place. */
  lemma SameKeys<V>(es: Entries<V>, k: string, v: V, r: Entries<V>)
    requires r == if IndexOf(es, k) < 0 then es + [(k, v)] else es[IndexOf(es, k) := (k, v)]
    ensures |r| == (if IndexOf(es, k) < 0 then |es| + 1 else |es|)
    ensures forall j :: 0 <= j < |es| ==> r[j].0 == es[j].0
    ensures IndexOf(es, k) < 0 ==> r[|es|].0 == k
  {
  }

  lemma PutOther<V>(es: Entries<V>, k: string, v: V, r: Entries<V>, k': string)
    requires r == if IndexOf(es, k) < 0 then es + [(k, v)] else es[IndexOf(es, k) := (k, v)]
    requires k' != k
    ensures IndexOf(r, k') == IndexOf(es, k')
  {
    SameKeys(es, k, v, r);
    var b := IndexOf(es, k');
    if 0 <= b {
      IndexOfIs(r, k', b);
    } else {
      IndexOfNone(r, k');
    }
  }

  /** `IndexOf` is determined by its contract: the first position holding the key. */
  lemma IndexOfIs<V>(es: Entries<V>, k: string, a: int)
    requires 0 <= a < |es| && es[a].0 == k
    requires forall j :: 0 <= j < a ==> es[j].0 != k
    ensures IndexOf(es, k) == a
  {
    var b := IndexOf(es, k);
    assert b >= 0;
  }

  /** Adding an entry whose key is new lists it last. */
  lemma PutLast<V>(es: Entries<V>)
    requires es != [] && !HasKey(es[..|es| - 1], es[|es| - 1].0)
    ensures Put(es[..|es| - 1], es[|es| - 1].0, es[|es| - 1].1) == es
  {
    assert es[..|es| - 1] + [es[|es| - 1]] == es;
  }

  lemma IndexOfNone<V>(es: Entries<V>, k: string)
    requires forall j :: 0 <= j < |es| ==> es[j].0 != k
    ensures IndexOf(es, k) == -1
  {
  }

  /** The number of elements of `s` that satisfy `p`. */
  function CountWhere<T>(s: seq<T>, p: T -> bool): (n: nat)
    ensures n <= |s|
  {
    if s == [] then 0 else (if p(s[0]) then 1 else 0) + CountWhere(s[1..], p)
  }

  /** The elements of `s` that satisfy `p`, in order (`Array.prototype.filter`). */
  function Filter<T(!new)>(s: seq<T>, p: T -> bool): (r: seq<T>)
    ensures |r| <= |s|
    ensures forall x :: x in r <==> x in s && p(x)
  {
    if s == [] then [] else (if p(s[0]) then [s[0]] else []) + Filter(s[1..], p)
  }

  /** The elements of a sequence, as a set. */
  function Elems<T(!new)>(s: seq<T>): (r: set<T>)
    ensures forall x :: x in r <==> x in s
  {
    set x | x in s
  }

  /** No element occurs twice. */
  predicate Distinct<T(==)>(s: seq<T>) {
    forall i, j :: 0 <= i < j < |s| ==> s[i] != s[j]
  }

  /** A duplicate-free list has exactly as many distinct elements as entries. */
  lemma {:induction false} DistinctCard<T(!new)>(s: seq<T>)
    requires Distinct(s)
    ensures |Elems(s)| == |s|
  {
    if s != [] {
      DistinctCard(s[1..]);
      assert Elems(s) == {s[0]} + Elems(s[1..]);
      assert s[0] !in Elems(s[1..]);
    }
  }

  /** A list with a repeated element has fewer distinct elements than entries. */
  lemma {:induction false} DuplicateCard<T(!new)>(s: seq<T>)
    requires !Distinct(s)
    ensures |Elems(s)| < |s|
  {
    var i, j :| 0 <= i < j < |s| && s[i] == s[j];
    if i == 0 {
      assert s[0] in s[1..] by { assert s[1..][j - 1] == s[0]; }
      assert Elems(s) == Elems(s[1..]);
      ElemsCard(s[1..]);
    } else {
      assert s[1..][i - 1] == s[1..][j - 1];
      DuplicateCard(s[1..]);
      assert Elems(s) <= {s[0]} + Elems(s[1..]);
      SubsetCard(Elems(s), {s[0]} + Elems(s[1..]));
    }
  }

  lemma {:induction false} ElemsCard<T(!new)>(s: seq<T>)
    ensures |Elems(s)| <= |s|
  {
    if s != [] {
      ElemsCard(s[1..]);
      assert Elems(s) == {s[0]} + Elems(s[1..]);
    }
  }

  lemma SubsetCard<T>(a: set<T>, b: set<T>)
    requires a <= b
    ensures |a| <= |b|
  {
    assert b == a + (b - a);
  }

  function DigitChar(d: nat): (c: char)
    requires d < 10
    ensures '0' <= c <= '9'
  {
    ['0', '1', '2', '3', '4', '5', '6', '7', '8', '9'][d]
  }

  /** Decimal digits of a natural number, without leading zeros. */
  function NatToString(n: nat): (s: string)
    ensures |s| > 0 && forall i :: 0 <= i < |s| ==> '0' <= s[i] <= '9'
    ensures |s| > 1 ==> s[0] != '0'
  {
    if n < 10 then [DigitChar(n)] else NatToString(n / 10) + [DigitChar(n % 10)]
  }

  lemma DigitCharInjective(a: nat, b: nat)
    requires a < 10 && b < 10
    ensures DigitChar(a) == DigitChar(b) ==> a == b
  {
    var digits := ['0', '1', '2', '3', '4', '5', '6', '7', '8', '9'];
    assert forall i, j :: 0 <= i < j < 10 ==> digits[i] < digits[j];
  }

  /** Distinct numbers render as distinct strings. */
  lemma {:induction false} NatToStringInjective(n: nat, m: nat)
    ensures NatToString(n) == NatToString(m) ==> n == m
  {
    if NatToString(n) == NatToString(m) && n >= 10 && m >= 10 {
      var s := NatToString(n);
      assert s == NatToString(n / 10) + [DigitChar(n % 10)];
      assert s == NatToString(m / 10) + [DigitChar(m % 10)];
      assert NatToString(n / 10) == s[..|s| - 1] == NatToString(m / 10);
      NatToStringInjective(n / 10, m / 10);
      DigitCharInjective(n % 10, m % 10);
    } else if NatToString(n) == NatToString(m) && n < 10 && m < 10 {
      DigitCharInjective(n, m);
    }
  }
}
