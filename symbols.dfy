/** Pair symbols such as "BTC_USDT": normalisation and splitting into two currency codes. */
module Symbols {

  datatype Option<T> = None | Some(value: T)

  /** Symbol normalisation: every slash becomes an underscore, nothing else changes. */
  function Normalize(s: string): (r: string)
    ensures |r| == |s|
    ensures '/' !in r
    ensures forall i :: 0 <= i < |s| && s[i] != '/' ==> r[i] == s[i]
    ensures forall i :: 0 <= i < |s| && s[i] == '/' ==> r[i] == '_'
  {
    if s == [] then [] else [if s[0] == '/' then '_' else s[0]] + Normalize(s[1..])
  }

  /** Normalising twice is normalising once. */
  lemma {:induction false} NormalizeIdempotent(s: string)
    ensures Normalize(Normalize(s)) == Normalize(s)
  {
    var n := Normalize(s);
    assert '/' !in n;
    var nn := Normalize(n);
    assert forall i :: 0 <= i < |n| ==> nn[i] == n[i];
  }

  /** Index of the first `c` in `s`, or `|s|` when there is none. */
  function IndexOf(s: string, c: char): (i: nat)
    ensures i <= |s|
    ensures i < |s| ==> s[i] == c
    ensures c !in s[..i]
  {
    if s == [] then 0
    else if s[0] == c then 0
    else
      assert s[..1 + IndexOf(s[1..], c)] == [s[0]] + s[1..][..IndexOf(s[1..], c)];
      1 + IndexOf(s[1..], c)
  }

  /**
   * Splitting a symbol into base and quote: Python splits at every underscore
   * and unpacking into two names succeeds only for exactly two parts, i.e. exactly one underscore.
   * Empty parts are accepted ("A_" gives "A" and "").
   */
  function SplitPair(s: string): (r: Option<(string, string)>)
    ensures r.Some? ==> s == r.value.0 + "_" + r.value.1
    ensures r.Some? ==> '_' !in r.value.0 && '_' !in r.value.1
    ensures r.None? ==> '_' !in s || exists i, j :: 0 <= i < j < |s| && s[i] == '_' && s[j] == '_'
  {
    var i := IndexOf(s, '_');
    if i == |s| then None
    else if '_' in s[i + 1..] then
      var k :| 0 <= k < |s[i + 1..]| && s[i + 1..][k] == '_';
      assert s[i + 1 + k] == '_';
      None
    else
      assert s == s[..i] + "_" + s[i + 1..];
      Some((s[..i], s[i + 1..]))
  }

  /** Splitting undoes joining: a symbol built from two underscore-free codes splits back into them. */
  lemma SplitJoin(b: string, q: string)
    requires '_' !in b && '_' !in q
    ensures SplitPair(b + "_" + q) == Some((b, q))
  {
    var s := b + "_" + q;
    var i := IndexOf(s, '_');
    assert s[|b|] == '_';
    assert forall k :: 0 <= k < |b| ==> s[k] == b[k];
    assert i == |b|;
    assert s[..i] == b;
    assert s[i + 1..] == q;
  }

  predicate WellFormedSymbol(s: string) {
    SplitPair(s).Some?
  }
}
