/** The places of a list that pass a test. */
module Indices {

  /** The numbers in [lo, hi) that pass the test, in order: all of them and no others. */
  function Where(lo: nat, hi: nat, test: nat -> bool): (r: seq<nat>)
    requires lo <= hi
    ensures forall k :: 0 <= k < |r| ==> lo <= r[k] < hi && test(r[k])
    ensures forall k, l :: 0 <= k < l < |r| ==> r[k] < r[l]
    ensures forall n :: n in r <==> lo <= n < hi && test(n)
    decreases hi - lo
  {
    if lo == hi then []
    else if test(lo) then [lo] + Where(lo + 1, hi, test)
    else Where(lo + 1, hi, test)
  }

  lemma {:induction false} WhereSnoc(lo: nat, hi: nat, test: nat -> bool)
    requires lo <= hi
    ensures Where(lo, hi + 1, test) == if test(hi) then Where(lo, hi, test) + [hi] else Where(lo, hi, test)
    decreases hi - lo
  {
    if lo < hi {
      WhereSnoc(lo + 1, hi, test);
    } else {
      assert Where(hi + 1, hi + 1, test) == [];
    }
  }

  /** The items in these places. */
  function Pick<T>(s: seq<T>, places: seq<nat>): (r: seq<T>)
    requires forall j :: 0 <= j < |places| ==> places[j] < |s|
    ensures |r| == |places| && forall j :: 0 <= j < |places| ==> r[j] == s[places[j]]
  {
    seq(|places|, j requires 0 <= j < |places| => s[places[j]])
  }

  lemma {:induction false} PickFirst<T>(s: seq<T>, i: nat, places: seq<nat>)
    requires i < |s| && forall j :: 0 <= j < |places| ==> places[j] < |s|
    ensures (forall j :: 0 <= j < |places| + 1 ==> ([i] + places)[j] < |s|)
    ensures Pick(s, [i] + places) == [s[i]] + Pick(s, places)
  {}

  lemma {:induction false} PickLast<T>(s: seq<T>, places: seq<nat>, i: nat)
    requires i < |s| && forall j :: 0 <= j < |places| ==> places[j] < |s|
    ensures (forall j :: 0 <= j < |places| + 1 ==> (places + [i])[j] < |s|)
    ensures Pick(s, places + [i]) == Pick(s, places) + [s[i]]
  {}
}
