/**
 * `getRandomCheckboxes` of `backend/server.js`: about a fifth of the item ids
 * of a submission, chosen by a Fisher-Yates shuffle. `Math.random` is an
 * oracle `rand`; step `i` swaps position `i` with `rand(i) % (i + 1)`, which
 * reaches every index `Math.floor(Math.random() * (i + 1))` can produce.
 */
module Sampling {
  import opened Checkboxes

  /** The ids of the items under one heading, in enumeration order; none for a non-object value. */
  function ItemIds(h: Heading): (r: seq<string>)
    ensures h.group.Items? ==> |r| == |h.group.entries| && forall j :: 0 <= j < |r| ==> r[j] == h.group.entries[j].id
    ensures h.group.Other? ==> r == []
  {
    match h.group
    case Other => []
    case Items(es) => seq(|es|, j requires 0 <= j < |es| => es[j].id)
  }

  /** Step 1: every item id under every heading. */
  function Candidates(hs: seq<Heading>): seq<string> {
    if hs == [] then [] else Candidates(hs[..|hs| - 1]) + ItemIds(hs[|hs| - 1])
  }

  function HeadingKeys(hs: seq<Heading>): (r: seq<string>)
    ensures |r| == |hs| && forall k :: 0 <= k < |hs| ==> r[k] == hs[k].key
  {
    seq(|hs|, k requires 0 <= k < |hs| => hs[k].key)
  }

  /** `ids.filter(id => !keys.includes(id))`. */
  function Without(ids: seq<string>, keys: seq<string>): (r: seq<string>)
    ensures forall x :: x in r <==> x in ids && x !in keys
    ensures multiset(r) <= multiset(ids)
  {
    if ids == [] then []
    else
      var rest := Without(ids[1..], keys);
      assert ids == [ids[0]] + ids[1..];
      if ids[0] in keys then rest else [ids[0]] + rest
  }

  /** Step 2: the candidates that are not also heading keys. */
  function EligibleIds(hs: seq<Heading>): seq<string> {
    Without(Candidates(hs), HeadingKeys(hs))
  }

  /** An eligible id is an item id under some heading and is no heading's key. */
  lemma {:induction false} EligibleIdsSpec(hs: seq<Heading>, x: string)
    ensures x in EligibleIds(hs) <==>
      (exists k :: 0 <= k < |hs| && x in ItemIds(hs[k])) && forall k :: 0 <= k < |hs| ==> hs[k].key != x
  {
    CandidatesSpec(hs, x);
  }

  lemma {:induction false} CandidatesSpec(hs: seq<Heading>, x: string)
    ensures x in Candidates(hs) <==> exists k :: 0 <= k < |hs| && x in ItemIds(hs[k])
  {
    if hs != [] {
      var init := hs[..|hs| - 1];
      CandidatesSpec(init, x);
      if x in Candidates(init) {
        var k :| 0 <= k < |init| && x in ItemIds(init[k]);
        assert hs[k] == init[k];
      }
      if exists k :: 0 <= k < |hs| && x in ItemIds(hs[k]) {
        var k :| 0 <= k < |hs| && x in ItemIds(hs[k]);
        if k < |init| { assert hs[k] == init[k]; }
      }
    }
  }

  /**
   * `Math.ceil(n * 0.20)` for a count `n`, taken as the exact ceiling of a
   * fifth: the least `c` with `5 * c >= n`.
   */
  function CeilFifth(n: nat): (c: nat)
    ensures 5 * c >= n && (c == 0 || 5 * (c - 1) < n)
  {
    (n + 4) / 5
  }

  /** The sample size: at least one, at most all of them. */
  function SampleCount(n: nat): (r: nat) {
    var c := if CeilFifth(n) < 1 then 1 else CeilFifth(n);
    if c < n then c else n
  }

  /** For at least one eligible id the clamps never bind: the size is the ceiling of a fifth. */
  lemma SampleCountIsFifth(n: nat)
    requires n >= 1
    ensures SampleCount(n) == CeilFifth(n)
    ensures 1 <= SampleCount(n) <= n
    ensures 5 * SampleCount(n) >= n && 5 * (SampleCount(n) - 1) < n
  {
  }

  function Swap<T>(s: seq<T>, i: nat, j: nat): (r: seq<T>)
    requires i < |s| && j < |s|
    ensures |r| == |s| && r[i] == s[j] && r[j] == s[i]
    ensures forall k :: 0 <= k < |s| && k != i && k != j ==> r[k] == s[k]
  {
    s[i := s[j]][j := s[i]]
  }

  /** The shuffle from step `i` down to step 1. */
  function ShuffleFrom<T>(s: seq<T>, i: nat, rand: nat -> nat): (r: seq<T>)
    requires i < |s|
    ensures |r| == |s|
    decreases i
  {
    if i == 0 then s else ShuffleFrom(Swap(s, i, rand(i) % (i + 1)), i - 1, rand)
  }

  /** The whole shuffle of an array of this length. */
  function Shuffle<T>(s: seq<T>, rand: nat -> nat): (r: seq<T>)
    ensures |r| == |s|
  {
    if s == [] then s else ShuffleFrom(s, |s| - 1, rand)
  }

  predicate Distinct<T(==)>(s: seq<T>) {
    forall i, j :: 0 <= i < j < |s| ==> s[i] != s[j]
  }

  lemma SwapPermutes<T>(s: seq<T>, i: nat, j: nat)
    requires i < |s| && j < |s|
    ensures multiset(Swap(s, i, j)) == multiset(s)
    ensures Distinct(s) ==> Distinct(Swap(s, i, j))
  {
    var r := Swap(s, i, j);
    var t := s[i := s[j]];
    assert multiset(t) == multiset(s) - multiset{s[i]} + multiset{s[j]};
    assert multiset(r) == multiset(t) - multiset{t[j]} + multiset{s[i]};
    if Distinct(s) {
      forall a, b | 0 <= a < b < |r| ensures r[a] != r[b] {
        var a' := if a == i then j else if a == j then i else a;
        var b' := if b == i then j else if b == j then i else b;
        assert r[a] == s[a'] && r[b] == s[b'];
      }
    }
  }

  /** Each swap keeps the elements; so the shuffle is a permutation, and keeps distinctness. */
  lemma {:induction false} ShufflePermutes<T>(s: seq<T>, i: nat, rand: nat -> nat)
    requires i < |s|
    ensures |ShuffleFrom(s, i, rand)| == |s|
    ensures multiset(ShuffleFrom(s, i, rand)) == multiset(s)
    ensures Distinct(s) ==> Distinct(ShuffleFrom(s, i, rand))
    decreases i
  {
    if i > 0 {
      var t := Swap(s, i, rand(i) % (i + 1));
      SwapPermutes(s, i, rand(i) % (i + 1));
      ShufflePermutes(t, i - 1, rand);
    }
  }

  lemma PrefixBelow<T>(s: seq<T>, n: nat)
    requires n <= |s|
    ensures multiset(s[..n]) <= multiset(s)
    ensures Distinct(s) ==> Distinct(s[..n])
  {
    assert s == s[..n] + s[n..];
  }

  /**
   * The sample `getRandomCheckboxes` returns for this oracle: a prefix of the
   * shuffled eligible ids of the sample size, or none when nothing is eligible.
   */
  function Sample(hs: seq<Heading>, rand: nat -> nat): (r: seq<string>)
    ensures EligibleIds(hs) == [] <==> r == []
    ensures EligibleIds(hs) != [] ==> |r| == CeilFifth(|EligibleIds(hs)|)
    ensures multiset(r) <= multiset(EligibleIds(hs))
    ensures Distinct(EligibleIds(hs)) ==> Distinct(r)
  {
    var e := EligibleIds(hs);
    if e == [] then []
    else
      SampleCountIsFifth(|e|);
      SampleIsFromEligible(hs, rand);
      Shuffle(e, rand)[..SampleCount(|e|)]
  }

  /** Step 1, the nested `for...in` loops pushing every item id. */
  method CollectCandidates(hs: seq<Heading>) returns (candidates: seq<string>)
    ensures candidates == Candidates(hs)
  {
    candidates := [];
    var k := 0;
    while k < |hs|
      invariant 0 <= k <= |hs|
      invariant candidates == Candidates(hs[..k])
    {
      assert hs[..k + 1][..k] == hs[..k];
      var h := hs[k];
      if h.group.Items? {
        var es := h.group.entries;
        var j := 0;
        while j < |es|
          invariant 0 <= j <= |es|
          invariant candidates == Candidates(hs[..k]) + ItemIds(h)[..j]
        {
          candidates := candidates + [es[j].id];
          assert ItemIds(h)[..j + 1] == ItemIds(h)[..j] + [es[j].id];
          j := j + 1;
        }
        assert ItemIds(h)[..j] == ItemIds(h);
      }
      k := k + 1;
    }
    assert hs[..k] == hs;
  }

  /** The Fisher-Yates loop, swapping in place from the last position down to position 1. */
  method ShuffleInPlace(a: array<string>, rand: nat -> nat)
    modifies a
    ensures a[..] == Shuffle(old(a[..]), rand)
  {
    if a.Length == 0 {
      return;
    }
    ghost var original := a[..];
    var i := a.Length - 1;
    while i > 0
      invariant 0 <= i < a.Length
      invariant ShuffleFrom(a[..], i, rand) == Shuffle(original, rand)
    {
      var j := rand(i) % (i + 1);
      ghost var before := a[..];
      a[i], a[j] := a[j], a[i];
      assert a[..] == Swap(before, i, j);
      i := i - 1;
    }
  }

  /**
   * `getRandomCheckboxes(checkboxesByHeading)`: the eligible ids (step 1
   * collects, step 2 filters), then a shuffled copy cut to the sample size;
   * `[]` when nothing is eligible.
   */
  method GetRandomCheckboxes(hs: seq<Heading>, rand: nat -> nat) returns (r: seq<string>)
    ensures EligibleIds(hs) == [] ==> r == []
    ensures EligibleIds(hs) != [] ==> |r| == SampleCount(|EligibleIds(hs)|)
    ensures EligibleIds(hs) != [] ==> r == Shuffle(EligibleIds(hs), rand)[..SampleCount(|EligibleIds(hs)|)]
    ensures multiset(r) <= multiset(EligibleIds(hs))
    ensures Distinct(EligibleIds(hs)) ==> Distinct(r)
    ensures r == Sample(hs, rand)
  {
    var candidates := CollectCandidates(hs);
    var eligible := Without(candidates, HeadingKeys(hs));
    if |eligible| == 0 {
      return [];
    }
    var total := |eligible|;
    var selectedCount := CeilFifth(total);
    if selectedCount < 1 {
      selectedCount := 1;
    }
    if total < selectedCount {
      selectedCount := total;
    }
    var a := new string[total](i requires 0 <= i < total => eligible[i]);
    assert a[..] == eligible;
    ShuffleInPlace(a, rand);
    r := a[..selectedCount];
    SampleIsFromEligible(hs, rand);
  }

  /**
   * For every oracle the sample is made of eligible ids, each at most as often
   * as it is eligible, and has no duplicates when the eligible ids have none.
   */
  lemma SampleIsFromEligible(hs: seq<Heading>, rand: nat -> nat)
    requires EligibleIds(hs) != []
    ensures SampleCount(|EligibleIds(hs)|) <= |Shuffle(EligibleIds(hs), rand)|
    ensures multiset(Shuffle(EligibleIds(hs), rand)[..SampleCount(|EligibleIds(hs)|)]) <= multiset(EligibleIds(hs))
    ensures Distinct(EligibleIds(hs)) ==> Distinct(Shuffle(EligibleIds(hs), rand)[..SampleCount(|EligibleIds(hs)|)])
  {
    var e := EligibleIds(hs);
    ShufflePermutes(e, |e| - 1, rand);
    PrefixBelow(Shuffle(e, rand), SampleCount(|e|));
  }

  /** Every id in the sample is an eligible id. */
  lemma SampleMembers(hs: seq<Heading>, rand: nat -> nat, x: string)
    requires EligibleIds(hs) != []
    requires SampleCount(|EligibleIds(hs)|) <= |Shuffle(EligibleIds(hs), rand)|
    requires x in Shuffle(EligibleIds(hs), rand)[..SampleCount(|EligibleIds(hs)|)]
    ensures x in EligibleIds(hs)
  {
    SampleIsFromEligible(hs, rand);
    var s := Shuffle(EligibleIds(hs), rand)[..SampleCount(|EligibleIds(hs)|)];
    assert x in multiset(s);
  }
}
