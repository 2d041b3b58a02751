/** Order-insensitive comparison of inventories (Payload/Loadout/LoadoutStatePolicy.h:55-86). */
module Inventory {
  datatype Entry = Entry(slot: int, itemId: string)

  /** The entries on the right that no entry on the left has claimed yet. */
  function Unmatched(right: seq<Entry>, matched: seq<bool>): multiset<Entry>
    requires |right| == |matched|
  {
    if right == [] then multiset{} else
    var n := |right| - 1;
    Unmatched(right[..n], matched[..n]) + if matched[n] then multiset{} else multiset{right[n]}
  }

  lemma {:induction false} NothingMatched(right: seq<Entry>, matched: seq<bool>)
    requires |right| == |matched| && forall k :: 0 <= k < |matched| ==> !matched[k]
    ensures Unmatched(right, matched) == multiset(right)
  {
    if right != [] {
      var n := |right| - 1;
      NothingMatched(right[..n], matched[..n]);
      assert right == right[..n] + [right[n]];
    }
  }

  lemma {:induction false} MatchRemoves(right: seq<Entry>, matched: seq<bool>, k: nat)
    requires |right| == |matched| && k < |right| && !matched[k]
    ensures Unmatched(right, matched) == Unmatched(right, matched[k := true]) + multiset{right[k]}
  {
    var n := |right| - 1;
    if k < n {
      MatchRemoves(right[..n], matched[..n], k);
      assert matched[k := true][..n] == matched[..n][k := true];
    } else {
      assert matched[k := true][..n] == matched[..n];
    }
  }

  lemma {:induction false} AbsentWhenSkipped(right: seq<Entry>, matched: seq<bool>, e: Entry)
    requires |right| == |matched| && forall k :: 0 <= k < |right| ==> matched[k] || right[k] != e
    ensures Unmatched(right, matched)[e] == 0
  {
    if right != [] {
      var n := |right| - 1;
      AbsentWhenSkipped(right[..n], matched[..n], e);
    }
  }

  /** The inner loop: claims the first equal entry on the right that is still free. */
  method Claim(expected: Entry, right: seq<Entry>, matched: array<bool>) returns (found: bool)
    requires matched.Length == |right|
    modifies matched
    ensures found ==> Unmatched(right, old(matched[..])) == Unmatched(right, matched[..]) + multiset{expected}
    ensures !found ==> matched[..] == old(matched[..]) && Unmatched(right, matched[..])[expected] == 0
  {
    ghost var before: seq<bool> := matched[..];
    for index := 0 to |right|
      invariant matched[..] == before
      invariant forall k :: 0 <= k < index ==> before[k] || right[k] != expected
    {
      if !matched[index] && expected.slot == right[index].slot && expected.itemId == right[index].itemId {
        MatchRemoves(right, before, index);
        matched[index] := true;
        assert matched[..] == before[index := true];
        return true;
      }
    }
    AbsentWhenSkipped(right, before, expected);
    found := false;
  }

  /** The greedy matching decides multiset equality, duplicates included. */
  method SameInventoryEntries(left: seq<Entry>, right: seq<Entry>) returns (same: bool)
    ensures same <==> multiset(left) == multiset(right)
  {
    if |left| != |right| {
      assert |multiset(left)| != |multiset(right)|;
      return false;
    }
    var matched := new bool[|right|](k => false);
    NothingMatched(right, matched[..]);
    for i := 0 to |left|
      invariant multiset(right) == multiset(left[..i]) + Unmatched(right, matched[..])
    {
      OneMore(left, i);
      var found := Claim(left[i], right, matched);
      if !found {
        PrefixCounts(left, i);
        return false;
      }
    }
    assert left[..|left|] == left;
    AllMatched(left, right, Unmatched(right, matched[..]));
    same := true;
  }

  lemma OneMore(left: seq<Entry>, i: nat)
    requires i < |left|
    ensures multiset(left[..i + 1]) == multiset(left[..i]) + multiset{left[i]}
  {
    assert left[..i + 1] == left[..i] + [left[i]];
  }

  lemma PrefixCounts(left: seq<Entry>, i: nat)
    requires i < |left|
    ensures multiset(left)[left[i]] > multiset(left[..i])[left[i]]
  {
    OneMore(left, i);
    assert left == left[..i + 1] + left[i + 1..];
  }

  lemma AllMatched(left: seq<Entry>, right: seq<Entry>, rest: multiset<Entry>)
    requires |left| == |right| && multiset(right) == multiset(left) + rest
    ensures multiset(left) == multiset(right)
  {
    assert |multiset(right)| == |multiset(left)| + |rest|;
  }

  /** left is right with its positions permuted. */
  predicate Rearranges(left: seq<Entry>, right: seq<Entry>, order: seq<nat>) {
    |left| == |order| == |right| &&
    (forall k :: 0 <= k < |order| ==> order[k] < |right| && left[k] == right[order[k]]) &&
    (forall j, k :: 0 <= j < k < |order| ==> order[j] != order[k])
  }

  lemma {:induction false} RestIsUnmatched(left: seq<Entry>, right: seq<Entry>, order: seq<nat>, taken: seq<bool>,
                                           n: nat)
    requires Rearranges(left, right, order) && n <= |order| && |taken| == |right|
    requires forall k :: n <= k < |order| ==> !taken[order[k]]
    ensures multiset(left[n..]) <= Unmatched(right, taken)
    decreases |order| - n
  {
    if n < |order| {
      MatchRemoves(right, taken, order[n]);
      RestIsUnmatched(left, right, order, taken[order[n] := true], n + 1);
      assert left[n..] == [left[n]] + left[n + 1..];
    }
  }

  /** The comparison ignores order: a rearrangement compares equal. */
  lemma RearrangedIsSame(left: seq<Entry>, right: seq<Entry>, order: seq<nat>)
    requires Rearranges(left, right, order)
    ensures multiset(left) == multiset(right)
  {
    var taken := seq(|right|, k => false);
    NothingMatched(right, taken);
    RestIsUnmatched(left, right, order, taken, 0);
    assert left[0..] == left;
    SubsetOfSameSize(multiset(left), multiset(right));
  }

  lemma SubsetOfSameSize(a: multiset<Entry>, b: multiset<Entry>)
    requires a <= b && |a| == |b|
    ensures a == b
  {
    assert b == a + (b - a);
  }
}
