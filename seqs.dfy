/** Generic sequence operations standing for the Ruby Enumerable methods the todo
    store and helpers rely on: Select stands for `delete_if` (with DeleteIf as its
    scan), for `count`, and for each half of `partition`; `find` is FirstMatch (with
    FindIndex as its scan); `partition` followed by emitting both halves is FalseFirst. */
module Seqs {

  datatype Option<T> = None | Some(value: T)

  /** The elements x of s with p(x) == keep, in their original order. */
  function Select<T>(p: T -> bool, keep: bool, s: seq<T>): (r: seq<T>)
    ensures |r| <= |s|
    ensures forall i :: 0 <= i < |r| ==> r[i] in s && p(r[i]) == keep
    ensures forall i :: 0 <= i < |s| && p(s[i]) == keep ==> s[i] in r
  {
    if s == [] then []
    else
      assert s == [s[0]] + s[1..];
      if p(s[0]) == keep then [s[0]] + Select(p, keep, s[1..])
      else Select(p, keep, s[1..])
  }

  /** a can be obtained from s by dropping elements, without reordering the rest. */
  ghost predicate IsSubsequence<T>(a: seq<T>, s: seq<T>)
    decreases |s|
  {
    a == [] || (s != [] && ((a[0] == s[0] && IsSubsequence(a[1..], s[1..])) || IsSubsequence(a, s[1..])))
  }

  /** The elements Select keeps stay in their original relative order. */
  lemma {:induction false} SelectIsSubsequence<T>(p: T -> bool, keep: bool, s: seq<T>)
    ensures IsSubsequence(Select(p, keep, s), s)
    decreases |s|
  {
    if s != [] {
      SelectIsSubsequence(p, keep, s[1..]);
    }
  }

  lemma {:induction false} SelectConcat<T>(p: T -> bool, keep: bool, a: seq<T>, b: seq<T>)
    ensures Select(p, keep, a + b) == Select(p, keep, a) + Select(p, keep, b)
    decreases |a|
  {
    if a == [] {
      assert a + b == b;
    } else {
      assert (a + b)[1..] == a[1..] + b;
      SelectConcat(p, keep, a[1..], b);
    }
  }

  /** Selecting again on the same side changes nothing; on the other side leaves nothing. */
  lemma {:induction false} SelectOfSelect<T>(p: T -> bool, keep: bool, keep': bool, s: seq<T>)
    ensures Select(p, keep', Select(p, keep, s)) == if keep' == keep then Select(p, keep, s) else []
    decreases |s|
  {
    if s != [] {
      SelectOfSelect(p, keep, keep', s[1..]);
    }
  }

  /** The two sides of a partition together hold every element exactly as often as s. */
  lemma {:induction false} SelectSplitsMultiset<T>(p: T -> bool, s: seq<T>)
    ensures multiset(Select(p, false, s)) + multiset(Select(p, true, s)) == multiset(s)
    decreases |s|
  {
    if s != [] {
      SelectSplitsMultiset(p, s[1..]);
      assert s == [s[0]] + s[1..];
    }
  }

  /** The elements of s with p false, followed by those with p true: Ruby's
      `trues, falses = s.partition(&p)` with falses emitted before trues. */
  function FalseFirst<T>(p: T -> bool, s: seq<T>): seq<T>
  {
    Select(p, false, s) + Select(p, true, s)
  }

  /** FalseFirst is a stable partition: a permutation of s, every element failing p
      before every element satisfying p, and each group in its original order. */
  lemma StablePartition<T>(p: T -> bool, s: seq<T>)
    ensures multiset(FalseFirst(p, s)) == multiset(s)
    ensures forall i, j :: 0 <= i < j < |FalseFirst(p, s)| && p(FalseFirst(p, s)[i]) ==> p(FalseFirst(p, s)[j])
    ensures Select(p, false, FalseFirst(p, s)) == Select(p, false, s)
    ensures Select(p, true, FalseFirst(p, s)) == Select(p, true, s)
  {
    var falses, trues := Select(p, false, s), Select(p, true, s);
    var r := FalseFirst(p, s);
    SelectSplitsMultiset(p, s);
    forall i, j | 0 <= i < j < |r| && p(r[i])
      ensures p(r[j])
    {
      assert r[j] == trues[j - |falses|];
    }
    SelectConcat(p, false, falses, trues);
    SelectConcat(p, true, falses, trues);
    SelectOfSelect(p, false, false, s);
    SelectOfSelect(p, false, true, s);
    SelectOfSelect(p, true, false, s);
    SelectOfSelect(p, true, true, s);
  }

  /** Ruby's `find`: the position of the first element satisfying p, if any. */
  function FirstMatch<T>(p: T -> bool, s: seq<T>): (r: Option<nat>)
    ensures r.Some? ==> r.value < |s| && p(s[r.value]) && forall j :: 0 <= j < r.value ==> !p(s[j])
    ensures r.None? <==> forall j :: 0 <= j < |s| ==> !p(s[j])
  {
    if s == [] then None
    else if p(s[0]) then Some(0)
    else match FirstMatch(p, s[1..])
      case None => None
      case Some(i) => Some(i + 1)
  }

  /** An element appended after elements that all fail p is the first match. */
  lemma FirstMatchOfAppended<T>(p: T -> bool, s: seq<T>, x: T)
    requires p(x)
    requires forall j :: 0 <= j < |s| ==> !p(s[j])
    ensures FirstMatch(p, s + [x]) == Some(|s|)
  {
    var r := s + [x];
    assert r[|s|] == x;
    assert forall j :: 0 <= j < |s| ==> r[j] == s[j];
  }

  /** Ruby's `find`, as the left-to-right scan it performs. */
  method FindIndex<T>(p: T -> bool, s: seq<T>) returns (r: Option<nat>)
    ensures r == FirstMatch(p, s)
  {
    var k := 0;
    while k < |s|
      invariant 0 <= k <= |s|
      invariant forall j :: 0 <= j < k ==> !p(s[j])
    {
      if p(s[k]) {
        return Some(k);
      }
      k := k + 1;
    }
    return None;
  }

  /** Ruby's `delete_if`, as the scan that keeps the rejected-by-p elements in order. */
  method DeleteIf<T>(p: T -> bool, s: seq<T>) returns (r: seq<T>)
    ensures r == Select(p, false, s)
  {
    r := [];
    var k := 0;
    while k < |s|
      invariant 0 <= k <= |s|
      invariant r == Select(p, false, s[..k])
    {
      assert s[..k + 1] == s[..k] + [s[k]];
      SelectConcat(p, false, s[..k], [s[k]]);
      if !p(s[k]) {
        r := r + [s[k]];
      }
      k := k + 1;
    }
    assert s[..k] == s;
  }

  /** No two elements of s share a key. */
  ghost predicate DistinctKeys<T>(key: T -> int, s: seq<T>)
  {
    forall i, j :: 0 <= i < j < |s| ==> key(s[i]) != key(s[j])
  }

  lemma {:induction false} SelectKeepsDistinctKeys<T>(key: T -> int, p: T -> bool, keep: bool, s: seq<T>)
    requires DistinctKeys(key, s)
    ensures DistinctKeys(key, Select(p, keep, s))
    decreases |s|
  {
    if s != [] {
      var rest := Select(p, keep, s[1..]);
      SelectKeepsDistinctKeys(key, p, keep, s[1..]);
      if p(s[0]) == keep {
        forall y | y in rest
          ensures key(y) != key(s[0])
        {
          var m :| 0 <= m < |s[1..]| && s[1..][m] == y;
          assert s[m + 1] == y;
        }
        var r := [s[0]] + rest;
        forall i, j | 0 <= i < j < |r|
          ensures key(r[i]) != key(r[j])
        {
          assert r[j] == rest[j - 1];
          if i > 0 {
            assert r[i] == rest[i - 1];
          }
        }
      }
    }
  }

  /** Every key in s is at least 0. */
  ghost predicate NonNegativeKeys<T>(key: T -> int, s: seq<T>)
  {
    forall i :: 0 <= i < |s| ==> key(s[i]) >= 0
  }

  /** Appending an element whose key exceeds every existing key keeps keys distinct. */
  lemma AppendLargerKeyKeepsDistinct<T>(key: T -> int, s: seq<T>, x: T)
    requires DistinctKeys(key, s)
    requires forall i :: 0 <= i < |s| ==> key(s[i]) < key(x)
    ensures DistinctKeys(key, s + [x])
  {
  }

  /** When every element of s is on the wanted side, Select keeps all of s. */
  lemma {:induction false} SelectKeepsAll<T>(p: T -> bool, keep: bool, s: seq<T>)
    requires forall k :: 0 <= k < |s| ==> p(s[k]) == keep
    ensures Select(p, keep, s) == s
    decreases |s|
  {
    if s != [] {
      SelectKeepsAll(p, keep, s[1..]);
      assert s == [s[0]] + s[1..];
    }
  }

  /** When s[i] is the only element satisfying p, deleting the matches removes just s[i]. */
  lemma {:induction false} SelectDropsSoleMatch<T>(p: T -> bool, s: seq<T>, i: nat)
    requires i < |s| && p(s[i])
    requires forall k :: 0 <= k < |s| && k != i ==> !p(s[k])
    ensures Select(p, false, s) == s[..i] + s[i + 1..]
    decreases i
  {
    var tail := s[1..];
    if i == 0 {
      SelectKeepsAll(p, false, tail);
    } else {
      assert forall k :: 0 <= k < |tail| && k != i - 1 ==> !p(tail[k]) by {
        forall k | 0 <= k < |tail| && k != i - 1
          ensures !p(tail[k])
        {
          assert tail[k] == s[k + 1];
        }
      }
      SelectDropsSoleMatch(p, tail, i - 1);
      assert s[..i] == [s[0]] + tail[..i - 1];
      assert s[i + 1..] == tail[i..];
    }
  }

  /** find gives the same answer on two sequences whose elements agree on p position by position. */
  lemma FirstMatchSameTests<T>(p: T -> bool, a: seq<T>, b: seq<T>)
    requires |a| == |b|
    requires forall k :: 0 <= k < |a| ==> p(a[k]) == p(b[k])
    ensures FirstMatch(p, a) == FirstMatch(p, b)
  {
  }
}
