/** Generic helpers on sequences: trimming by a predicate, removing elements, searching. */
module Seqs {
  import opened Wrappers

  /** Drops the leading elements that satisfy `p`. */
  function TrimLeft<T>(s: seq<T>, p: T -> bool): (r: seq<T>)
    ensures |r| <= |s| && r == s[|s| - |r|..]
    ensures r == [] || !p(r[0])
    decreases |s|
  {
    if s != [] && p(s[0]) then TrimLeft(s[1..], p) else s
  }

  /** Drops the trailing elements that satisfy `p`. */
  function TrimRight<T>(s: seq<T>, p: T -> bool): (r: seq<T>)
    ensures |r| <= |s| && r == s[..|r|]
    ensures r == [] || !p(r[|r| - 1])
    decreases |s|
  {
    if s != [] && p(s[|s| - 1]) then TrimRight(s[..|s| - 1], p) else s
  }

  /** Drops leading and trailing elements that satisfy `p` (Go's TrimSpace / TrimFunc). */
  function Trim<T>(s: seq<T>, p: T -> bool): (r: seq<T>)
    ensures r == [] || (!p(r[0]) && !p(r[|r| - 1]))
    ensures |r| <= |s|
  {
    TrimRight(TrimLeft(s, p), p)
  }

  /** Where the part kept by Trim starts: after the leading elements that satisfy `p`. */
  function TrimStart<T>(s: seq<T>, p: T -> bool): nat
  {
    |s| - |TrimLeft(s, p)|
  }

  /** Everything TrimLeft drops satisfies `p`. */
  lemma {:induction false} TrimLeftDrops<T>(s: seq<T>, p: T -> bool)
    ensures forall k :: 0 <= k < |s| - |TrimLeft(s, p)| ==> p(s[k])
    decreases |s|
  {
    if s != [] && p(s[0]) {
      TrimLeftDrops(s[1..], p);
      forall k | 0 < k < |s| - |TrimLeft(s, p)|
        ensures p(s[k])
      {
        assert s[k] == s[1..][k - 1];
      }
    }
  }

  /** Everything TrimRight drops satisfies `p`. */
  lemma {:induction false} TrimRightDrops<T>(s: seq<T>, p: T -> bool)
    ensures forall k :: |TrimRight(s, p)| <= k < |s| ==> p(s[k])
    decreases |s|
  {
    if s != [] && p(s[|s| - 1]) {
      TrimRightDrops(s[..|s| - 1], p);
      forall k | |TrimRight(s, p)| <= k < |s| - 1
        ensures p(s[k])
      {
        assert s[k] == s[..|s| - 1][k];
      }
    }
  }

  /**
   * What Trim keeps is the infix of `s` that starts at TrimStart, and
   * everything before and after it satisfies `p`.
   */
  lemma TrimInfix<T>(s: seq<T>, p: T -> bool)
    ensures var i := TrimStart(s, p);
      var r := Trim(s, p);
      i + |r| <= |s| && r == s[i..i + |r|] &&
      (forall k :: 0 <= k < i ==> p(s[k])) &&
      (forall k :: i + |r| <= k < |s| ==> p(s[k]))
  {
    var l := TrimLeft(s, p);
    var r := TrimRight(l, p);
    var i := |s| - |l|;
    TrimLeftDrops(s, p);
    TrimRightDrops(l, p);
    forall k | i + |r| <= k < |s|
      ensures p(s[k])
    {
      assert s[k] == l[k - i];
    }
  }

  /** Trimming leaves a sequence alone when its ends do not satisfy `p`. */
  lemma TrimNoop<T>(s: seq<T>, p: T -> bool)
    requires s == [] || (!p(s[0]) && !p(s[|s| - 1]))
    ensures Trim(s, p) == s
  {
  }

  /** Trimming a sequence whose every element satisfies `p` leaves nothing. */
  lemma TrimAll<T>(s: seq<T>, p: T -> bool)
    requires forall k :: 0 <= k < |s| ==> p(s[k])
    ensures Trim(s, p) == []
  {
  }

  /** All elements of `s` except those equal to `x`, in order (Go's strings.ReplaceAll(s, x, "")). */
  function Remove<T(==)>(s: seq<T>, x: T): (r: seq<T>)
    ensures |r| <= |s|
    decreases |s|
  {
    if s == [] then []
    else if s[0] == x then Remove(s[1..], x)
    else [s[0]] + Remove(s[1..], x)
  }

  /** Nothing equal to `x` is left. */
  lemma {:induction false} RemoveAbsent<T>(s: seq<T>, x: T)
    ensures x !in Remove(s, x)
    decreases |s|
  {
    if s != [] {
      RemoveAbsent(s[1..], x);
    }
  }

  /** Removing an element that does not occur changes nothing. */
  lemma {:induction false} RemoveNoop<T>(s: seq<T>, x: T)
    requires x !in s
    ensures Remove(s, x) == s
    decreases |s|
  {
    if s != [] {
      assert x !in s[1..];
      RemoveNoop(s[1..], x);
    }
  }

  /** Removing `x` from a concatenation removes it from each part. */
  lemma {:induction false} RemoveConcat<T>(a: seq<T>, b: seq<T>, x: T)
    ensures Remove(a + b, x) == Remove(a, x) + Remove(b, x)
    decreases |a|
  {
    if a == [] {
      assert a + b == b;
    } else {
      assert (a + b)[0] == a[0];
      assert (a + b)[1..] == a[1..] + b;
      RemoveConcat(a[1..], b, x);
    }
  }

  /** The elements of `s` that satisfy `p`, in order. */
  function Filter<T>(s: seq<T>, p: T -> bool): (r: seq<T>)
    ensures |r| <= |s|
    ensures forall k :: 0 <= k < |r| ==> p(r[k])
    decreases |s|
  {
    if s == [] then []
    else if p(s[0]) then [s[0]] + Filter(s[1..], p)
    else Filter(s[1..], p)
  }

  /** Filtering keeps exactly the elements that satisfy `p`. */
  lemma {:induction false} FilterMembers<T>(s: seq<T>, p: T -> bool, x: T)
    ensures x in Filter(s, p) <==> x in s && p(x)
    decreases |s|
  {
    if s != [] {
      FilterMembers(s[1..], p, x);
      assert x in s <==> x == s[0] || x in s[1..];
    }
  }

  /** Filtering a sequence whose every element satisfies `p` changes nothing. */
  lemma {:induction false} FilterAll<T>(s: seq<T>, p: T -> bool)
    requires forall k :: 0 <= k < |s| ==> p(s[k])
    ensures Filter(s, p) == s
    decreases |s|
  {
    if s != [] {
      FilterAll(s[1..], p);
      assert s == [s[0]] + s[1..];
    }
  }

  /** The index of the first occurrence of `x` in `s`, if any. */
  function IndexOf<T(==)>(s: seq<T>, x: T): (r: Option<nat>)
    ensures r.None? <==> x !in s
    ensures r.Some? ==> r.value < |s| && s[r.value] == x && x !in s[..r.value]
    decreases |s|
  {
    if s == [] then None
    else if s[0] == x then Some(0)
    else match IndexOf(s[1..], x)
      case None => None
      case Some(k) =>
        assert s[..k + 1] == [s[0]] + s[1..][..k];
        Some(k + 1)
  }

  /** An occurrence with no earlier one is the first. */
  lemma IndexOfFirst<T>(s: seq<T>, x: T, k: nat)
    requires k < |s| && s[k] == x && x !in s[..k]
    ensures IndexOf(s, x) == Some(k)
  {
    var r := IndexOf(s, x).value;
    forall j | 0 <= j < r
      ensures s[j] != x
    {
      assert s[..r][j] == s[j];
    }
    forall j | 0 <= j < k
      ensures s[j] != x
    {
      assert s[..k][j] == s[j];
    }
  }
}
