/**
 * The System.Collections.Generic.List operations the core relies on:
 * IndexOf (first occurrence), Remove (first occurrence only), and the
 * filtering loops that build query results.
 */
module Lists {
  import opened Wrappers

  /** No element occurs twice. */
  predicate Distinct<T(==)>(s: seq<T>) {
    forall i, j :: 0 <= i < j < |s| ==> s[i] != s[j]
  }

  /** Position of the first occurrence of v, or None (List.IndexOf returning -1). */
  function IndexOf<T(==)>(s: seq<T>, v: T): (r: Option<nat>)
    ensures r.None? <==> v !in s
    ensures r.Some? ==> r.value < |s| && s[r.value] == v
    ensures r.Some? ==> forall j :: 0 <= j < r.value ==> s[j] != v
  {
    if s == [] then None
    else if s[0] == v then Some(0)
    else
      match IndexOf(s[1..], v)
      case None => None
      case Some(i) => Some(i + 1)
  }

  /** The list after List.Remove(v): the first occurrence of v is taken out,
      and the list is unchanged when v does not occur. */
  function RemoveFirst<T(==)>(s: seq<T>, v: T): (r: seq<T>)
    ensures v !in s ==> r == s
    ensures multiset(r) == multiset(s) - multiset{v}
  {
    if s == [] then []
    else if s[0] == v then
      assert s == [s[0]] + s[1..];
      s[1..]
    else
      assert s == [s[0]] + s[1..];
      [s[0]] + RemoveFirst(s[1..], v)
  }

  /** RemoveFirst cuts exactly the position IndexOf reports. */
  lemma {:induction false} RemoveFirstAt<T>(s: seq<T>, v: T)
    requires v in s
    ensures IndexOf(s, v).Some?
    ensures var i := IndexOf(s, v).value; RemoveFirst(s, v) == s[..i] + s[i + 1..]
  {
    if s[0] != v {
      var t := s[1..];
      assert v in t by {
        var k :| 0 <= k < |s| && s[k] == v;
        assert t[k - 1] == v;
      }
      RemoveFirstAt(t, v);
      var i := IndexOf(t, v).value;
      assert IndexOf(s, v) == Some(i + 1);
      assert RemoveFirst(s, v) == [s[0]] + (t[..i] + t[i + 1..]);
      ConsSlices(s, i);
    }
  }

  lemma {:induction false} ConsSlices<T>(s: seq<T>, i: nat)
    requires i + 1 < |s|
    ensures [s[0]] + (s[1..][..i] + s[1..][i + 1..]) == s[..i + 1] + s[i + 2..]
  {
    assert [s[0]] + s[1..][..i] == s[..i + 1];
    assert s[1..][i + 1..] == s[i + 2..];
  }

  /** The elements of s that satisfy p, in their original order. */
  function Filter<T>(s: seq<T>, p: T -> bool): (r: seq<T>)
    ensures |r| <= |s|
    ensures forall k :: 0 <= k < |r| ==> r[k] in s && p(r[k])
    ensures forall k :: 0 <= k < |s| && p(s[k]) ==> s[k] in r
  {
    if s == [] then []
    else
      var t := Filter(s[1..], p);
      assert forall k :: 1 <= k < |s| ==> s[k] == s[1..][k - 1];
      if p(s[0]) then [s[0]] + t else t
  }

  /** Filtering distributes over concatenation, so a filtering loop that
      appends one element at a time builds Filter of the prefix seen so far. */
  lemma {:induction false} FilterAppend<T>(s: seq<T>, x: T, p: T -> bool)
    ensures Filter(s + [x], p) == Filter(s, p) + (if p(x) then [x] else [])
  {
    if s == [] {
      assert [x][1..] == [];
    } else {
      assert (s + [x])[1..] == s[1..] + [x];
      FilterAppend(s[1..], x, p);
    }
  }
}
