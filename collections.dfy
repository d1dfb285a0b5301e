/** Sequence helpers standing for the LINQ operators and collection
    mutations the modelled code uses. */
module Collections {
  import opened Wrappers

  /** LINQ `FirstOrDefault(p)`: the index of the first element satisfying
      `p`, or `None` when no element does. */
  function FirstIndex<T>(s: seq<T>, p: T -> bool): (r: Option<nat>)
    ensures r.Some? ==> r.value < |s| && p(s[r.value])
    ensures r.Some? ==> forall j :: 0 <= j < r.value ==> !p(s[j])
    ensures r.None? <==> forall j :: 0 <= j < |s| ==> !p(s[j])
    decreases |s|
  {
    if |s| == 0 then None
    else if p(s[0]) then Some(0)
    else match FirstIndex(s[1..], p)
      case None => None
      case Some(k) => Some(k + 1)
  }

  /** The number of elements satisfying `p`. */
  function Count<T>(s: seq<T>, p: T -> bool): (n: nat)
    ensures n <= |s|
    ensures n == 0 <==> forall j :: 0 <= j < |s| ==> !p(s[j])
    decreases |s|
  {
    if |s| == 0 then 0 else (if p(s[0]) then 1 else 0) + Count(s[1..], p)
  }

  /** The elements satisfying `p`, in their original order. */
  function Filter<T>(s: seq<T>, p: T -> bool): (r: seq<T>)
    ensures |r| == Count(s, p)
    ensures forall x :: x in r ==> x in s && p(x)
    decreases |s|
  {
    if |s| == 0 then [] else (if p(s[0]) then [s[0]] else []) + Filter(s[1..], p)
  }

  /** The sequence with the element at index `k` deleted (the ORM's
      `Delete` of one member of a collection). */
  function RemoveAt<T>(s: seq<T>, k: nat): (r: seq<T>)
    requires k < |s|
    ensures |r| == |s| - 1
    ensures forall j :: 0 <= j < k ==> r[j] == s[j]
    ensures forall j :: k <= j < |r| ==> r[j] == s[j + 1]
  {
    s[..k] + s[k + 1..]
  }

  lemma {:induction false} CountConcat<T>(a: seq<T>, b: seq<T>, p: T -> bool)
    ensures Count(a + b, p) == Count(a, p) + Count(b, p)
    decreases |a|
  {
    if |a| == 0 {
      assert a + b == b;
    } else {
      assert (a + b)[1..] == a[1..] + b;
      CountConcat(a[1..], b, p);
    }
  }

  lemma {:induction false} FilterConcat<T>(a: seq<T>, b: seq<T>, p: T -> bool)
    ensures Filter(a + b, p) == Filter(a, p) + Filter(b, p)
    decreases |a|
  {
    if |a| == 0 {
      assert a + b == b;
    } else {
      assert (a + b)[1..] == a[1..] + b;
      FilterConcat(a[1..], b, p);
    }
  }

  /** Deleting an element that satisfies `p` lowers the count by one and
      leaves the elements that do not satisfy `p` in place. */
  lemma {:induction false} RemoveAtCount<T>(s: seq<T>, k: nat, p: T -> bool, q: T -> bool)
    requires k < |s| && p(s[k]) && !q(s[k])
    ensures Count(RemoveAt(s, k), p) == Count(s, p) - 1
    ensures Filter(RemoveAt(s, k), q) == Filter(s, q)
  {
    var a, b, m := s[..k], s[k + 1..], [s[k]];
    assert m[1..] == [];
    assert s == a + (m + b);
    assert RemoveAt(s, k) == a + b;
    calc {
      Count(s, p);
      { CountConcat(a, m + b, p); }
      Count(a, p) + Count(m + b, p);
      { CountConcat(m, b, p); }
      Count(a, p) + 1 + Count(b, p);
      { CountConcat(a, b, p); }
      Count(a + b, p) + 1;
    }
    calc {
      Filter(s, q);
      { FilterConcat(a, m + b, q); }
      Filter(a, q) + Filter(m + b, q);
      { FilterConcat(m, b, q); }
      Filter(a, q) + Filter(b, q);
      { FilterConcat(a, b, q); }
      Filter(a + b, q);
    }
  }

  /** Appending one element: what `FirstIndex`, `Count` and `Filter` become. */
  lemma {:induction false} AppendOne<T>(s: seq<T>, x: T, p: T -> bool)
    ensures FirstIndex(s + [x], p) ==
              (if FirstIndex(s, p).Some? then FirstIndex(s, p)
               else if p(x) then Some(|s|) else None)
    ensures Count(s + [x], p) == Count(s, p) + (if p(x) then 1 else 0)
    ensures Filter(s + [x], p) == Filter(s, p) + (if p(x) then [x] else [])
  {
    assert [x][1..] == [];
    assert Count([x], p) == (if p(x) then 1 else 0);
    assert Filter([x], p) == (if p(x) then [x] else []);
    CountConcat(s, [x], p);
    FilterConcat(s, [x], p);
    var t := s + [x];
    assert forall j :: 0 <= j < |s| ==> t[j] == s[j];
    assert t[|s|] == x;
    var r, r' := FirstIndex(t, p), FirstIndex(s, p);
    if r'.Some? {
      assert r.Some?;
      assert r.value == r'.value;
    } else if p(x) {
      assert r.Some? && r.value == |s|;
    } else {
      assert r.None?;
    }
  }
}
