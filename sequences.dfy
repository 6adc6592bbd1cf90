/** Sequence operations that give the abstract effect of the linked-list
    operations and of the search trees: every relinking in the lists, and
    every insertion or deletion in a tree read in order, is, seen from the
    values it holds, one of the functions below. */
module Sequences {

  /** The sequence read back to front. */
  function Reverse<T>(s: seq<T>): (r: seq<T>)
    ensures |r| == |s|
    ensures forall k :: 0 <= k < |s| ==> r[k] == s[|s| - 1 - k]
  {
    if s == [] then [] else Reverse(s[1..]) + [s[0]]
  }

  /** Reversing twice gives back the original sequence. */
  lemma ReverseReverse<T>(s: seq<T>)
    ensures Reverse(Reverse(s)) == s
  {
    var r := Reverse(Reverse(s));
    assert forall k :: 0 <= k < |s| ==> r[k] == s[k];
  }

  /** x placed at index i, the elements from i on shifted one place up. */
  function InsertAt<T>(s: seq<T>, i: nat, x: T): (r: seq<T>)
    requires i <= |s|
    ensures |r| == |s| + 1 && r[i] == x
    ensures forall k :: 0 <= k < i ==> r[k] == s[k]
    ensures forall k :: i < k < |r| ==> r[k] == s[k - 1]
    ensures multiset(r) == multiset(s) + multiset{x}
  {
    assert s == s[..i] + s[i..];
    s[..i] + [x] + s[i..]
  }

  /** The element at index i taken out, the later ones shifted one place down. */
  function RemoveAt<T>(s: seq<T>, i: nat): (r: seq<T>)
    requires i < |s|
    ensures |r| == |s| - 1
    ensures forall k :: 0 <= k < i ==> r[k] == s[k]
    ensures forall k :: i <= k < |r| ==> r[k] == s[k + 1]
    ensures multiset(r) == multiset(s) - multiset{s[i]}
  {
    assert s == s[..i] + [s[i]] + s[i + 1..];
    s[..i] + s[i + 1..]
  }

  /** Inserting and then removing at the same index is the identity. */
  lemma RemoveInsertAt<T>(s: seq<T>, i: nat, x: T)
    requires i <= |s|
    ensures RemoveAt(InsertAt(s, i, x), i) == s
  {
    var r := RemoveAt(InsertAt(s, i, x), i);
    assert forall k :: 0 <= k < |s| ==> r[k] == s[k];
  }

  /** Index of the first occurrence of v, or -1 when v does not occur. */
  function IndexOf(s: seq<int>, v: int): (i: int)
    ensures -1 <= i < |s|
    ensures i == -1 <==> v !in s
    ensures 0 <= i ==> s[i] == v && v !in s[..i]
  {
    if s == [] then -1
    else if s[0] == v then 0
    else
      var j := IndexOf(s[1..], v);
      assert j >= 0 ==> s[..j + 1] == [s[0]] + s[1..][..j];
      if j == -1 then -1 else j + 1
  }

  /** The first occurrence of v removed; s itself when v does not occur. */
  function RemoveFirst(s: seq<int>, v: int): (r: seq<int>)
    ensures v in s ==> |r| == |s| - 1 && multiset(r) == multiset(s) - multiset{v}
    ensures v !in s ==> r == s
  {
    var i := IndexOf(s, v);
    if i == -1 then s else RemoveAt(s, i)
  }

  /** Non-decreasing order. */
  ghost predicate Sorted(s: seq<int>)
  {
    forall i, j :: 0 <= i < j < |s| ==> s[i] <= s[j]
  }

  /** Index of the first element that is at least v (|s| when there is none):
      where an ascending insertion puts v. */
  function InsertionPoint(s: seq<int>, v: int): (k: nat)
    ensures k <= |s|
    ensures forall j :: 0 <= j < k ==> s[j] < v
    ensures k < |s| ==> v <= s[k]
  {
    if s == [] || v <= s[0] then 0 else 1 + InsertionPoint(s[1..], v)
  }

  /** Inserting at the insertion point keeps a sorted sequence sorted and adds
      exactly one v. */
  lemma InsertAtInsertionPointSorted(s: seq<int>, v: int)
    requires Sorted(s)
    ensures Sorted(InsertAt(s, InsertionPoint(s, v), v))
    ensures multiset(InsertAt(s, InsertionPoint(s, v), v)) == multiset(s) + multiset{v}
  {
    var k := InsertionPoint(s, v);
    var r := InsertAt(s, k, v);
    forall i, j | 0 <= i < j < |r| ensures r[i] <= r[j] {
      if j < k {
      } else if j == k {
      } else if i < k {
        assert s[i] < v <= s[k] <= s[j - 1];
      } else if i == k {
        assert v <= s[k] <= s[j - 1];
      } else {
      }
    }
  }

  /** Strictly ascending order: every value occurs at most once. */
  ghost predicate Increasing(s: seq<int>)
  {
    forall i, j :: 0 <= i < j < |s| ==> s[i] < s[j]
  }

  /** A strictly ascending sequence around d splits into strictly ascending
      parts, the first below d and the second above it. */
  lemma IncreasingParts(a: seq<int>, d: int, b: seq<int>)
    requires Increasing(a + [d] + b)
    ensures Increasing(a) && Increasing(b) && Below(a, d) && Above(b, d)
  {
    var s := a + [d] + b;
    assert forall i :: 0 <= i < |a| ==> s[i] == a[i];
    assert s[|a|] == d;
    assert forall i :: 0 <= i < |b| ==> s[|a| + 1 + i] == b[i];
  }

  /** All of a is below d. */
  ghost predicate Below(a: seq<int>, d: int)
  {
    forall i :: 0 <= i < |a| ==> a[i] < d
  }

  /** All of b is above d. */
  ghost predicate Above(b: seq<int>, d: int)
  {
    forall i :: 0 <= i < |b| ==> d < b[i]
  }

  /** v added in ascending position, or s itself when v already occurs:
      the in-order effect of inserting a key into a search tree that
      ignores duplicates. */
  function InsertKey(s: seq<int>, v: int): seq<int>
  {
    if v in s then s else InsertAt(s, InsertionPoint(s, v), v)
  }

  /** Inserting a key keeps a strictly ascending sequence strictly
      ascending and adds exactly that key. */
  lemma InsertKeyIncreasing(s: seq<int>, v: int)
    requires Increasing(s)
    ensures Increasing(InsertKey(s, v))
    ensures forall x :: x in InsertKey(s, v) <==> x in s || x == v
  {
    if v !in s {
      var k := InsertionPoint(s, v);
      var r := InsertAt(s, k, v);
      assert k < |s| ==> v < s[k];
      forall i, j | 0 <= i < j < |r| ensures r[i] < r[j] {
        if j < k {
        } else if j == k {
        } else if i < k {
          assert s[i] < v < s[k] <= s[j - 1];
        } else if i == k {
          assert v < s[k] <= s[j - 1];
        } else {
        }
      }
      assert multiset(r) == multiset(s) + multiset{v};
      forall x ensures x in r <==> x in s || x == v {
        assert x in r <==> x in multiset(r);
        assert x in s <==> x in multiset(s);
      }
    }
  }

  /** The insertion point of v in a + c is that in a, when v goes no
      later than the front of c. */
  lemma {:induction false} InsertionPointPrefix(a: seq<int>, c: seq<int>, v: int)
    requires c == [] || v <= c[0]
    ensures InsertionPoint(a + c, v) == InsertionPoint(a, v)
  {
    if a != [] {
      assert (a + c)[0] == a[0] && (a + c)[1..] == a[1..] + c;
      if v > a[0] {
        InsertionPointPrefix(a[1..], c, v);
      }
    } else {
      assert a + c == c;
    }
  }

  /** The insertion point of v in a + c lies past a, when all of a is
      below v. */
  lemma {:induction false} InsertionPointSuffix(a: seq<int>, c: seq<int>, v: int)
    requires forall i :: 0 <= i < |a| ==> a[i] < v
    ensures InsertionPoint(a + c, v) == |a| + InsertionPoint(c, v)
  {
    if a != [] {
      assert (a + c)[0] == a[0] && (a + c)[1..] == a[1..] + c;
      InsertionPointSuffix(a[1..], c, v);
    } else {
      assert a + c == c;
    }
  }

  /** Inserting a key below d into a + [d] + b, with b above d, inserts
      it into a. */
  lemma InsertKeyLeft(a: seq<int>, d: int, b: seq<int>, v: int)
    requires v < d && Above(b, d)
    ensures InsertKey(a + [d] + b, v) == InsertKey(a, v) + [d] + b
  {
    var c := [d] + b;
    assert a + [d] + b == a + c;
    assert v !in c;
    if v !in a {
      InsertionPointPrefix(a, c, v);
      InsertAtAppend(a, c, InsertionPoint(a, v), v);
    }
  }

  lemma InsertAtAppend(a: seq<int>, c: seq<int>, k: nat, v: int)
    requires k <= |a|
    ensures InsertAt(a + c, k, v) == InsertAt(a, k, v) + c
  {
    assert (a + c)[..k] == a[..k] && (a + c)[k..] == a[k..] + c;
  }

  /** Inserting a key above d into a + [d] + b, with a below d, inserts
      it into b. */
  lemma InsertKeyRight(a: seq<int>, d: int, b: seq<int>, v: int)
    requires d < v && Below(a, d)
    ensures InsertKey(a + [d] + b, v) == a + [d] + InsertKey(b, v)
  {
    var p := a + [d];
    assert Below(p, v) by {
      assert forall i :: 0 <= i < |a| ==> p[i] == a[i];
    }
    assert v !in p;
    if v !in b {
      InsertionPointSuffix(p, b, v);
      InsertAtAfter(p, b, InsertionPoint(b, v), v);
    }
  }

  lemma InsertAtAfter(p: seq<int>, b: seq<int>, k: nat, v: int)
    requires k <= |b|
    ensures InsertAt(p + b, |p| + k, v) == p + InsertAt(b, k, v)
  {
    assert (p + b)[..|p| + k] == p + b[..k] && (p + b)[|p| + k..] == b[k..];
  }

  /** IndexOf finds the first occurrence: an index holding v with no v
      before it is the one. */
  lemma IndexOfFirst(s: seq<int>, v: int, i: int)
    requires 0 <= i < |s| && s[i] == v && v !in s[..i]
    ensures IndexOf(s, v) == i
  {
  }

  /** Removing the first v from a + c removes it from a when it occurs
      there, else from c. */
  lemma RemoveFirstAppend(a: seq<int>, c: seq<int>, v: int)
    ensures RemoveFirst(a + c, v) == if v in a then RemoveFirst(a, v) + c else a + RemoveFirst(c, v)
  {
    var s := a + c;
    if v in a {
      var i := IndexOf(a, v);
      assert s[..i] == a[..i];
      IndexOfFirst(s, v, i);
      RemoveAtAppend(a, c, i);
    } else if v in c {
      var i := IndexOf(c, v);
      assert s[..|a| + i] == a + c[..i];
      IndexOfFirst(s, v, |a| + i);
      RemoveAtAfter(a, c, i);
    } else {
      assert v !in s;
    }
  }

  lemma RemoveAtAppend(a: seq<int>, c: seq<int>, i: nat)
    requires i < |a|
    ensures RemoveAt(a + c, i) == RemoveAt(a, i) + c
  {
    assert (a + c)[..i] == a[..i] && (a + c)[i + 1..] == a[i + 1..] + c;
  }

  lemma RemoveAtAfter(a: seq<int>, c: seq<int>, i: nat)
    requires i < |c|
    ensures RemoveAt(a + c, |a| + i) == a + RemoveAt(c, i)
  {
    assert (a + c)[..|a| + i] == a + c[..i] && (a + c)[|a| + i + 1..] == c[i + 1..];
  }

  /** Removing a key below d from a + [d] + b, with b above d, removes
      it from a. */
  lemma RemoveFirstLeft(a: seq<int>, d: int, b: seq<int>, v: int)
    requires v < d && Above(b, d)
    ensures RemoveFirst(a + [d] + b, v) == RemoveFirst(a, v) + [d] + b
  {
    var c := [d] + b;
    assert a + [d] + b == a + c;
    assert v !in c;
    RemoveFirstAppend(a, c, v);
  }

  /** Removing a key above d from a + [d] + b, with a below d, removes
      it from b. */
  lemma RemoveFirstRight(a: seq<int>, d: int, b: seq<int>, v: int)
    requires d < v && Below(a, d)
    ensures RemoveFirst(a + [d] + b, v) == a + [d] + RemoveFirst(b, v)
  {
    assert v !in a + [d];
    RemoveFirstAppend(a + [d], b, v);
  }

  /** Removing d from a + [d] + b, with a below d, leaves a + b. */
  lemma RemoveFirstMiddle(a: seq<int>, d: int, b: seq<int>)
    requires Below(a, d)
    ensures RemoveFirst(a + [d] + b, d) == a + b
  {
    var c := [d] + b;
    assert a + [d] + b == a + c;
    assert d !in a;
    RemoveFirstAppend(a, c, d);
    IndexOfFirst(c, d, 0);
    assert c[..0] + c[1..] == b;
  }

  /** Removing a key keeps a strictly ascending sequence strictly
      ascending and takes out exactly that key. */
  lemma RemoveFirstIncreasing(s: seq<int>, v: int)
    requires Increasing(s)
    ensures Increasing(RemoveFirst(s, v))
    ensures forall x :: x in RemoveFirst(s, v) <==> x in s && x != v
  {
    if v in s {
      var i := IndexOf(s, v);
      var r := RemoveAt(s, i);
      forall x | x in r ensures x in s && x != v {
        var k :| 0 <= k < |r| && r[k] == x;
        assert k < i ==> r[k] == s[k];
        assert i <= k ==> r[k] == s[k + 1];
      }
      forall x | x in s && x != v ensures x in r {
        var k :| 0 <= k < |s| && s[k] == x;
        if k < i {
          assert r[k] == x;
        } else {
          assert r[k - 1] == x;
        }
      }
    }
  }

  /** Removing the first element's value removes the first element. */
  lemma RemoveFirstHead(s: seq<int>)
    requires s != []
    ensures RemoveFirst(s, s[0]) == s[1..]
  {
    RemoveFirstMiddle([], s[0], s[1..]);
    assert [] + [s[0]] + s[1..] == s;
  }

  /** Putting the head back in front of the tail gives the sequence. */
  lemma SplitHead(a: seq<int>, b: seq<int>)
    requires b != []
    ensures a + [b[0]] + b[1..] == a + b
  {
    assert [b[0]] + b[1..] == b;
  }

  /** Removing a key that was just inserted into a sequence that did not
      hold it gives the sequence back. */
  lemma RemoveFirstInsertKey(s: seq<int>, v: int)
    requires v !in s
    ensures RemoveFirst(InsertKey(s, v), v) == s
  {
    var p := InsertionPoint(s, v);
    var r := InsertAt(s, p, v);
    assert r[..p] == s[..p];
    IndexOfFirst(r, v, p);
    RemoveInsertAt(s, p, v);
  }

  /** Concatenation is associative. */
  lemma AppendAssociates<T>(a: seq<T>, b: seq<T>, c: seq<T>)
    ensures a + (b + c) == (a + b) + c
  {
  }

  /** The front and the rest of a + b, for a non-empty a. */
  lemma FrontOfAppend<T>(a: seq<T>, b: seq<T>)
    requires a != []
    ensures (a + b)[0] == a[0] && (a + b)[1..] == a[1..] + b
  {
  }

  /** Two elements and three runs read the same however they are grouped. */
  lemma Regroup<T>(a: seq<T>, x: T, b: seq<T>, y: T, c: seq<T>)
    ensures a + [x] + b + [y] + c == a + [x] + (b + [y] + c)
  {
  }

  /** Taking one v out of a union is taking it out of a part that holds it,
      or out of the first part when the second does not hold it. */
  lemma RemoveFromUnion(a: multiset<int>, b: multiset<int>, v: int)
    ensures v in a || v !in b ==> (a - multiset{v}) + b == (a + b) - multiset{v}
    ensures v in b || v !in a ==> a + (b - multiset{v}) == (a + b) - multiset{v}
  {
  }

  /** 2 to the power n. */
  function Pow2(n: nat): (p: nat)
    ensures p >= 1
  {
    if n == 0 then 1 else 2 * Pow2(n - 1)
  }

  /** Powers of two grow with the exponent. */
  lemma {:induction false} Pow2Monotone(a: nat, b: nat)
    requires a <= b
    ensures Pow2(a) <= Pow2(b)
  {
    if a < b {
      Pow2Monotone(a, b - 1);
    }
  }
}
