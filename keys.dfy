/** Key sequences: the order a B-Tree keeps, the two scans a node uses to
    place a key among its own keys, and the interleaving of a node's keys
    with the key sequences of its subtrees. */
module KeySeq {

  /** Non-decreasing order. The tree admits duplicate keys, so equal
      neighbours are allowed. */
  ghost predicate Sorted(s: seq<int>) {
    forall i, j :: 0 <= i < j < |s| ==> s[i] <= s[j]
  }

  /** Every element of a is at most every element of b. */
  ghost predicate AllLe(a: seq<int>, b: seq<int>) {
    forall x, y :: x in a && y in b ==> x <= y
  }

  ghost predicate AllAtLeast(s: seq<int>, lo: int) {
    forall x :: x in s ==> lo <= x
  }

  ghost predicate AllAtMost(s: seq<int>, hi: int) {
    forall x :: x in s ==> x <= hi
  }

  lemma SortedAppend(a: seq<int>, b: seq<int>)
    ensures Sorted(a + b) <==> Sorted(a) && Sorted(b) && AllLe(a, b)
  {
    if Sorted(a + b) {
      assert forall i :: 0 <= i < |a| ==> (a + b)[i] == a[i];
      assert forall j :: 0 <= j < |b| ==> (a + b)[|a| + j] == b[j];
      forall x, y | x in a && y in b
        ensures x <= y
      {
        var i :| 0 <= i < |a| && a[i] == x;
        var j :| 0 <= j < |b| && b[j] == y;
        assert (a + b)[i] == x && (a + b)[|a| + j] == y;
      }
    }
    if Sorted(a) && Sorted(b) && AllLe(a, b) {
      forall i, j | 0 <= i < j < |a + b|
        ensures (a + b)[i] <= (a + b)[j]
      {
        if j < |a| {
          assert (a + b)[i] == a[i] && (a + b)[j] == a[j];
        } else if i >= |a| {
          assert (a + b)[i] == b[i - |a|] && (a + b)[j] == b[j - |a|];
        } else {
          assert (a + b)[i] == a[i] && a[i] in a;
          assert (a + b)[j] == b[j - |a|] && b[j - |a|] in b;
        }
      }
    }
  }

  /** Every element of a sorted sequence is at most its last one. */
  lemma SortedLast(s: seq<int>)
    requires Sorted(s) && s != []
    ensures AllAtMost(s, s[|s| - 1])
  {
    forall x | x in s
      ensures x <= s[|s| - 1]
    {
      var i :| 0 <= i < |s| && s[i] == x;
    }
  }

  /** Every element of a sorted sequence is at least its first one. */
  lemma SortedFirst(s: seq<int>)
    requires Sorted(s) && s != []
    ensures AllAtLeast(s, s[0])
  {
    forall x | x in s
      ensures s[0] <= x
    {
      var i :| 0 <= i < |s| && s[i] == x;
    }
  }

  /** A sorted sequence is determined by its multiset of elements: this is
      what turns "same keys, still sorted" into "same in-order sequence". */
  lemma {:induction false} SortedUnique(a: seq<int>, b: seq<int>)
    requires Sorted(a) && Sorted(b) && multiset(a) == multiset(b)
    ensures a == b
    decreases |a|
  {
    if a != [] {
      assert |b| == |a| by { assert |multiset(b)| == |multiset(a)|; }
      SameHead(a, b);
      MultisetTail(a);
      MultisetTail(b);
      SortedUnique(a[1..], b[1..]);
      assert a == [a[0]] + a[1..] && b == [b[0]] + b[1..];
    }
  }

  lemma SameHead(a: seq<int>, b: seq<int>)
    requires Sorted(a) && Sorted(b) && multiset(a) == multiset(b) && a != [] && b != []
    ensures a[0] == b[0]
  {
    assert b[0] in multiset(a) by { assert b[0] in b; }
    assert a[0] in multiset(b) by { assert a[0] in a; }
    SortedFirst(a);
    SortedFirst(b);
  }

  lemma MultisetTail(s: seq<int>)
    requires s != []
    ensures multiset(s[1..]) == multiset(s) - multiset{s[0]}
  {
    assert s == [s[0]] + s[1..];
  }

  /** Node.search and Node.linear_search: the number of leading keys below
      key, that is the leftmost index i with s[i] >= key, or |s| when every
      key is below key. */
  function LowerBound(s: seq<int>, key: int): (r: nat)
    ensures r <= |s|
    ensures forall i :: 0 <= i < r ==> s[i] < key
    ensures r < |s| ==> key <= s[r]
  {
    if s == [] || key <= s[0] then 0 else 1 + LowerBound(s[1..], key)
  }

  /** On a sorted sequence every key from LowerBound on is at least key, and
      any index with the two boundary properties is LowerBound itself. */
  lemma LowerBoundSorted(s: seq<int>, key: int, r: nat)
    requires Sorted(s)
    requires r <= |s| && (0 < r ==> s[r - 1] < key) && (r < |s| ==> key <= s[r])
    ensures r == LowerBound(s, key)
    ensures forall i :: r <= i < |s| ==> key <= s[i]
  {
  }

  /** Node.locate_successor: the number of leading keys at most key, that is
      the leftmost index i with s[i] > key, or |s| when there is none. */
  function UpperBound(s: seq<int>, key: int): (r: nat)
    ensures r <= |s|
    ensures forall i :: 0 <= i < r ==> s[i] <= key
    ensures r < |s| ==> key < s[r]
  {
    if s == [] || key < s[0] then 0 else 1 + UpperBound(s[1..], key)
  }

  /** On a sorted sequence every key from UpperBound on is above key. */
  lemma UpperBoundSorted(s: seq<int>, key: int)
    requires Sorted(s)
    ensures forall i :: UpperBound(s, key) <= i < |s| ==> key < s[i]
  {
  }

  /** The in-order sequence of an internal node: the sequences of its
      subtrees (parts) with its keys between them,
      parts[0] + [keys[0]] + parts[1] + ... + [keys[|keys|-1]] + parts[|keys|]. */
  function Join(keys: seq<int>, parts: seq<seq<int>>): seq<int>
    requires |parts| == |keys| + 1
    decreases keys
  {
    if keys == [] then parts[0] else parts[0] + [keys[0]] + Join(keys[1..], parts[1..])
  }

  lemma {:induction false} JoinAppend(k1: seq<int>, k: int, k2: seq<int>, p1: seq<seq<int>>, p2: seq<seq<int>>)
    requires |p1| == |k1| + 1 && |p2| == |k2| + 1
    ensures Join(k1 + [k] + k2, p1 + p2) == Join(k1, p1) + [k] + Join(k2, p2)
    decreases k1
  {
    var ks, ps := k1 + [k] + k2, p1 + p2;
    if k1 == [] {
      assert ks[0] == k && ks[1..] == k2;
      assert ps[0] == p1[0] && ps[1..] == p2;
    } else {
      assert ks[0] == k1[0] && ks[1..] == k1[1..] + [k] + k2;
      assert ps[0] == p1[0] && ps[1..] == p1[1..] + p2;
      JoinAppend(k1[1..], k, k2, p1[1..], p2);
    }
  }

  /** The part of Join(keys, parts) that comes before parts[i]; it ends with keys[i-1]. */
  function Before(keys: seq<int>, parts: seq<seq<int>>, i: nat): seq<int>
    requires |parts| == |keys| + 1 && i < |parts|
  {
    if i == 0 then [] else Join(keys[..i - 1], parts[..i]) + [keys[i - 1]]
  }

  /** The part of Join(keys, parts) that comes after parts[i]; it starts with keys[i]. */
  function After(keys: seq<int>, parts: seq<seq<int>>, i: nat): seq<int>
    requires |parts| == |keys| + 1 && i < |parts|
  {
    if i == |keys| then [] else [keys[i]] + Join(keys[i + 1..], parts[i + 1..])
  }

  lemma JoinAround(keys: seq<int>, parts: seq<seq<int>>, i: nat)
    requires |parts| == |keys| + 1 && i < |parts|
    ensures Join(keys, parts) == Before(keys, parts, i) + parts[i] + After(keys, parts, i)
  {
    if 0 < i {
      JoinAt(keys, parts, i - 1);
      JoinSuffix(keys, parts, i);
    }
  }

  /** Join cut at keys[i]. */
  lemma JoinAt(keys: seq<int>, parts: seq<seq<int>>, i: nat)
    requires |parts| == |keys| + 1 && i < |keys|
    ensures Join(keys, parts) == Join(keys[..i], parts[..i + 1]) + [keys[i]] + Join(keys[i + 1..], parts[i + 1..])
  {
    assert keys == keys[..i] + [keys[i]] + keys[i + 1..];
    assert parts == parts[..i + 1] + parts[i + 1..];
    JoinAppend(keys[..i], keys[i], keys[i + 1..], parts[..i + 1], parts[i + 1..]);
  }

  /** A suffix of Join starts with its first part. */
  lemma JoinSuffix(keys: seq<int>, parts: seq<seq<int>>, i: nat)
    requires |parts| == |keys| + 1 && i < |parts|
    ensures Join(keys[i..], parts[i..]) == parts[i] + After(keys, parts, i)
  {
    var k2, p2 := keys[i..], parts[i..];
    if i < |keys| {
      assert k2[0] == keys[i] && k2[1..] == keys[i + 1..] && p2[1..] == parts[i + 1..];
    }
  }

  /** Before and After do not look at parts[i]. */
  lemma AroundReplace(keys: seq<int>, parts: seq<seq<int>>, i: nat, x: seq<int>)
    requires |parts| == |keys| + 1 && i < |parts|
    ensures Before(keys, parts[i := x], i) == Before(keys, parts, i)
    ensures After(keys, parts[i := x], i) == After(keys, parts, i)
  {
    assert parts[i := x][..i] == parts[..i];
    assert parts[i := x][i + 1..] == parts[i + 1..];
  }

  /** Sorted(b + x + a) taken apart. */
  lemma SortedThree(b: seq<int>, x: seq<int>, a: seq<int>)
    requires Sorted(b + x + a)
    ensures Sorted(b) && Sorted(x) && Sorted(a)
    ensures AllLe(b, x) && AllLe(x, a) && AllLe(b, a)
  {
    SortedAppend(b + x, a);
    SortedAppend(b, x);
    forall u, v | u in b && v in a
      ensures u <= v
    {
      assert u in b + x;
    }
    forall u, v | u in x && v in a
      ensures u <= v
    {
      assert u in b + x;
    }
  }

  /** What a sorted Join says about the part at i and its surroundings:
      keys[i-1] and keys[i] bound parts[i]. */
  lemma SortedAround(keys: seq<int>, parts: seq<seq<int>>, i: nat)
    requires |parts| == |keys| + 1 && i < |parts|
    requires Sorted(Join(keys, parts))
    ensures Sorted(parts[i])
    ensures Sorted(Before(keys, parts, i)) && Sorted(After(keys, parts, i))
    ensures AllLe(Before(keys, parts, i), After(keys, parts, i))
    ensures 0 < i ==> AllAtMost(Before(keys, parts, i), keys[i - 1]) && AllAtLeast(parts[i], keys[i - 1])
    ensures i < |keys| ==> AllAtLeast(After(keys, parts, i), keys[i]) && AllAtMost(parts[i], keys[i])
  {
    var b, a := Before(keys, parts, i), After(keys, parts, i);
    JoinAround(keys, parts, i);
    SortedThree(b, parts[i], a);
    if 0 < i {
      BoundBelow(b, parts[i], keys[i - 1]);
    }
    if i < |keys| {
      BoundAbove(parts[i], a, keys[i]);
    }
  }

  lemma BoundBelow(b: seq<int>, x: seq<int>, k: int)
    requires Sorted(b) && b != [] && b[|b| - 1] == k && AllLe(b, x)
    ensures AllAtMost(b, k) && AllAtLeast(x, k)
  {
    SortedLast(b);
    assert k in b;
  }

  lemma BoundAbove(x: seq<int>, a: seq<int>, k: int)
    requires Sorted(a) && a != [] && a[0] == k && AllLe(x, a)
    ensures AllAtLeast(a, k) && AllAtMost(x, k)
  {
    SortedFirst(a);
    assert k in a;
  }

  /** Putting a sorted x that keys[i-1] and keys[i] still bound in the place
      of parts[i] keeps the whole sorted. */
  lemma SortedReplace(keys: seq<int>, parts: seq<seq<int>>, i: nat, x: seq<int>)
    requires |parts| == |keys| + 1 && i < |parts|
    requires Sorted(Join(keys, parts)) && Sorted(x)
    requires 0 < i ==> AllAtLeast(x, keys[i - 1])
    requires i < |keys| ==> AllAtMost(x, keys[i])
    ensures Sorted(Before(keys, parts, i) + x + After(keys, parts, i))
  {
    var b, a := Before(keys, parts, i), After(keys, parts, i);
    SortedAround(keys, parts, i);
    SortedBetween(b, x, a, keys, i);
  }

  lemma SortedBetween(b: seq<int>, x: seq<int>, a: seq<int>, keys: seq<int>, i: nat)
    requires Sorted(b) && Sorted(x) && Sorted(a) && AllLe(b, a) && i <= |keys|
    requires b != [] ==> 0 < i && AllAtMost(b, keys[i - 1]) && AllAtLeast(x, keys[i - 1])
    requires a != [] ==> i < |keys| && AllAtLeast(a, keys[i]) && AllAtMost(x, keys[i])
    ensures Sorted(b + x + a)
  {
    SortedAppend(b, x);
    SortedAppend(b + x, a);
  }

  /** s with key put at its lower bound, the place a sorted s keeps key. */
  function InsertSorted(s: seq<int>, key: int): (r: seq<int>)
    ensures |r| == |s| + 1 && multiset(r) == multiset(s) + multiset{key}
    ensures Sorted(s) ==> Sorted(r)
  {
    var i := LowerBound(s, key);
    assert s == s[..i] + s[i..];
    assert Sorted(s) ==> Sorted(s[..i] + [key] + s[i..]) by {
      if Sorted(s) {
        InsertAtLowerBound(s, key);
      }
    }
    s[..i] + [key] + s[i..]
  }

  lemma InsertAtLowerBound(s: seq<int>, key: int)
    requires Sorted(s)
    ensures Sorted(s[..LowerBound(s, key)] + [key] + s[LowerBound(s, key)..])
  {
    var i := LowerBound(s, key);
    LowerBoundSorted(s, key, i);
    var r := s[..i] + [key] + s[i..];
    forall a, b | 0 <= a < b < |r|
      ensures r[a] <= r[b]
    {
      if b < i || a > i {
      } else if a == i {
        assert r[b] == s[b - 1];
      } else if b == i {
      } else {
        assert r[b] == s[b - 1];
      }
    }
  }

  /** s without the element at its lower bound for key when that element
      is key; a sorted s loses exactly one occurrence of key, and an s
      without key stays as it is. */
  function RemoveSorted(s: seq<int>, key: int): (r: seq<int>)
    ensures |s| - 1 <= |r| <= |s|
    ensures key !in s ==> r == s
    ensures Sorted(s) ==> Sorted(r)
    ensures Sorted(s) ==> multiset(r) == multiset(s) - multiset{key}
  {
    var i := LowerBound(s, key);
    if i < |s| && s[i] == key then
      assert Sorted(s) ==> Sorted(s[..i] + s[i + 1..]) by {
        if Sorted(s) {
          DropOne(s, i);
        }
      }
      assert s == s[..i] + [key] + s[i + 1..];
      s[..i] + s[i + 1..]
    else
      assert Sorted(s) ==> key !in s by {
        if Sorted(s) {
          LowerBoundSorted(s, key, i);
        }
      }
      s
  }

  lemma DropOne(s: seq<int>, i: nat)
    requires Sorted(s) && i < |s|
    ensures Sorted(s[..i] + s[i + 1..])
  {
    var r := s[..i] + s[i + 1..];
    forall a, b | 0 <= a < b < |r|
      ensures r[a] <= r[b]
    {
      if a >= i {
        assert r[a] == s[a + 1] && r[b] == s[b + 1];
      } else if b >= i {
        assert r[b] == s[b + 1];
      }
    }
  }

  /** Join around the two parts on either side of keys[i]. */
  lemma JoinWindow(keys: seq<int>, parts: seq<seq<int>>, i: nat)
    requires |parts| == |keys| + 1 && i < |keys|
    ensures Join(keys, parts) == Before(keys, parts, i) + parts[i] + [keys[i]] + parts[i + 1] + After(keys, parts, i + 1)
  {
    var b, a, a1 := Before(keys, parts, i), After(keys, parts, i), After(keys, parts, i + 1);
    JoinAround(keys, parts, i);
    var j := Join(keys[i + 1..], parts[i + 1..]);
    assert a == [keys[i]] + j;
    JoinSuffix(keys, parts, i + 1);
    assert j == parts[i + 1] + a1;
    ConcatFive(b, parts[i], [keys[i]], parts[i + 1], a1);
  }

  lemma ConcatFive(a: seq<int>, b: seq<int>, c: seq<int>, d: seq<int>, e: seq<int>)
    ensures a + b + (c + (d + e)) == a + b + c + d + e
    ensures a + (b + c + d) + e == a + b + c + d + e
    ensures a + b + (c + d + e) == a + b + c + d + e
  {
  }

  /** Before(i) only looks at the first i keys and parts. */
  lemma BeforeSame(k1: seq<int>, p1: seq<seq<int>>, k2: seq<int>, p2: seq<seq<int>>, i: nat)
    requires |p1| == |k1| + 1 && |p2| == |k2| + 1 && i < |p1| && i < |p2|
    requires k1[..i] == k2[..i] && p1[..i] == p2[..i]
    ensures Before(k1, p1, i) == Before(k2, p2, i)
  {
    if 0 < i {
      assert k1[..i - 1] == k1[..i][..i - 1] && k2[..i - 1] == k2[..i][..i - 1];
      assert k1[i - 1] == k1[..i][i - 1] && k2[i - 1] == k2[..i][i - 1];
    }
  }

  /** After(i) only looks at the keys from i on and the parts after i. */
  lemma AfterSame(k1: seq<int>, p1: seq<seq<int>>, i1: nat, k2: seq<int>, p2: seq<seq<int>>, i2: nat)
    requires |p1| == |k1| + 1 && |p2| == |k2| + 1 && i1 < |p1| && i2 < |p2|
    requires k1[i1..] == k2[i2..] && p1[i1 + 1..] == p2[i2 + 1..]
    ensures After(k1, p1, i1) == After(k2, p2, i2)
  {
    assert |k1| - i1 == |k2| - i2;
    if i1 < |k1| {
      assert k1[i1] == k1[i1..][0] && k2[i2] == k2[i2..][0];
      assert k1[i1 + 1..] == k1[i1..][1..] && k2[i2 + 1..] == k2[i2..][1..];
    }
  }

  /** Neighbours in order make the whole sequence sorted. */
  lemma SortedAdjacent(s: seq<int>)
    requires forall i :: 0 <= i < |s| - 1 ==> s[i] <= s[i + 1]
    ensures Sorted(s)
  {
    forall i, j | 0 <= i < j < |s|
      ensures s[i] <= s[j]
    {
      var k := i;
      while k < j
        invariant i <= k <= j && s[i] <= s[k]
      {
        k := k + 1;
      }
    }
  }

  /** What is left after removing one occurrence of p holds nothing new. */
  lemma InSmaller(a: seq<int>, b: seq<int>, p: int)
    requires multiset(a) == multiset(b) - multiset{p}
    ensures forall v :: v in a ==> v in b
  {
    forall v | v in a
      ensures v in b
    {
      assert v in multiset(a);
    }
  }

  /** Replacing k by the last element p of the sorted run l just before it,
      and removing p from l, keeps the sequence sorted and removes k. */
  lemma SwapLast(b: seq<int>, l: seq<int>, k: int, r: seq<int>, l2: seq<int>)
    requires Sorted(b + l + [k] + r) && l != []
    requires Sorted(l2) && multiset(l2) == multiset(l) - multiset{l[|l| - 1]}
    ensures Sorted(b + l2 + [l[|l| - 1]] + r)
    ensures multiset(b + l2 + [l[|l| - 1]] + r) == multiset(b + l + [k] + r) - multiset{k}
  {
    var p := l[|l| - 1];
    assert b + l + [k] + r == b + l + ([k] + r);
    SortedThree(b, l, [k] + r);
    SortedAppend([k], r);
    SortedLast(l);
    InSmaller(l2, l, p);
    assert p in l;
    forall u, v | u in b && v in l2
      ensures u <= v
    {
      assert v in l;
    }
    SortedAppend(b, l2);
    forall v | v in r
      ensures p <= v
    {
      assert v in [k] + r;
    }
    SortedAppend([p], r);
    forall u, v | u in b + l2 && v in [p] + r
      ensures u <= v
    {
      assert u in b || u in l;
      assert v == p || v in [k] + r;
    }
    SortedAppend(b + l2, [p] + r);
    assert b + l2 + [p] + r == b + l2 + ([p] + r);
    assert multiset(l) == multiset(l2) + multiset{p};
  }

  /** Replacing k by the first element q of the sorted run r just after it,
      and removing q from r, keeps the sequence sorted and removes k. */
  lemma SwapFirst(b: seq<int>, k: int, r: seq<int>, a: seq<int>, r2: seq<int>)
    requires Sorted(b + [k] + r + a) && r != []
    requires Sorted(r2) && multiset(r2) == multiset(r) - multiset{r[0]}
    ensures Sorted(b + [r[0]] + r2 + a)
    ensures multiset(b + [r[0]] + r2 + a) == multiset(b + [k] + r + a) - multiset{k}
  {
    var q := r[0];
    assert b + [k] + r + a == (b + [k]) + r + a;
    SortedThree(b + [k], r, a);
    SortedAppend(b, [k]);
    SortedFirst(r);
    InSmaller(r2, r, q);
    assert q in r;
    forall u, v | u in r2 && v in a
      ensures u <= v
    {
      assert u in r;
    }
    SortedAppend(r2, a);
    forall u | u in b
      ensures u <= q
    {
      assert u in b + [k];
    }
    SortedAppend(b, [q]);
    forall u, v | u in b + [q] && v in r2 + a
      ensures u <= v
    {
      assert u in b + [k] || u == q;
      assert v in r || v in a;
    }
    SortedAppend(b + [q], r2 + a);
    assert b + [q] + r2 + a == (b + [q]) + (r2 + a);
    assert multiset(r) == multiset(r2) + multiset{q};
  }
}
