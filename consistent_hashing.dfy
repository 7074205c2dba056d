/**
 * A consistent hash ring with virtual nodes and replica selection
 * (consistent_hash/consistent_hashing.py).
 *
 * Every physical node is placed on the ring at the hashes of its virtual
 * keys "node:0", "node:1", ...; a key belongs to the owner of the first ring
 * point clockwise after the key's hash, and its replicas are the first
 * distinct owners met walking on from there. The hash function (SHA-256 in
 * the source) is a parameter of the ring: nothing proved here depends on it.
 */
module HashRing {
  import opened Wrappers

  function Min(a: int, b: int): int
  {
    if a <= b then a else b
  }

  /** Non-decreasing, as `bisect.insort` keeps a list. */
  ghost predicate Sorted(s: seq<nat>)
  {
    forall i, j :: 0 <= i < j < |s| ==> s[i] <= s[j]
  }

  /** Ascending without repetitions. */
  ghost predicate StrictlySorted(s: seq<nat>)
  {
    forall i, j :: 0 <= i < j < |s| ==> s[i] < s[j]
  }

  ghost predicate Distinct<T>(s: seq<T>)
  {
    forall i, j :: 0 <= i < j < |s| ==> s[i] != s[j]
  }

  // Python's bisect module, by the binary searches it performs.

  /** `bisect.bisect` (bisect_right): the position after every element at most x. */
  method BisectRight(s: seq<nat>, x: nat) returns (i: nat)
    requires Sorted(s)
    ensures i <= |s|
    ensures forall k :: 0 <= k < i ==> s[k] <= x
    ensures forall k :: i <= k < |s| ==> x < s[k]
  {
    var lo, hi := 0, |s|;
    while lo < hi
      invariant 0 <= lo <= hi <= |s|
      invariant forall k :: 0 <= k < lo ==> s[k] <= x
      invariant forall k :: hi <= k < |s| ==> x < s[k]
    {
      var mid := (lo + hi) / 2;
      if x < s[mid] {
        hi := mid;
      } else {
        lo := mid + 1;
      }
    }
    i := lo;
  }

  /** `bisect.bisect_left`: the position before every element at least x. */
  method BisectLeft(s: seq<nat>, x: nat) returns (i: nat)
    requires Sorted(s)
    ensures i <= |s|
    ensures forall k :: 0 <= k < i ==> s[k] < x
    ensures forall k :: i <= k < |s| ==> x <= s[k]
  {
    var lo, hi := 0, |s|;
    while lo < hi
      invariant 0 <= lo <= hi <= |s|
      invariant forall k :: 0 <= k < lo ==> s[k] < x
      invariant forall k :: hi <= k < |s| ==> x <= s[k]
    {
      var mid := (lo + hi) / 2;
      if s[mid] < x {
        lo := mid + 1;
      } else {
        hi := mid;
      }
    }
    i := lo;
  }

  /** Inserting x at its bisect_right position keeps the list sorted. */
  lemma InsortSorted(s: seq<nat>, at: nat, x: nat)
    requires Sorted(s) && at <= |s|
    requires forall k :: 0 <= k < at ==> s[k] <= x
    requires forall k :: at <= k < |s| ==> x < s[k]
    ensures Sorted(s[..at] + [x] + s[at..])
  {
    InsertAt(s, at, x);
  }

  /** Inserting x anywhere adds exactly one copy of x. */
  lemma InsortAddsOne(s: seq<nat>, at: nat, x: nat)
    requires at <= |s|
    ensures multiset(s[..at] + [x] + s[at..]) == multiset(s) + multiset{x}
    ensures forall k :: k in s[..at] + [x] + s[at..] <==> k in s || k == x
  {
    assert s == s[..at] + s[at..];
    var t := s[..at] + [x] + s[at..];
    assert multiset(t) == multiset(s) + multiset{x};
    forall k ensures k in t <==> k in s || k == x {
      assert k in t <==> k in multiset(t);
      assert k in s <==> k in multiset(s);
    }
  }

  /** Inserting a new x at its bisect_right position keeps a strictly ascending list strictly ascending. */
  lemma InsortStrict(s: seq<nat>, at: nat, x: nat)
    requires StrictlySorted(s) && at <= |s| && x !in s
    requires forall k :: 0 <= k < at ==> s[k] <= x
    requires forall k :: at <= k < |s| ==> x < s[k]
    ensures StrictlySorted(s[..at] + [x] + s[at..])
  {
    var t := s[..at] + [x] + s[at..];
    InsertAt(s, at, x);
    forall i, j | 0 <= i < j < |t| ensures t[i] < t[j] {
      if i < at {
        assert s[i] != x;
      }
    }
  }

  /** The element positions of s[..at] + [x] + s[at..]. */
  lemma InsertAt(s: seq<nat>, at: nat, x: nat)
    requires at <= |s|
    ensures forall i :: 0 <= i < |s| + 1 ==>
      (s[..at] + [x] + s[at..])[i] == if i < at then s[i] else if i == at then x else s[i - 1]
  {
  }

  /** Popping the element at idx of a strictly ascending list removes exactly that value. */
  lemma PopKeepsOrder(s: seq<nat>, idx: nat)
    requires StrictlySorted(s) && idx < |s|
    ensures Sorted(s[..idx] + s[idx + 1..]) && StrictlySorted(s[..idx] + s[idx + 1..])
    ensures forall k :: k in s[..idx] + s[idx + 1..] <==> k in s && k != s[idx]
  {
    PopOrder(s, idx);
    PopElements(s, idx);
  }

  /** The element positions of s[..idx] + s[idx + 1..]. */
  lemma PopAt(s: seq<nat>, idx: nat)
    requires idx < |s|
    ensures |s[..idx] + s[idx + 1..]| == |s| - 1
    ensures forall i :: 0 <= i < |s| - 1 ==> (s[..idx] + s[idx + 1..])[i] == if i < idx then s[i] else s[i + 1]
  {
  }

  lemma PopOrder(s: seq<nat>, idx: nat)
    requires StrictlySorted(s) && idx < |s|
    ensures StrictlySorted(s[..idx] + s[idx + 1..])
  {
    PopAt(s, idx);
  }

  lemma PopElements(s: seq<nat>, idx: nat)
    requires StrictlySorted(s) && idx < |s|
    ensures forall k :: k in s[..idx] + s[idx + 1..] <==> k in s && k != s[idx]
  {
    var t := s[..idx] + s[idx + 1..];
    PopAt(s, idx);
    forall k ensures k in t <==> k in s && k != s[idx] {
      if k in s && k != s[idx] {
        var m :| 0 <= m < |s| && s[m] == k;
        if m < idx {
          assert t[m] == k;
        } else {
          assert t[m - 1] == k;
        }
      }
      if k in t {
        var m :| 0 <= m < |t| && t[m] == k;
        if m < idx {
          assert s[m] == k;
        } else {
          assert s[m + 1] == k;
        }
      }
    }
  }

  /**
   * Cutting out the run of x, between its bisect_left position lo and its
   * bisect_right position hi, keeps the list ordered and removes every copy
   * of x and nothing else: every other value keeps its number of copies.
   */
  lemma CutKeepsOrder(s: seq<nat>, lo: nat, hi: nat, x: nat)
    requires Sorted(s) && lo <= |s| && hi <= |s|
    requires forall k :: 0 <= k < lo ==> s[k] < x
    requires forall k :: lo <= k < |s| ==> x <= s[k]
    requires forall k :: 0 <= k < hi ==> s[k] <= x
    requires forall k :: hi <= k < |s| ==> x < s[k]
    ensures lo <= hi
    ensures Sorted(s[..lo] + s[hi..])
    ensures StrictlySorted(s) ==> StrictlySorted(s[..lo] + s[hi..])
    ensures forall k :: k in s[..lo] + s[hi..] <==> k in s && k != x
    ensures forall k :: multiset(s[..lo] + s[hi..])[k] == if k == x then 0 else multiset(s)[k]
  {
    assert hi < |s| ==> x < s[hi];
    CutOrder(s, lo, hi);
    CutElements(s, lo, hi, x);
    CutMultiset(s, lo, hi, x);
  }

  /** Cutting a slice out of an ordered list keeps it ordered. */
  lemma CutOrder(s: seq<nat>, lo: nat, hi: nat)
    requires Sorted(s) && lo <= hi <= |s|
    ensures Sorted(s[..lo] + s[hi..])
    ensures StrictlySorted(s) ==> StrictlySorted(s[..lo] + s[hi..])
  {
    CutAt(s, lo, hi);
  }

  /** The run of x cut out of s holds nothing but x, and x occurs nowhere else. */
  lemma CutMultiset(s: seq<nat>, lo: nat, hi: nat, x: nat)
    requires lo <= hi <= |s|
    requires forall k :: 0 <= k < lo ==> s[k] < x
    requires forall k :: lo <= k < hi ==> s[k] == x
    requires forall k :: hi <= k < |s| ==> x < s[k]
    ensures forall k :: multiset(s[..lo] + s[hi..])[k] == if k == x then 0 else multiset(s)[k]
  {
    var run := s[lo..hi];
    assert s == s[..lo] + run + s[hi..];
    assert x !in s[..lo] && x !in s[hi..];
    forall k | k in run ensures k == x {
      var m :| 0 <= m < |run| && run[m] == k;
      assert run[m] == s[lo + m];
    }
  }

  /** The run of x cut out of s is all of x's copies. */
  lemma CutElements(s: seq<nat>, lo: nat, hi: nat, x: nat)
    requires lo <= hi <= |s|
    requires forall k :: 0 <= k < lo ==> s[k] < x
    requires forall k :: lo <= k < hi ==> s[k] == x
    requires forall k :: hi <= k < |s| ==> x < s[k]
    ensures forall k :: k in s[..lo] + s[hi..] <==> k in s && k != x
  {
    var t := s[..lo] + s[hi..];
    CutAt(s, lo, hi);
    forall k | k in s && k != x ensures k in t {
      var m :| 0 <= m < |s| && s[m] == k;
      if m < lo {
        assert t[m] == k;
      } else {
        assert t[m - (hi - lo)] == k;
      }
    }
  }

  /** The element positions of s[..lo] + s[hi..]. */
  lemma CutAt(s: seq<nat>, lo: nat, hi: nat)
    requires lo <= hi <= |s|
    ensures |s[..lo] + s[hi..]| == |s| - (hi - lo)
    ensures forall i :: 0 <= i < |s| - (hi - lo) ==>
      (s[..lo] + s[hi..])[i] == if i < lo then s[i] else s[i + (hi - lo)]
  {
  }

  // The clockwise order of the ring.

  /** The ring points above h, in their order. */
  function Above(keys: seq<nat>, h: nat): (r: seq<nat>)
    ensures forall k :: k in r <==> k in keys && h < k
    ensures |r| + |AtMost(keys, h)| == |keys|
  {
    if keys == [] then []
    else
      assert keys == [keys[0]] + keys[1..];
      (if h < keys[0] then [keys[0]] else []) + Above(keys[1..], h)
  }

  /** The ring points at or below h, in their order. */
  function AtMost(keys: seq<nat>, h: nat): (r: seq<nat>)
    ensures forall k :: k in r <==> k in keys && k <= h
  {
    if keys == [] then []
    else
      assert keys == [keys[0]] + keys[1..];
      (if keys[0] <= h then [keys[0]] else []) + AtMost(keys[1..], h)
  }

  /**
   * The ring points in clockwise order from just after h: those above h,
   * then, wrapping around past the largest hash, the rest.
   */
  function Clockwise(keys: seq<nat>, h: nat): (r: seq<nat>)
    ensures |r| == |keys|
    ensures forall k :: k in r <==> k in keys
    ensures multiset(r) == multiset(keys)
  {
    SplitKeepsMultiset(keys, h);
    Above(keys, h) + AtMost(keys, h)
  }

  /** The points above h and those at most h are, together, all the points, each as often. */
  lemma {:induction false} SplitKeepsMultiset(keys: seq<nat>, h: nat)
    ensures multiset(Above(keys, h)) + multiset(AtMost(keys, h)) == multiset(keys)
    decreases |keys|
  {
    if keys != [] {
      SplitKeepsMultiset(keys[1..], h);
      assert keys == [keys[0]] + keys[1..];
    }
  }

  /** Below the bisect_right position p lie the points at most h, from p on those above it. */
  ghost predicate SplitsAt(keys: seq<nat>, h: nat, p: nat)
  {
    && p <= |keys|
    && (forall k :: 0 <= k < p ==> keys[k] <= h)
    && (forall k :: p <= k < |keys| ==> h < keys[k])
  }

  lemma {:induction false} AboveIsSuffix(keys: seq<nat>, h: nat, p: nat)
    requires SplitsAt(keys, h, p)
    ensures Above(keys, h) == keys[p..]
    decreases |keys|
  {
    if keys != [] {
      var q := if p == 0 then 0 else p - 1;
      assert SplitsAt(keys[1..], h, q);
      AboveIsSuffix(keys[1..], h, q);
      if p == 0 {
        assert h < keys[0];
        assert keys == [keys[0]] + keys[1..];
      } else {
        assert keys[0] <= h;
        assert keys[1..][q..] == keys[p..];
      }
    }
  }

  lemma {:induction false} AtMostIsPrefix(keys: seq<nat>, h: nat, p: nat)
    requires SplitsAt(keys, h, p)
    ensures AtMost(keys, h) == keys[..p]
    decreases |keys|
  {
    if keys != [] {
      var q := if p == 0 then 0 else p - 1;
      assert SplitsAt(keys[1..], h, q);
      AtMostIsPrefix(keys[1..], h, q);
      if p == 0 {
        assert h < keys[0];
        assert keys[1..][..0] == [];
      } else {
        assert keys[0] <= h;
        assert keys[..p] == [keys[0]] + keys[1..][..q];
      }
    }
  }

  /** On a sorted list the clockwise order is the rotation at the bisect_right position. */
  lemma ClockwiseIsRotation(keys: seq<nat>, h: nat, p: nat)
    requires SplitsAt(keys, h, p)
    ensures Clockwise(keys, h) == keys[p..] + keys[..p]
  {
    AboveIsSuffix(keys, h, p);
    AtMostIsPrefix(keys, h, p);
  }

  /** The clockwise order of the rotation position: what `idx % len` walks through. */
  lemma RotationAt(keys: seq<nat>, p: nat, j: nat)
    requires p <= |keys| && j < |keys|
    ensures (keys[p..] + keys[..p])[j] == keys[(p + j) % |keys|]
  {
    var n := |keys|;
    if p + j < n {
      ModBelow(p + j, n);
    } else {
      ModWrap(p + j, n);
    }
  }

  lemma ModBelow(a: int, n: int)
    requires 0 <= a < n
    ensures a % n == a
  {
  }

  lemma ModWrap(a: int, n: int)
    requires 0 < n <= a < 2 * n
    ensures a % n == a - n
  {
    assert a == n + (a - n) && 0 <= a - n < n;
  }

  /**
   * IsSuccessor(points, h, p): p is the smallest point above h, or, when no
   * point is above h, the smallest point of all (the wrap-around).
   */
  ghost predicate IsSuccessor(points: set<nat>, h: nat, p: nat)
  {
    && p in points
    && (|| (h < p && forall q :: q in points && h < q ==> p <= q)
        || ((forall q :: q in points ==> q <= h) && (forall q :: q in points ==> p <= q)))
  }

  /** The first point clockwise from h is its successor on the ring. */
  lemma {:induction false} ClockwiseHeadIsSuccessor(keys: seq<nat>, points: set<nat>, h: nat)
    requires Sorted(keys) && keys != []
    requires forall k :: k in keys <==> k in points
    ensures IsSuccessor(points, h, Clockwise(keys, h)[0])
  {
    var above := Above(keys, h);
    if above != [] {
      AboveHeadIsLeast(keys, h);
      assert Clockwise(keys, h)[0] == above[0];
    } else {
      assert AtMost(keys, h) == keys by {
        AllAtMost(keys, h);
      }
      assert Clockwise(keys, h)[0] == keys[0];
      forall q | q in points ensures keys[0] <= q {
        var m :| 0 <= m < |keys| && keys[m] == q;
        if m > 0 {
          assert keys[0] <= keys[m];
        }
      }
    }
  }

  /** On a sorted list, the first point above h is the least point above h. */
  lemma {:induction false} AboveHeadIsLeast(keys: seq<nat>, h: nat)
    requires Sorted(keys) && Above(keys, h) != []
    ensures h < Above(keys, h)[0]
    ensures forall q :: q in keys && h < q ==> Above(keys, h)[0] <= q
    decreases |keys|
  {
    var a := Above(keys, h);
    assert a[0] in a;
    if h < keys[0] {
      assert a[0] == keys[0];
      forall q | q in keys && h < q ensures keys[0] <= q {
        var m :| 0 <= m < |keys| && keys[m] == q;
        if m > 0 {
          assert keys[0] <= keys[m];
        }
      }
    } else {
      assert a == Above(keys[1..], h);
      AboveHeadIsLeast(keys[1..], h);
      forall q | q in keys && h < q ensures q in keys[1..] {
        assert q != keys[0];
        assert keys == [keys[0]] + keys[1..];
      }
    }
  }

  /** When no point is above h, every point is at or below it. */
  lemma {:induction false} AllAtMost(keys: seq<nat>, h: nat)
    requires Above(keys, h) == []
    ensures AtMost(keys, h) == keys
    decreases |keys|
  {
    if keys != [] {
      var rest := keys[1..];
      assert keys[0] <= h by {
        assert keys[0] in keys;
      }
      assert Above(rest, h) == [];
      AllAtMost(rest, h);
      assert keys == [keys[0]] + rest;
    }
  }


  // Replica selection.

  /** The owners of the given ring points, point by point. */
  function Owners(ring: map<nat, string>, points: seq<nat>): seq<string>
    requires forall k :: k in points ==> k in ring
  {
    seq(|points|, j requires 0 <= j < |points| => ring[points[j]])
  }

  /** The elements of s without repetitions, in order of first occurrence. */
  function FirstOccurrences(s: seq<string>): seq<string>
    decreases |s|
  {
    if s == [] then []
    else
      var seen := FirstOccurrences(s[..|s| - 1]);
      if s[|s| - 1] in seen then seen else seen + [s[|s| - 1]]
  }

  /** The first n elements of s, or all of them when there are fewer. */
  function Take(s: seq<string>, n: int): seq<string>
  {
    if n <= 0 then [] else if n < |s| then s[..n] else s
  }

  /**
   * Replicas(ring, keys, h, rf): the distinct owners met walking the ring
   * clockwise from h, at most rf of them.
   */
  function Replicas(ring: map<nat, string>, keys: seq<nat>, h: nat, rf: int): seq<string>
    requires forall k :: k in keys ==> k in ring
  {
    Take(FirstOccurrences(Owners(ring, Clockwise(keys, h))), rf)
  }

  /** First occurrences keep each element of s once, and nothing else, starting with s[0]. */
  lemma {:induction false} FirstOccurrencesSpec(s: seq<string>)
    ensures Distinct(FirstOccurrences(s))
    ensures forall x :: x in FirstOccurrences(s) <==> x in s
    ensures s != [] ==> FirstOccurrences(s) != [] && FirstOccurrences(s)[0] == s[0]
    decreases |s|
  {
    if s != [] {
      var init := s[..|s| - 1];
      FirstOccurrencesSpec(init);
      assert s == init + [s[|s| - 1]];
      if init != [] {
        assert init[0] == s[0];
      }
    }
  }

  /** The first occurrences of a prefix are a prefix of the first occurrences. */
  lemma {:induction false} FirstOccurrencesPrefix(s: seq<string>, j: nat)
    requires j <= |s|
    ensures FirstOccurrences(s[..j]) <= FirstOccurrences(s)
    decreases |s| - j
  {
    if j < |s| {
      FirstOccurrencesPrefix(s, j + 1);
      assert s[..j + 1][..j] == s[..j];
    } else {
      assert s[..j] == s;
    }
  }

  /** The set of the elements of s. */
  function Elements(s: seq<string>): set<string>
  {
    set x | x in s
  }

  lemma ElementsAppend(s: seq<string>, x: string)
    ensures Elements(s + [x]) == Elements(s) + {x}
  {
  }

  /** A repetition-free list has as many elements as its set. */
  lemma {:induction false} DistinctCardinality(s: seq<string>)
    requires Distinct(s)
    ensures |Elements(s)| == |s|
    decreases |s|
  {
    if s != [] {
      var init := s[..|s| - 1];
      DistinctCardinality(init);
      assert Elements(s) == Elements(init) + {s[|s| - 1]};
      assert s[|s| - 1] !in init;
    }
  }

  /** A prefix of a repetition-free list that holds all of its elements is the whole list. */
  lemma PrefixHoldingAll(a: seq<string>, b: seq<string>)
    requires a <= b && Distinct(b)
    requires forall x :: x in b ==> x in a
    ensures a == b
  {
    assert Distinct(a);
    DistinctCardinality(a);
    DistinctCardinality(b);
    assert Elements(a) == Elements(b);
  }

  /** Walking the whole ring meets exactly its owners. */
  lemma OwnersCoverRing(ring: map<nat, string>, points: seq<nat>)
    requires forall k :: k in points <==> k in ring
    ensures forall x :: x in Owners(ring, points) <==> x in ring.Values
  {
    forall x | x in ring.Values ensures x in Owners(ring, points) {
      var k :| k in ring && ring[k] == x;
      var m :| 0 <= m < |points| && points[m] == k;
      assert Owners(ring, points)[m] == x;
    }
  }

  /**
   * The replica list is repetition-free, made of owners, as long as the
   * ring has owners or rf (whichever is less), and starts with the owner
   * of the first point clockwise from h.
   */
  lemma ReplicasSpec(ring: map<nat, string>, keys: seq<nat>, h: nat, rf: int)
    requires forall k :: k in keys <==> k in ring
    ensures Distinct(Replicas(ring, keys, h, rf))
    ensures forall x :: x in Replicas(ring, keys, h, rf) ==> x in ring.Values
    ensures |Replicas(ring, keys, h, rf)| == if rf <= 0 then 0 else Min(rf, |ring.Values|)
    ensures rf > 0 && keys != [] ==>
      Replicas(ring, keys, h, rf) != [] && Replicas(ring, keys, h, rf)[0] == ring[Clockwise(keys, h)[0]]
  {
    var walk := Owners(ring, Clockwise(keys, h));
    var firsts := FirstOccurrences(walk);
    FirstOccurrencesSpec(walk);
    OwnersCoverRing(ring, Clockwise(keys, h));
    DistinctCardinality(firsts);
    assert Elements(firsts) == ring.Values;
    var r := Replicas(ring, keys, h, rf);
    if 0 < rf < |firsts| {
      assert r == firsts[..rf];
      forall i, j | 0 <= i < j < |r| ensures r[i] != r[j] {
        assert r[i] == firsts[i] && r[j] == firsts[j];
      }
      forall x | x in r ensures x in ring.Values {
        var m :| 0 <= m < |r| && r[m] == x;
        assert firsts[m] == x;
      }
    }
  }

  /** A subset is no larger than its superset. */
  lemma SubsetCardinality<T>(a: set<T>, b: set<T>)
    requires a <= b
    ensures |a| <= |b|
    ensures |a| == |b| ==> a == b
  {
    assert b == a + (b - a);
    assert |b| == |a| + |b - a|;
    if |a| == |b| {
      assert b - a == {};
    }
  }

  /** One more element of s extends its prefix by that element. */
  lemma ExtendPrefix(s: seq<string>, j: nat)
    requires j < |s|
    ensures s[..j + 1] == s[..j] + [s[j]]
  {
  }

  /** Step idx of the walk that starts at position p is point idx % |keys| of the list. */
  lemma WalkAt(ring: map<nat, string>, keys: seq<nat>, h: nat, p: nat, idx: nat)
    requires forall k :: k in keys <==> k in ring
    requires SplitsAt(keys, h, p) && p <= idx < p + |keys|
    ensures idx % |keys| < |keys|
    ensures Owners(ring, Clockwise(keys, h))[idx - p] == ring[keys[idx % |keys|]]
  {
    var order := Clockwise(keys, h);
    ClockwiseIsRotation(keys, h, p);
    RotationAt(keys, p, idx - p);
    assert order[idx - p] == keys[idx % |keys|];
    assert |Owners(ring, order)| == |order| == |keys|;
  }

  /**
   * One step of the replica walk: the owner met at position idx, steps
   * after the start p, joins the replicas exactly when it was not found before.
   */
  lemma WalkStep(ring: map<nat, string>, keys: seq<nat>, h: nat, p: nat, idx: nat, steps: nat,
                 replicas: seq<string>)
    requires forall k :: k in keys <==> k in ring
    requires SplitsAt(keys, h, p) && idx == p + steps && steps < |keys|
    requires replicas == FirstOccurrences(Owners(ring, Clockwise(keys, h))[..steps])
    ensures idx % |keys| < |keys|
    ensures FirstOccurrences(Owners(ring, Clockwise(keys, h))[..steps + 1])
         == (var node := ring[keys[idx % |keys|]];
             if node in Elements(replicas) then replicas else replicas + [node])
  {
    var walk := Owners(ring, Clockwise(keys, h));
    WalkAt(ring, keys, h, p, idx);
    ExtendPrefix(walk, steps);
    assert walk[..steps + 1][..steps] == walk[..steps];
  }

  /**
   * One turn of the walk of get_nodes_for_key: while fewer owners than
   * the ring has are found, the walk has not gone all the way round, and
   * the owner at position idx joins the replicas exactly when it is new.
   */
  lemma CollectStep(ring: map<nat, string>, keys: seq<nat>, h: nat, p: nat, idx: nat, steps: nat,
                    replicas: seq<string>, node: string)
    requires forall k :: k in keys <==> k in ring
    requires keys != [] && SplitsAt(keys, h, p) && idx == p + steps && steps <= |keys|
    requires replicas == FirstOccurrences(Owners(ring, Clockwise(keys, h))[..steps])
    requires |Elements(replicas)| < |ring.Values|
    requires node == ring[keys[idx % |keys|]]
    ensures steps < |keys|
    ensures FirstOccurrences(Owners(ring, Clockwise(keys, h))[..steps + 1])
         == if node in Elements(replicas) then replicas else replicas + [node]
    ensures Elements(replicas + [node]) == Elements(replicas) + {node}
  {
    WalkIncomplete(ring, keys, h, steps, replicas);
    WalkStep(ring, keys, h, p, idx, steps, replicas);
    ElementsAppend(replicas, node);
  }

  /** Going all the way round the ring finds every owner. */
  lemma FullWalk(ring: map<nat, string>, keys: seq<nat>, h: nat)
    requires forall k :: k in keys <==> k in ring
    ensures Elements(FirstOccurrences(Owners(ring, Clockwise(keys, h))[..|keys|])) == ring.Values
  {
    var walk := Owners(ring, Clockwise(keys, h));
    assert walk[..|keys|] == walk;
    FirstOccurrencesSpec(walk);
    OwnersCoverRing(ring, Clockwise(keys, h));
  }

  /** While fewer owners than the ring has are found, the walk has not gone all the way round. */
  lemma WalkIncomplete(ring: map<nat, string>, keys: seq<nat>, h: nat, j: nat, replicas: seq<string>)
    requires forall k :: k in keys <==> k in ring
    requires j <= |keys|
    requires replicas == FirstOccurrences(Owners(ring, Clockwise(keys, h))[..j])
    requires |Elements(replicas)| < |ring.Values|
    ensures j < |keys|
  {
    if j == |keys| {
      FullWalk(ring, keys, h);
    }
  }

  /** Once the walk has found as many owners as the ring has, it has found all of them. */
  lemma AllOwnersFound(ring: map<nat, string>, keys: seq<nat>, h: nat, j: nat, replicas: seq<string>)
    requires forall k :: k in keys <==> k in ring
    requires j <= |keys|
    requires replicas == FirstOccurrences(Owners(ring, Clockwise(keys, h))[..j])
    requires |Elements(replicas)| == |replicas| >= |ring.Values|
    ensures replicas == FirstOccurrences(Owners(ring, Clockwise(keys, h)))
  {
    var walk := Owners(ring, Clockwise(keys, h));
    var all := FirstOccurrences(walk);
    FirstOccurrencesSpec(walk[..j]);
    FirstOccurrencesSpec(walk);
    OwnersCoverRing(ring, Clockwise(keys, h));
    FirstOccurrencesPrefix(walk, j);
    forall x | x in Elements(replicas) ensures x in ring.Values {
      assert x in walk[..j];
    }
    SubsetCardinality(Elements(replicas), ring.Values);
    PrefixHoldingAll(replicas, all);
  }

  /** A prefix of exactly n elements is what Take keeps. */
  lemma TakeOfPrefix(a: seq<string>, b: seq<string>, n: int)
    requires a <= b && |a| == n
    ensures a == Take(b, n)
  {
    if 0 < n < |b| {
      assert a == b[..n];
    }
  }

  /**
   * When the walk stops, because rf replicas are found or every one of
   * the nodeCount nodes is, its replicas are those Replicas describes.
   */
  lemma WalkResult(ring: map<nat, string>, keys: seq<nat>, h: nat, j: nat, replicas: seq<string>,
                   nodeCount: nat, rf: int)
    requires forall k :: k in keys <==> k in ring
    requires j <= |keys| && |ring.Values| <= nodeCount
    requires replicas == FirstOccurrences(Owners(ring, Clockwise(keys, h))[..j])
    requires rf <= 0 ==> replicas == []
    requires rf > 0 ==> |replicas| <= rf
    requires |Elements(replicas)| == |replicas|
    requires |replicas| >= rf || |replicas| >= nodeCount
    ensures replicas == Replicas(ring, keys, h, rf)
  {
    var walk := Owners(ring, Clockwise(keys, h));
    FirstOccurrencesPrefix(walk, j);
    if rf > 0 {
      if |replicas| >= nodeCount {
        AllOwnersFound(ring, keys, h, j, replicas);
      } else {
        TakeOfPrefix(replicas, FirstOccurrences(walk), rf);
      }
    }
  }

  /**
   * The walk of get_nodes_for_key over a non-empty sorted ring: from the
   * bisect_right position of h, collect each owner not met before until rf
   * of them are found or nodeCount are. The loop stops only because the
   * ring has enough owners.
   */
  method CollectReplicas(ring: map<nat, string>, keys: seq<nat>, nodeCount: nat, h: nat, rf: int)
    returns (replicas: seq<string>)
    requires Sorted(keys) && keys != []
    requires forall k :: k in keys <==> k in ring
    requires |ring.Values| <= nodeCount
    requires Min(rf, nodeCount) <= |ring.Values|
    ensures replicas == Replicas(ring, keys, h, rf)
  {
    var startIdx := BisectRight(keys, h);
    var n := |keys|;
    var found: set<string> := {};
    replicas := [];
    var idx := startIdx;
    ghost var steps := 0;
    while |replicas| < rf && |found| < nodeCount
      invariant idx == startIdx + steps && steps <= n
      invariant replicas == FirstOccurrences(Owners(ring, Clockwise(keys, h))[..steps])
      invariant found == Elements(replicas)
      invariant |found| == |replicas|
      invariant rf <= 0 ==> replicas == []
      invariant rf > 0 ==> |replicas| <= rf
      decreases n - steps
    {
      var ringIdx := idx % n;
      var node := ring[keys[ringIdx]];
      assert |found| < |ring.Values|;
      CollectStep(ring, keys, h, startIdx, idx, steps, replicas, node);
      if node !in found {
        found := found + {node};
        replicas := replicas + [node];
      }
      idx := idx + 1;
      steps := steps + 1;
    }
    WalkResult(ring, keys, h, steps, replicas, nodeCount, rf);
  }

  /** The hash ring: its points, their owners, and the physical nodes. */
  class ConsistentHashRing {
    const hash: string -> nat
    const virtualNodes: int
    const replicationFactor: int
    var ring: map<nat, string>
    var sortedKeys: seq<nat>
    var nodes: set<string>

    /** The ring point of the virtual key f"{node}:{i}". */
    function PointHash(node: string, i: nat): nat
    {
      hash(VirtualKey(node, i))
    }

    /** The points of the first n virtual keys of node. */
    function PointsBelow(node: string, n: int): set<nat>
    {
      set i: nat | i < n :: PointHash(node, i)
    }

    /** All the points of node. */
    function Points(node: string): set<nat>
    {
      PointsBelow(node, virtualNodes)
    }

    /** The points of the first n virtual keys of node, in the order add_node inserts them. */
    function PointSequence(node: string, n: int): seq<nat>
      decreases n
    {
      if n <= 0 then [] else PointSequence(node, n - 1) + [PointHash(node, n - 1)]
    }

    /** The first n virtual points of node, each owned by node. */
    function PointsMap(node: string, n: int): map<nat, string>
      decreases n
    {
      if n <= 0 then map[] else PointsMap(node, n - 1)[PointHash(node, n - 1) := node]
    }

    /** PointsMap(node, n) maps exactly the first n points of node, all to node. */
    lemma {:induction false} PointsMapSpec(node: string, n: int)
      ensures PointsMap(node, n).Keys == PointsBelow(node, n)
      ensures forall h :: h in PointsMap(node, n) ==> PointsMap(node, n)[h] == node
      decreases n
    {
      if n > 0 {
        PointsMapSpec(node, n - 1);
        assert PointsBelow(node, n) == PointsBelow(node, n - 1) + {PointHash(node, n - 1)};
      }
    }

    /**
     * The points that adding the nodes of s one after another lists, a
     * node listed twice having its points listed twice.
     */
    ghost function InitialPoints(s: seq<string>): seq<nat>
      decreases |s|
    {
      if s == [] then [] else InitialPoints(s[..|s| - 1]) + PointSequence(s[|s| - 1], virtualNodes)
    }

    /** The ring after the constructor has added the first j nodes of initial. */
    ghost predicate BuiltFrom(initial: seq<string>, j: nat)
      reads this
    {
      && j <= |initial|
      && Valid()
      && nodes == Elements(initial[..j])
      && ring == InitialRing(initial[..j])
      && ring.Keys == PointsOf(initial[..j])
      && multiset(sortedKeys) == multiset(InitialPoints(initial[..j]))
      && (DistinctPoints(initial) ==> NoDuplicatePoints())
    }

    /** One turn of the constructor's loop: node j of initial is added. */
    method AddInitialNode(initial: seq<string>, j: nat)
      requires j < |initial| && BuiltFrom(initial, j)
      modifies this
      ensures BuiltFrom(initial, j + 1)
    {
      ghost var before := initial[..j];
      ghost var listed := multiset(sortedKeys);
      if DistinctPoints(initial) {
        FreshAfterPrefix(ring, sortedKeys, nodes, initial, j);
      }
      AddNode(initial[j]);
      ExtendPrefix(initial, j);
      ElementsAppend(before, initial[j]);
      PointsOfAppend(before, initial[j]);
      ListedAfterAdd(before, initial[j], listed, multiset(sortedKeys));
      assert (before + [initial[j]])[..|before|] == before;
    }

    /**
     * The ring map after adding the nodes of s one after another: where
     * virtual keys of two nodes hash alike, the node added later owns the point.
     */
    ghost function InitialRing(s: seq<string>): map<nat, string>
      decreases |s|
    {
      if s == [] then map[] else InitialRing(s[..|s| - 1]) + PointsMap(s[|s| - 1], virtualNodes)
    }

    /** Adding one more node of the list lists its points once more. */
    lemma ListedAfterAdd(s: seq<string>, node: string, before: multiset<nat>, after: multiset<nat>)
      requires before == multiset(InitialPoints(s))
      requires after == before + multiset(PointSequence(node, virtualNodes))
      ensures after == multiset(InitialPoints(s + [node]))
    {
      assert (s + [node])[..|s|] == s;
    }

    /** The points of every node of s. */
    ghost function PointsOf(s: seq<string>): set<nat>
    {
      set n, h | n in s && h in Points(n) :: h
    }

    /**
     * The ring invariant on values: the sorted list holds exactly the
     * ring's points, every owner is a node, and every point of an owner is
     * one of its own virtual points.
     */
    ghost predicate Consistent(ring: map<nat, string>, keys: seq<nat>, nodes: set<string>)
    {
      && Sorted(keys)
      && (forall k :: k in keys <==> k in ring)
      && (forall h :: h in ring ==> ring[h] in nodes && h in Points(ring[h]))
    }

    ghost predicate Valid()
      reads this
    {
      Consistent(ring, sortedKeys, nodes)
    }

    /** No point occurs twice in the sorted list; remove_node relies on it. */
    ghost predicate NoDuplicatePoints()
      reads this
    {
      StrictlySorted(sortedKeys)
    }

    /** The points of node are pairwise different and none is on the ring yet. */
    ghost predicate FreshPoints(node: string)
      reads this
    {
      OwnPointsDistinct(node) && Unplaced(ring, node, 0)
    }

    /** The virtual keys of node hash to pairwise different points. */
    ghost predicate OwnPointsDistinct(node: string)
    {
      forall i: nat, j: nat :: i < j < virtualNodes ==> PointHash(node, i) != PointHash(node, j)
    }

    /** None of the points of node from virtual key `from` on is in ring. */
    ghost predicate Unplaced(ring: map<nat, string>, node: string, from: int)
    {
      forall j: nat :: from <= j < virtualNodes ==> PointHash(node, j) !in ring
    }

    /** No two virtual keys of the nodes of s hash alike. */
    ghost predicate DistinctPoints(s: seq<string>)
    {
      forall a: nat, b: nat, i: nat, j: nat ::
        a < |s| && b < |s| && i < virtualNodes && j < virtualNodes && (a != b || i != j) ==>
        PointHash(s[a], i) != PointHash(s[b], j)
    }

    /**
     * With a hash that never collides, nodes of distinct names have
     * distinct points: different virtual keys are different strings.
     */
    lemma DistinctNodesHaveDistinctPoints(s: seq<string>)
      requires forall x, y :: hash(x) == hash(y) ==> x == y
      requires Distinct(s)
      ensures DistinctPoints(s)
    {
      forall a: nat, b: nat, i: nat, j: nat |
        a < |s| && b < |s| && i < virtualNodes && j < virtualNodes && (a != b || i != j)
        ensures PointHash(s[a], i) != PointHash(s[b], j)
      {
        VirtualKeyInjective(s[a], i, s[b], j);
      }
    }

    constructor (hash: string -> nat, initial: seq<string> := [], virtualNodes: int := 100,
                 replicationFactor: int := 1)
      ensures this.hash == hash && this.virtualNodes == virtualNodes
      ensures this.replicationFactor == replicationFactor
      ensures Valid()
      ensures nodes == Elements(initial)
      ensures forall h :: h in ring <==> h in InitialRing(initial)
      ensures forall h :: h in ring ==> ring[h] == InitialRing(initial)[h]
      ensures ring.Keys == PointsOf(initial)
      ensures forall k :: multiset(sortedKeys)[k] == multiset(InitialPoints(initial))[k]
      ensures DistinctPoints(initial) ==> NoDuplicatePoints()
    {
      this.hash := hash;
      this.virtualNodes := virtualNodes;
      this.replicationFactor := replicationFactor;
      ring := map[];
      sortedKeys := [];
      nodes := {};
      new;
      var j := 0;
      while j < |initial|
        invariant 0 <= j <= |initial|
        invariant BuiltFrom(initial, j)
      {
        AddInitialNode(initial, j);
        j := j + 1;
      }
      assert initial[..j] == initial;
    }

    lemma PointsOfAppend(s: seq<string>, node: string)
      ensures PointsOf(s + [node]) == PointsOf(s) + Points(node)
    {
      forall h | h in PointsOf(s + [node]) ensures h in PointsOf(s) + Points(node) {
        var n :| n in s + [node] && h in Points(n);
        if n != node {
          assert n in s;
        }
      }
    }

    /** With no two virtual keys colliding, the next node of the list has fresh points. */
    lemma FreshAfterPrefix(ring: map<nat, string>, keys: seq<nat>, nodes: set<string>, s: seq<string>, j: nat)
      requires j < |s| && DistinctPoints(s)
      requires Consistent(ring, keys, nodes) && nodes == Elements(s[..j])
      ensures OwnPointsDistinct(s[j]) && Unplaced(ring, s[j], 0)
    {
      forall i: nat | i < virtualNodes ensures PointHash(s[j], i) !in ring {
        forall h | h in ring ensures h != PointHash(s[j], i) {
          var owner := ring[h];
          assert owner in s[..j];
          var b :| 0 <= b < j && s[b] == owner;
          var i': nat :| i' < virtualNodes && PointHash(owner, i') == h;
          assert PointHash(s[b], i') != PointHash(s[j], i);
        }
      }
    }

    /** Places node on the ring at the points of its virtual keys. */
    method AddNode(node: string)
      requires Valid()
      modifies this
      ensures Valid()
      ensures nodes == old(nodes) + {node}
      ensures ring == old(ring) + PointsMap(node, virtualNodes)
      ensures ring.Keys == old(ring.Keys) + Points(node)
      ensures multiset(sortedKeys) == multiset(old(sortedKeys)) + multiset(PointSequence(node, virtualNodes))
      ensures old(NoDuplicatePoints() && FreshPoints(node)) ==> NoDuplicatePoints()
    {
      ghost var keepsStrict := NoDuplicatePoints() && FreshPoints(node);
      nodes := nodes + {node};
      ring, sortedKeys := PlacePoints(ring, sortedKeys, nodes, node, keepsStrict);
      PointsMapSpec(node, virtualNodes);
    }

    /**
     * The loop of add_node: for each virtual key in turn, its point is
     * owned by node and inserted in order into the sorted point list.
     */
    method PlacePoints(ring0: map<nat, string>, keys0: seq<nat>, ghost nodes: set<string>, node: string,
                       ghost strict: bool)
      returns (ring: map<nat, string>, keys: seq<nat>)
      requires Consistent(ring0, keys0, nodes) && node in nodes
      requires strict ==> StrictlySorted(keys0) && OwnPointsDistinct(node) && Unplaced(ring0, node, 0)
      ensures Placed(ring0, keys0, ring, keys, nodes, node, virtualNodes, strict)
    {
      ring, keys := ring0, keys0;
      var i := 0;
      while i < virtualNodes
        invariant 0 <= i && (i <= virtualNodes || i == 0)
        invariant Placed(ring0, keys0, ring, keys, nodes, node, i, strict)
      {
        var h := PointHash(node, i);
        ghost var ringBefore := ring;
        ring := ring[h := node];
        var at := BisectRight(keys, h);
        var newKeys := keys[..at] + [h] + keys[at..];
        PlacePoint(ring0, keys0, ringBefore, keys, newKeys, nodes, node, i, at, strict);
        keys := newKeys;
        i := i + 1;
      }
      if virtualNodes < 0 {
        assert PointsMap(node, virtualNodes) == PointsMap(node, 0);
        assert PointSequence(node, virtualNodes) == PointSequence(node, 0);
      }
    }

    /**
     * What add_node has achieved once its first i virtual points are
     * placed on top of baseRing and baseKeys.
     */
    ghost predicate Placed(baseRing: map<nat, string>, baseKeys: seq<nat>, ring: map<nat, string>, keys: seq<nat>,
                           nodes: set<string>, node: string, i: int, strict: bool)
    {
      && ring == baseRing + PointsMap(node, i)
      && Consistent(ring, keys, nodes)
      && multiset(keys) == multiset(baseKeys) + multiset(PointSequence(node, i))
      && (strict ==> StrictlySorted(keys) && OwnPointsDistinct(node) && Unplaced(ring, node, i))
    }

    /**
     * One step of add_node: point i of node is placed on the ring and
     * inserted in order, which extends what the loop has added by that point.
     */
    lemma PlacePoint(baseRing: map<nat, string>, baseKeys: seq<nat>, ring: map<nat, string>, keys: seq<nat>,
                     newKeys: seq<nat>, nodes: set<string>, node: string, i: nat, at: nat, strict: bool)
      requires Placed(baseRing, baseKeys, ring, keys, nodes, node, i, strict)
      requires node in nodes && i < virtualNodes
      requires SplitsAt(keys, PointHash(node, i), at)
      requires newKeys == keys[..at] + [PointHash(node, i)] + keys[at..]
      ensures Placed(baseRing, baseKeys, ring[PointHash(node, i) := node], newKeys, nodes, node, i + 1, strict)
    {
      var h := PointHash(node, i);
      PlaceConsistent(ring, keys, nodes, node, i, at);
      UpdateUnion(baseRing, PointsMap(node, i), h, node);
      InsortAddsOne(keys, at, h);
      assert PointSequence(node, i + 1) == PointSequence(node, i) + [h];
      if strict {
        PlaceStrict(ring, keys, node, i, at);
      }
    }

    /** Placing point i of node, a node of the ring, keeps the ring invariant. */
    lemma PlaceConsistent(ring: map<nat, string>, keys: seq<nat>, nodes: set<string>, node: string, i: nat, at: nat)
      requires Consistent(ring, keys, nodes) && node in nodes && i < virtualNodes
      requires SplitsAt(keys, PointHash(node, i), at)
      ensures Consistent(ring[PointHash(node, i) := node], keys[..at] + [PointHash(node, i)] + keys[at..], nodes)
    {
      var h := PointHash(node, i);
      assert h in Points(node);
      InsortSorted(keys, at, h);
      InsortAddsOne(keys, at, h);
    }

    /** A fresh point keeps the list strictly ascending and the later points fresh. */
    lemma PlaceStrict(ring: map<nat, string>, keys: seq<nat>, node: string, i: nat, at: nat)
      requires forall k :: k in keys <==> k in ring
      requires StrictlySorted(keys) && OwnPointsDistinct(node) && Unplaced(ring, node, i) && i < virtualNodes
      requires SplitsAt(keys, PointHash(node, i), at)
      ensures StrictlySorted(keys[..at] + [PointHash(node, i)] + keys[at..])
      ensures Unplaced(ring[PointHash(node, i) := node], node, i + 1)
    {
      InsortStrict(keys, at, PointHash(node, i));
    }

    /** Updating one entry of a union is updating the right-hand operand. */
    lemma UpdateUnion(base: map<nat, string>, m: map<nat, string>, h: nat, v: string)
      ensures base + m[h := v] == (base + m)[h := v]
    {
    }

    /**
     * The node owning key: the owner of the first ring point clockwise
     * after the key's hash; None on an empty ring or for a None or empty key.
     */
    method GetNode(key: Option<string>) returns (r: Option<string>)
      requires Valid()
      ensures r.None? <==> ring == map[] || key.None? || key.value == ""
      ensures r.Some? ==> r == Some(ring[Clockwise(sortedKeys, hash(key.value))[0]])
      ensures r.Some? ==> exists p :: IsSuccessor(ring.Keys, hash(key.value), p) && r.value == ring[p]
      ensures r.Some? ==> r.value in nodes
    {
      if ring == map[] {
        return None;
      }
      if key.None? || key.value == "" {
        return None;
      }
      var h := hash(key.value);
      var idx := BisectRight(sortedKeys, h);
      ClockwiseIsRotation(sortedKeys, h, idx);
      if idx == |sortedKeys| {
        idx := 0;  // wrap around
      }
      var p := sortedKeys[idx];
      assert p == Clockwise(sortedKeys, h)[0];
      ClockwiseHeadIsSuccessor(sortedKeys, ring.Keys, h);
      r := Some(ring[p]);
    }

    /**
     * The replicas of key: walking the ring from the key's position, the
     * first replicationFactor distinct owners. The loop ends only if that
     * many owners exist (or as many as there are nodes).
     */
    method GetNodesForKey(key: string) returns (r: seq<string>)
      requires Valid()
      requires ring != map[] && replicationFactor != 0 ==>
        Min(replicationFactor, |nodes|) <= |ring.Values|
      ensures ring == map[] || replicationFactor == 0 ==> r == []
      ensures ring != map[] && replicationFactor != 0 ==>
        r == Replicas(ring, sortedKeys, hash(key), replicationFactor)
      ensures Distinct(r)
      ensures forall x :: x in r ==> x in nodes
      ensures |r| <= |nodes| && (r != [] ==> |r| <= replicationFactor)
      ensures ring != map[] && replicationFactor > 0 ==> |r| == Min(replicationFactor, |nodes|)
      ensures r != [] ==> r[0] == ring[Clockwise(sortedKeys, hash(key))[0]]
    {
      if ring == map[] || replicationFactor == 0 {
        return [];
      }
      var h := hash(key);
      assert sortedKeys != [] by {
        var k :| k in ring;
      }
      assert ring.Values <= nodes;
      SubsetCardinality(ring.Values, nodes);
      r := CollectReplicas(ring, sortedKeys, |nodes|, h, replicationFactor);
      ReplicasSpec(ring, sortedKeys, h, replicationFactor);
    }

    /**
     * Takes node, and every point of its virtual keys, off the ring; None
     * changes nothing. Every copy of a point leaves the sorted list, also
     * when adding a node twice has listed its points twice.
     */
    method RemoveNode(node: Option<string>)
      requires Valid()
      modifies this
      ensures Valid()
      ensures old(NoDuplicatePoints()) ==> NoDuplicatePoints()
      ensures node.None? ==> nodes == old(nodes) && ring == old(ring) && sortedKeys == old(sortedKeys)
      ensures node.Some? ==> nodes == old(nodes) - {node.value}
      ensures node.Some? ==> ring == old(ring) - Points(node.value)
      ensures node.Some? ==> node.value !in ring.Values
      ensures node.Some? ==>
        forall k :: multiset(sortedKeys)[k] == if k in Points(node.value) then 0 else multiset(old(sortedKeys))[k]
    {
      if node.None? {
        return;
      }
      ghost var strict := NoDuplicatePoints();
      var n := node.value;
      nodes := nodes - {n};
      ring, sortedKeys := UnplacePoints(ring, sortedKeys, old(nodes), n, strict);
      Unowned(ring, sortedKeys, old(nodes), n);
    }

    /**
     * The loop of remove_node: for each virtual key of node in turn, a
     * point still on the ring is deleted from it and cut from the sorted
     * point list, every copy of it, between its bisect_left and
     * bisect_right positions.
     */
    method UnplacePoints(ring0: map<nat, string>, keys0: seq<nat>, ghost nodes: set<string>, node: string,
                         ghost strict: bool)
      returns (ring: map<nat, string>, keys: seq<nat>)
      requires Consistent(ring0, keys0, nodes)
      requires strict ==> StrictlySorted(keys0)
      ensures Removed(ring0, keys0, ring, keys, nodes, node, virtualNodes, strict)
      ensures forall k :: multiset(keys)[k] == if k in Points(node) then 0 else multiset(keys0)[k]
    {
      ring, keys := ring0, keys0;
      var i := 0;
      while i < virtualNodes
        invariant 0 <= i && (i <= virtualNodes || i == 0)
        invariant Removed(ring0, keys0, ring, keys, nodes, node, i, strict)
      {
        ring, keys := UnplacePoint(ring0, keys0, ring, keys, nodes, node, i, strict);
        i := i + 1;
      }
      if virtualNodes < 0 {
        assert PointsBelow(node, virtualNodes) == PointsBelow(node, 0);
      }
      RemovedCounts(ring0, keys0, ring, keys, nodes, node);
    }

    /**
     * One turn of the loop of remove_node: point i of node, when still on
     * the ring, is deleted from it and every copy of it is cut from the list.
     */
    method UnplacePoint(ghost ring0: map<nat, string>, ghost keys0: seq<nat>, ring: map<nat, string>, keys: seq<nat>,
                        ghost nodes: set<string>, node: string, i: nat, ghost strict: bool)
      returns (newRing: map<nat, string>, newKeys: seq<nat>)
      requires Removed(ring0, keys0, ring, keys, nodes, node, i, strict)
      ensures Removed(ring0, keys0, newRing, newKeys, nodes, node, i + 1, strict)
    {
      newRing, newKeys := ring, keys;
      var h := PointHash(node, i);
      if h in newRing {
        newRing := newRing - {h};
        var lo := BisectLeft(newKeys, h);
        var hi := BisectRight(newKeys, h);
        TakePoint(ring0, keys0, ring, keys, nodes, node, i, lo, hi, strict);
        newKeys := newKeys[..lo] + newKeys[hi..];
      } else {
        SkipPoint(ring0, keys0, ring, keys, nodes, node, i, strict);
      }
    }

    /**
     * Once every point of node is off ring0, the list holds no copy of
     * them and as many copies of every other point as keys0 holds.
     */
    lemma RemovedCounts(ring0: map<nat, string>, keys0: seq<nat>, ring: map<nat, string>, keys: seq<nat>,
                        nodes: set<string>, node: string)
      requires forall k :: k in keys0 <==> k in ring0
      requires ring == ring0 - Points(node) && (forall k :: k in keys <==> k in ring)
      requires forall k :: k in ring ==> multiset(keys)[k] == multiset(keys0)[k]
      ensures forall k :: multiset(keys)[k] == if k in Points(node) then 0 else multiset(keys0)[k]
    {
      forall k ensures multiset(keys)[k] == if k in Points(node) then 0 else multiset(keys0)[k] {
        if k !in ring {
          assert k !in keys;
          assert k !in Points(node) ==> k !in keys0;
        }
      }
    }

    /**
     * What remove_node has achieved once the first i virtual points of node
     * are off ring0: the invariant holds, every point still on the ring
     * keeps the copies keys0 lists, and a list without repeated points
     * still has none.
     */
    ghost predicate Removed(ring0: map<nat, string>, keys0: seq<nat>, ring: map<nat, string>, keys: seq<nat>,
                            nodes: set<string>, node: string, i: int, strict: bool)
    {
      && ring == ring0 - PointsBelow(node, i)
      && Consistent(ring, keys, nodes)
      && (forall k :: k in ring ==> multiset(keys)[k] == multiset(keys0)[k])
      && (strict ==> StrictlySorted(keys))
    }

    /** A point already off the ring needs no removal. */
    lemma SkipPoint(ring0: map<nat, string>, keys0: seq<nat>, ring: map<nat, string>, keys: seq<nat>,
                    nodes: set<string>, node: string, i: nat, strict: bool)
      requires Removed(ring0, keys0, ring, keys, nodes, node, i, strict) && PointHash(node, i) !in ring
      ensures Removed(ring0, keys0, ring, keys, nodes, node, i + 1, strict)
    {
      assert PointsBelow(node, i + 1) == PointsBelow(node, i) + {PointHash(node, i)};
    }

    /**
     * One removal of remove_node: the copies of a ring point lie between
     * its bisect_left and bisect_right positions, and cutting them out
     * keeps the invariant for the smaller ring.
     */
    lemma TakePoint(ring0: map<nat, string>, keys0: seq<nat>, ring: map<nat, string>, keys: seq<nat>,
                    nodes: set<string>, node: string, i: nat, lo: nat, hi: nat, strict: bool)
      requires Removed(ring0, keys0, ring, keys, nodes, node, i, strict) && PointHash(node, i) in ring
      requires lo <= |keys| && hi <= |keys|
      requires forall k :: 0 <= k < lo ==> keys[k] < PointHash(node, i)
      requires forall k :: lo <= k < |keys| ==> PointHash(node, i) <= keys[k]
      requires SplitsAt(keys, PointHash(node, i), hi)
      ensures lo < hi
      ensures Removed(ring0, keys0, ring - {PointHash(node, i)}, keys[..lo] + keys[hi..], nodes, node, i + 1, strict)
    {
      var h := PointHash(node, i);
      var cut := keys[..lo] + keys[hi..];
      assert PointsBelow(node, i + 1) == PointsBelow(node, i) + {h};
      assert ring - {h} == ring0 - PointsBelow(node, i + 1);
      CutPoint(ring, keys, nodes, h, lo, hi);
      assert forall k :: k in ring - {h} ==> multiset(cut)[k] == multiset(keys0)[k];
    }

    /**
     * Deleting a ring point h and cutting its run, between its bisect_left
     * position lo and its bisect_right position hi, out of the sorted list
     * keeps the ring invariant; every other point keeps its copies.
     */
    lemma CutPoint(ring: map<nat, string>, keys: seq<nat>, nodes: set<string>, h: nat, lo: nat, hi: nat)
      requires Consistent(ring, keys, nodes) && h in ring
      requires lo <= |keys| && hi <= |keys|
      requires forall k :: 0 <= k < lo ==> keys[k] < h
      requires forall k :: lo <= k < |keys| ==> h <= keys[k]
      requires SplitsAt(keys, h, hi)
      ensures lo < hi
      ensures Consistent(ring - {h}, keys[..lo] + keys[hi..], nodes)
      ensures StrictlySorted(keys) ==> StrictlySorted(keys[..lo] + keys[hi..])
      ensures forall k :: multiset(keys[..lo] + keys[hi..])[k] == if k == h then 0 else multiset(keys)[k]
    {
      var m :| 0 <= m < |keys| && keys[m] == h;
      assert lo <= m < hi;
      CutKeepsOrder(keys, lo, hi, h);
    }

    /** Once every point of node is gone, node owns nothing. */
    lemma Unowned(ring: map<nat, string>, keys: seq<nat>, nodes: set<string>, node: string)
      requires Consistent(ring, keys, nodes)
      requires forall h :: h in ring ==> h !in Points(node)
      ensures node !in ring.Values
      ensures Consistent(ring, keys, nodes - {node})
    {
      forall x | x in ring.Values ensures x != node {
        var h :| h in ring && ring[h] == x;
        assert h in Points(x);
      }
    }
  }

  // remove_node as written.

  /** bisect_left as a function: the number of elements of a sorted list below x. */
  function CountBelow(s: seq<nat>, x: nat): (i: nat)
    ensures i <= |s|
    ensures forall k :: 0 <= k < i ==> s[k] < x
    ensures Sorted(s) ==> forall k :: i <= k < |s| ==> x <= s[k]
    decreases |s|
  {
    if s == [] || x <= s[0] then 0 else 1 + CountBelow(s[1..], x)
  }

  /**
   * One iteration of remove_node's loop as the source writes it: a point
   * on the ring is deleted from it and ONE copy of it popped from the
   * sorted list, at its bisect_left position.
   */
  function RemovePointAsWritten(ring: map<nat, string>, keys: seq<nat>, h: nat): (r: (map<nat, string>, seq<nat>))
    ensures r.0 == ring - {h}
    ensures h !in ring || h !in keys ==> r.1 == keys
    ensures h in ring && h in keys && Sorted(keys) ==> multiset(r.1) == multiset(keys) - multiset{h}
  {
    if h in ring then
      var idx := CountBelow(keys, h);
      PopAtBisectLeft(keys, h, idx);
      (ring - {h}, if idx < |keys| && keys[idx] == h then keys[..idx] + keys[idx + 1..] else keys)
    else (ring, keys)
  }

  /**
   * After a node with one virtual point at 7 is added twice, the sorted
   * list holds 7 twice; removing the node as written leaves one 7 listed
   * that the ring no longer maps, the point get_node then looks up.
   */
  lemma StalePointAfterDoubleAdd()
    ensures var (ring, keys) := RemovePointAsWritten(map[7 := "a"], [7, 7], 7);
      ring == map[] && keys == [7] && 7 in keys && 7 !in ring
  {
    assert CountBelow([7, 7], 7) == 0;
  }

  /** Without repeated points the step as written is sound: the list keeps exactly the ring's points. */
  lemma AsWrittenSoundWithoutRepeats(ring: map<nat, string>, keys: seq<nat>, h: nat)
    requires StrictlySorted(keys) && forall k :: k in keys <==> k in ring
    ensures var (ring', keys') := RemovePointAsWritten(ring, keys, h);
      StrictlySorted(keys') && (forall k :: k in keys' <==> k in ring') && ring' == ring - {h}
  {
    var r := RemovePointAsWritten(ring, keys, h);
    if h in ring {
      var idx := CountBelow(keys, h);
      assert Sorted(keys);
      PopAtBisectLeft(keys, h, idx);
      PopKeepsOrder(keys, idx);
      var popped := keys[..idx] + keys[idx + 1..];
      assert r == (ring - {h}, popped);
      assert forall k :: k in popped <==> k in ring - {h};
    } else {
      assert r == (ring, keys);
    }
  }

  /**
   * On a sorted list holding x, the bisect_left position idx of x is one
   * of its copies, and popping it takes exactly one copy of x away.
   */
  lemma PopAtBisectLeft(s: seq<nat>, x: nat, idx: nat)
    requires idx <= |s| && forall k :: 0 <= k < idx ==> s[k] < x
    requires Sorted(s) ==> forall k :: idx <= k < |s| ==> x <= s[k]
    ensures Sorted(s) && x in s ==> idx < |s| && s[idx] == x
    ensures Sorted(s) && x in s ==> multiset(s[..idx] + s[idx + 1..]) == multiset(s) - multiset{x}
  {
    if Sorted(s) && x in s {
      var m :| 0 <= m < |s| && s[m] == x;
      assert idx <= m;
      PopOne(s, idx);
    }
  }

  /** Popping position idx takes one copy of the value there away and nothing else. */
  lemma PopOne(s: seq<nat>, idx: nat)
    requires idx < |s|
    ensures multiset(s[..idx] + s[idx + 1..]) == multiset(s) - multiset{s[idx]}
  {
    assert s == s[..idx] + [s[idx]] + s[idx + 1..];
  }

  // Building the virtual keys.

  function DigitChar(d: nat): char
    requires d < 10
  {
    "0123456789"[d]
  }

  /** The decimal numeral of n, as Python's str() writes it. */
  function NatToString(n: nat): string
    decreases n
  {
    if n < 10 then [DigitChar(n)] else NatToString(n / 10) + [DigitChar(n % 10)]
  }

  /** The virtual key f"{node}:{i}". */
  function VirtualKey(node: string, i: nat): string
  {
    node + ":" + NatToString(i)
  }

  /** A numeral is a non-empty string of decimal digits. */
  lemma {:induction false} NatToStringDigits(n: nat)
    ensures NatToString(n) != []
    ensures forall c :: c in NatToString(n) ==> '0' <= c <= '9'
    decreases n
  {
    if n >= 10 {
      NatToStringDigits(n / 10);
    }
  }

  /** Different numbers have different numerals. */
  lemma {:induction false} NatToStringInjective(n: nat, m: nat)
    requires NatToString(n) == NatToString(m)
    ensures n == m
    decreases n
  {
    var s := NatToString(n);
    if n < 10 && m >= 10 {
      NatToStringDigits(m / 10);
    } else if n >= 10 && m < 10 {
      NatToStringDigits(n / 10);
    } else if n >= 10 {
      assert s[|s| - 1] == DigitChar(n % 10) == DigitChar(m % 10);
      assert s[..|s| - 1] == NatToString(n / 10) == NatToString(m / 10);
      NatToStringInjective(n / 10, m / 10);
    }
  }

  /** In a virtual key, the colon before the numeral is the last colon. */
  lemma LastColon(node: string, i: nat)
    ensures VirtualKey(node, i)[|node|] == ':'
    ensures forall k :: |node| < k < |VirtualKey(node, i)| ==> VirtualKey(node, i)[k] != ':'
  {
    var key := VirtualKey(node, i);
    NatToStringDigits(i);
    forall k | |node| < k < |key| ensures key[k] != ':' {
      assert key[k] == NatToString(i)[k - |node| - 1];
      assert NatToString(i)[k - |node| - 1] in NatToString(i);
    }
  }

  /** Different (node, index) pairs have different virtual keys, for any node names. */
  lemma VirtualKeyInjective(a: string, i: nat, b: string, j: nat)
    ensures VirtualKey(a, i) == VirtualKey(b, j) ==> a == b && i == j
  {
    var ka, kb := VirtualKey(a, i), VirtualKey(b, j);
    if ka == kb {
      LastColon(a, i);
      LastColon(b, j);
      assert |a| == |b|;
      assert a == ka[..|a|] && b == kb[..|b|];
      assert ka[|a| + 1..] == NatToString(i);
      assert kb[|b| + 1..] == NatToString(j);
      NatToStringInjective(i, j);
    }
  }

  /** The scenario of test_single_node_always_selected: one node owns every key. */
  method SingleNodeScenario(hash: string -> nat)
  {
    var initial := ["node1"];
    assert Elements(initial) == {"node1"};
    var r := new ConsistentHashRing(hash, initial, 10, 1);
    assert r.PointHash("node1", 0) in r.Points("node1");
    assert r.PointHash("node1", 0) in r.ring by {
      assert "node1" in initial;
    }
    var owner := r.GetNode(Some("test_key"));
    assert owner.value in r.nodes;
    assert owner == Some("node1");
  }

  /** Adding a node twice lists its point twice more; the corrected removal takes every copy out. */
  method DoubleAddScenario(hash: string -> nat)
  {
    var r := new ConsistentHashRing(hash, [], 1, 1);
    var h := r.PointHash("a", 0);
    ghost var copies := multiset(r.sortedKeys)[h];
    assert r.PointSequence("a", 1) == [h];
    r.AddNode("a");
    assert multiset(r.sortedKeys)[h] == copies + 1;
    r.AddNode("a");
    assert multiset(r.sortedKeys)[h] == copies + 2;
    r.RemoveNode(Some("a"));
    assert h in r.Points("a");
    assert h !in r.sortedKeys;
  }
}
