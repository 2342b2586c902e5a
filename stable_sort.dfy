/** sort.Stable(tcpServiceByName(services)) as TCPProxy calls it
    (internal/envoy/listener.go, line 98): an in-place stable insertion
    sort that only ever exchanges entries through Swap, specified by the
    function InsertionSort, whose output is proved sorted, a permutation of
    its input, stable, and the only sequence with those three properties. */
module StableSort {
  import opened ServiceOrder

  /** Adjacent entries never descend under Less. */
  predicate Sorted(s: seq<TcpService>)
  {
    forall i :: 0 < i < |s| ==> !Less(s[i], s[i - 1])
  }

  /** The entries of s whose key is (name, weight), in their order in s. */
  function Matching(s: seq<TcpService>, name: string, weight: nat): seq<TcpService>
  {
    if s == [] then []
    else
      var last := s[|s| - 1];
      Matching(s[..|s| - 1], name, weight) + (if last.name == name && last.weight == weight then [last] else [])
  }

  /** t keeps, for every key, the relative order that s has among the
      entries with that key: the definition of a stable rearrangement. */
  ghost predicate Stable(s: seq<TcpService>, t: seq<TcpService>)
  {
    forall name, weight :: Matching(t, name, weight) == Matching(s, name, weight)
  }

  /** One pass of insertion sort: x moves left past every entry it is Less
      than, and no further. */
  function Insert(s: seq<TcpService>, x: TcpService): (r: seq<TcpService>)
    ensures |r| == |s| + 1
    ensures r[|r| - 1] == x || (|s| > 0 && r[|r| - 1] == s[|s| - 1])
    ensures multiset(r) == multiset(s) + multiset{x}
  {
    if s == [] || !Less(x, s[|s| - 1]) then s + [x]
    else
      var rest := s[..|s| - 1];
      assert s == rest + [s[|s| - 1]];
      Insert(rest, x) + [s[|s| - 1]]
  }

  /** Insertion sort: every prefix in turn inserted into the sorted
      prefix before it. */
  function InsertionSort(s: seq<TcpService>): (r: seq<TcpService>)
    ensures |r| == |s|
    ensures multiset(r) == multiset(s)
  {
    if s == [] then []
    else
      assert s == s[..|s| - 1] + [s[|s| - 1]];
      Insert(InsertionSort(s[..|s| - 1]), s[|s| - 1])
  }

  lemma {:induction false} MatchingAppend(a: seq<TcpService>, b: seq<TcpService>, name: string, weight: nat)
    ensures Matching(a + b, name, weight) == Matching(a, name, weight) + Matching(b, name, weight)
    decreases |b|
  {
    if b == [] {
      assert a + b == a;
    } else {
      var b' := b[..|b| - 1];
      assert (a + b)[..|a + b| - 1] == a + b';
      MatchingAppend(a, b', name, weight);
    }
  }

  lemma {:induction false} InsertSorted(s: seq<TcpService>, x: TcpService)
    requires Sorted(s)
    ensures Sorted(Insert(s, x))
  {
    if s != [] && Less(x, s[|s| - 1]) {
      var rest, last := s[..|s| - 1], s[|s| - 1];
      InsertSorted(rest, x);
      var r := Insert(rest, x);
      LessAsymmetric(x, last);
      assert !Less(last, r[|r| - 1]);
    }
  }

  /** Inserting x appends it to the entries with its key and leaves every
      other key's entries alone: x only ever moves past entries strictly
      greater than it, none of which share its key. */
  lemma {:induction false} InsertMatching(s: seq<TcpService>, x: TcpService, name: string, weight: nat)
    ensures Matching(Insert(s, x), name, weight) == Matching(s, name, weight) + Matching([x], name, weight)
  {
    assert [x][..0] == [];
    if s == [] || !Less(x, s[|s| - 1]) {
      MatchingAppend(s, [x], name, weight);
    } else {
      var rest, last := s[..|s| - 1], s[|s| - 1];
      assert [last][..0] == [];
      assert s == rest + [last];
      InsertMatching(rest, x, name, weight);
      MatchingAppend(Insert(rest, x), [last], name, weight);
      MatchingAppend(rest, [last], name, weight);
    }
  }

  lemma {:induction false} SortSorted(s: seq<TcpService>)
    ensures Sorted(InsertionSort(s))
  {
    if s != [] {
      SortSorted(s[..|s| - 1]);
      InsertSorted(InsertionSort(s[..|s| - 1]), s[|s| - 1]);
    }
  }

  lemma {:induction false} SortMatching(s: seq<TcpService>, name: string, weight: nat)
    ensures Matching(InsertionSort(s), name, weight) == Matching(s, name, weight)
  {
    if s != [] {
      var rest, last := s[..|s| - 1], s[|s| - 1];
      SortMatching(rest, name, weight);
      InsertMatching(InsertionSort(rest), last, name, weight);
      assert s == rest + [last];
      MatchingAppend(rest, [last], name, weight);
      assert [last][..0] == [];
    }
  }

  /** InsertionSort is stable. */
  lemma SortIsStable(s: seq<TcpService>)
    ensures Stable(s, InsertionSort(s))
  {
    forall name, weight
      ensures Matching(InsertionSort(s), name, weight) == Matching(s, name, weight)
    {
      SortMatching(s, name, weight);
    }
  }

  /** Sorted, read back in terms of the fields: each adjacent pair has a
      strictly smaller name first, or equal names and a weight that does
      not decrease. */
  lemma SortedByNameThenWeight(t: seq<TcpService>)
    ensures Sorted(t) <==>
      forall i :: 0 < i < |t| ==>
        StrLess(t[i - 1].name, t[i].name) || (t[i - 1].name == t[i].name && t[i - 1].weight <= t[i].weight)
  {
    forall i | 0 < i < |t|
      ensures !Less(t[i], t[i - 1]) <==>
        StrLess(t[i - 1].name, t[i].name) || (t[i - 1].name == t[i].name && t[i - 1].weight <= t[i].weight)
    {
      if t[i - 1].name != t[i].name {
        StrLessTotal(t[i - 1].name, t[i].name);
        if StrLess(t[i - 1].name, t[i].name) {
          StrLessAsymmetric(t[i - 1].name, t[i].name);
        }
      } else {
        StrLessIrreflexive(t[i].name);
      }
    }
  }

  /** In a sorted sequence no entry is greater than the last one. */
  lemma {:induction false} SortedLastIsGreatest(t: seq<TcpService>, j: int)
    requires Sorted(t) && 0 <= j < |t|
    ensures !Less(t[|t| - 1], t[j])
    decreases |t| - j
  {
    if j < |t| - 1 {
      SortedLastIsGreatest(t, j + 1);
      NotLessTransitive(t[j], t[j + 1], t[|t| - 1]);
    }
  }

  /** Every entry Matching keeps is an entry of s with that key. */
  lemma {:induction false} MatchingMember(s: seq<TcpService>, name: string, weight: nat, x: TcpService)
    requires x in Matching(s, name, weight)
    ensures x in s && x.name == name && x.weight == weight
  {
    var rest := s[..|s| - 1];
    if x in Matching(rest, name, weight) {
      MatchingMember(rest, name, weight, x);
      assert s == rest + [s[|s| - 1]];
    }
  }

  lemma MatchingSnoc(p: seq<TcpService>, x: TcpService, name: string, weight: nat)
    ensures Matching(p + [x], name, weight) ==
      Matching(p, name, weight) + (if x.name == name && x.weight == weight then [x] else [])
  {
    assert (p + [x])[..|p|] == p;
  }

  /** If t has, in order, the entries of a's key that p + [a] has, then
      t is not empty and its last entry is not below a. */
  lemma LastNotBelow(p: seq<TcpService>, a: TcpService, t: seq<TcpService>)
    requires Sorted(t)
    requires Matching(p + [a], a.name, a.weight) == Matching(t, a.name, a.weight)
    ensures t != [] && !Less(t[|t| - 1], a)
  {
    MatchingSnoc(p, a, a.name, a.weight);
    var m := Matching(t, a.name, a.weight);
    assert a == m[|m| - 1];
    MatchingMember(t, a.name, a.weight, a);
    var j :| 0 <= j < |t| && t[j] == a;
    SortedLastIsGreatest(t, j);
  }

  /** Two sorted sequences with the same entries of every key, in the same
      order, are equal. */
  lemma {:induction false} SortedStableUnique(t1: seq<TcpService>, t2: seq<TcpService>)
    requires Sorted(t1) && Sorted(t2)
    requires forall name, weight :: Matching(t1, name, weight) == Matching(t2, name, weight)
    ensures t1 == t2
    decreases |t1|
  {
    if t1 != [] {
      assert t1 == t1[..|t1| - 1] + [t1[|t1| - 1]];
      LastNotBelow(t1[..|t1| - 1], t1[|t1| - 1], t2);
    }
    if t2 != [] {
      assert t2 == t2[..|t2| - 1] + [t2[|t2| - 1]];
      LastNotBelow(t2[..|t2| - 1], t2[|t2| - 1], t1);
    }
    if t1 != [] && t2 != [] {
      var p1, a := t1[..|t1| - 1], t1[|t1| - 1];
      var p2, b := t2[..|t2| - 1], t2[|t2| - 1];
      assert t1 == p1 + [a] && t2 == p2 + [b];
      LessTrichotomy(a, b);
      assert SameKey(a, b);
      forall name, weight
        ensures Matching(p1, name, weight) == Matching(p2, name, weight)
      {
        MatchingSnoc(p1, a, name, weight);
        MatchingSnoc(p2, b, name, weight);
        var m1, m2 := Matching(p1, name, weight), Matching(p2, name, weight);
        assert Matching(p1 + [a], name, weight) == Matching(p2 + [b], name, weight);
        if name == a.name && weight == a.weight {
          assert m1 + [a] == m2 + [b];
          assert m1 == (m1 + [a])[..|m1|];
          assert m2 == (m2 + [b])[..|m2|];
        } else {
          assert m1 + [] == m2 + [];
          assert m1 + [] == m1 && m2 + [] == m2;
        }
      }
      MatchingSnoc(p1, a, a.name, a.weight);
      MatchingSnoc(p2, b, a.name, a.weight);
      var m := Matching(t1, a.name, a.weight);
      assert a == m[|m| - 1] == b;
      SortedStableUnique(p1, p2);
    }
  }

  /** Whatever stable sort produces a sorted rearrangement of s — Go's
      sort.Stable, which insertion-sorts blocks of 20 and then merges them,
      included — its result is InsertionSort(s). */
  lemma StableSortIsUnique(s: seq<TcpService>, t: seq<TcpService>)
    requires Sorted(t) && Stable(s, t)
    ensures t == InsertionSort(s)
  {
    SortSorted(s);
    SortIsStable(s);
    SortedStableUnique(t, InsertionSort(s));
  }

  /** The sorted order depends on the input order only among entries that
      share a key: two inputs with the same entries of every key, in the
      same order, sort to the same sequence. */
  lemma SortIgnoresInputOrder(s1: seq<TcpService>, s2: seq<TcpService>)
    requires Stable(s1, s2)
    ensures InsertionSort(s1) == InsertionSort(s2)
  {
    SortSorted(s1);
    SortIsStable(s1);
    SortSorted(s2);
    SortIsStable(s2);
    SortedStableUnique(InsertionSort(s1), InsertionSort(s2));
  }

  /** The state of one insertion pass over c: x, first at index i, has
      been moved down to index j, and the part it has passed is shifted up. */
  ghost predicate Inserting(c: seq<TcpService>, prefix: seq<TcpService>, x: TcpService, i: int, j: int)
  {
    0 <= j <= i < |c| && c[j] == x && Insert(c[..j], x) + c[j + 1..i + 1] == Insert(prefix, x)
  }

  /** One Swap of the pass keeps its state. */
  lemma InsertingStep(c: seq<TcpService>, prefix: seq<TcpService>, x: TcpService, i: int, j: int)
    requires Inserting(c, prefix, x, i, j) && j > 0 && Less(c[j], c[j - 1])
    ensures Inserting(c[j := c[j - 1]][j - 1 := c[j]], prefix, x, i, j - 1)
    ensures c[j := c[j - 1]][j - 1 := c[j]][i + 1..] == c[i + 1..]
  {
    var c' := c[j := c[j - 1]][j - 1 := c[j]];
    var rest, y := c[..j - 1], c[j - 1];
    assert c[..j] == rest + [y];
    assert c'[..j - 1] == rest;
    assert c'[j..i + 1] == [y] + c[j + 1..i + 1];
  }

  /** When the pass stops, the first i + 1 entries are Insert(prefix, x). */
  lemma InsertingDone(c: seq<TcpService>, prefix: seq<TcpService>, x: TcpService, i: int, j: int)
    requires Inserting(c, prefix, x, i, j) && !(j > 0 && Less(c[j], c[j - 1]))
    ensures c[..i + 1] == Insert(prefix, x)
  {
    assert c[..j + 1] == c[..j] + [x];
    assert c[..i + 1] == c[..j + 1] + c[j + 1..i + 1];
  }

  /** One pass of Go's insertionSort: for j from i down, while a[j] is
      Less than a[j - 1], Swap them. */
  method InsertAt(a: array<TcpService>, i: int)
    requires 0 <= i < a.Length
    modifies a
    ensures a[..i + 1] == Insert(old(a[..i]), old(a[i]))
    ensures a[i + 1..] == old(a[i + 1..])
  {
    ghost var prefix, x := a[..i], a[i];
    var j := i;
    while j > 0 && Less(a[j], a[j - 1])
      invariant Inserting(a[..], prefix, x, i, j)
      invariant a[i + 1..] == old(a[i + 1..])
    {
      InsertingStep(a[..], prefix, x, i, j);
      Swap(a, j, j - 1);
      j := j - 1;
    }
    InsertingDone(a[..], prefix, x, i, j);
  }

  /** After the pass for index i, the first i + 1 entries are sorted. */
  lemma SortingStep(s: seq<TcpService>, c: seq<TcpService>, c': seq<TcpService>, i: int)
    requires 0 <= i < |s| == |c| == |c'|
    requires c[..i] == InsertionSort(s[..i]) && c[i..] == s[i..]
    requires c'[..i + 1] == Insert(c[..i], c[i]) && c'[i + 1..] == c[i + 1..]
    ensures c'[..i + 1] == InsertionSort(s[..i + 1]) && c'[i + 1..] == s[i + 1..]
  {
    assert s[..i + 1][..i] == s[..i];
    assert c[i] == c[i..][0] == s[i];
    assert c[i + 1..] == c[i..][1..];
    assert s[i + 1..] == s[i..][1..];
  }

  /** sort.Stable over tcpServiceByName: a stable sort of a in place. Go's
      insertionSort starts at the second entry; the pass for the first one
      here moves nothing. */
  method SortStable(a: array<TcpService>)
    modifies a
    ensures a[..] == InsertionSort(old(a[..]))
  {
    ghost var s := a[..];
    var i := 0;
    while i < a.Length
      invariant 0 <= i <= a.Length && |s| == a.Length
      invariant a[..i] == InsertionSort(s[..i])
      invariant a[i..] == s[i..]
    {
      ghost var before := a[..];
      InsertAt(a, i);
      SortingStep(s, before, a[..], i);
      i := i + 1;
    }
    assert a[..] == a[..i] && s == s[..i];
  }
}
