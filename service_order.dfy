/** The backend record of a TCP proxy and the ordering tcpServiceByName
    imposes on it (internal/envoy/listener.go, lines 125-134). */
module ServiceOrder {

  /** One weighted backend, a dag.TCPService. A weight of 0 means "not
      given". The field id stands for everything else a dag.TCPService
      carries (its namespace, its port, the identity of the pointer that
      is sorted): the comparator never looks at it, which is what makes
      the stability of the sort observable. */
  datatype TcpService = TcpService(name: string, weight: nat, id: nat)

  /** Go's `<` on strings: lexicographic, a proper prefix first. Go compares
      the UTF-8 bytes; for valid text that is the same order as comparing
      code points, which is what comparing Dafny chars does. */
  predicate StrLess(a: string, b: string)
  {
    if |a| == 0 then |b| != 0
    else if |b| == 0 then false
    else if a[0] != b[0] then a[0] < b[0]
    else StrLess(a[1..], b[1..])
  }

  lemma {:induction false} StrLessIrreflexive(a: string)
    ensures !StrLess(a, a)
  {
    if |a| != 0 {
      StrLessIrreflexive(a[1..]);
    }
  }

  lemma {:induction false} StrLessTransitive(a: string, b: string, c: string)
    requires StrLess(a, b) && StrLess(b, c)
    ensures StrLess(a, c)
  {
    if |a| != 0 && a[0] == b[0] && b[0] == c[0] {
      StrLessTransitive(a[1..], b[1..], c[1..]);
    }
  }

  lemma StrLessAsymmetric(a: string, b: string)
    requires StrLess(a, b)
    ensures !StrLess(b, a)
  {
    if StrLess(b, a) {
      StrLessTransitive(a, b, a);
      StrLessIrreflexive(a);
    }
  }

  /** Any two different strings are ordered one way or the other. */
  lemma {:induction false} StrLessTotal(a: string, b: string)
    requires a != b
    ensures StrLess(a, b) || StrLess(b, a)
  {
    if |a| != 0 && |b| != 0 && a[0] == b[0] {
      assert a == [a[0]] + a[1..] && b == [b[0]] + b[1..];
      StrLessTotal(a[1..], b[1..]);
    }
  }

  /** tcpServiceByName.Less: by name ascending, equal names by weight
      ascending. */
  predicate Less(x: TcpService, y: TcpService)
  {
    if x.name == y.name then x.weight < y.weight else StrLess(x.name, y.name)
  }

  /** The sort key Less compares: name and weight. */
  predicate SameKey(x: TcpService, y: TcpService)
  {
    x.name == y.name && x.weight == y.weight
  }

  lemma LessAsymmetric(x: TcpService, y: TcpService)
    requires Less(x, y)
    ensures !Less(y, x)
  {
    if x.name != y.name {
      StrLessAsymmetric(x.name, y.name);
    }
  }

  lemma LessTransitive(x: TcpService, y: TcpService, z: TcpService)
    requires Less(x, y) && Less(y, z)
    ensures Less(x, z)
  {
    if x.name != y.name && y.name != z.name {
      StrLessTransitive(x.name, y.name, z.name);
      if x.name == z.name {
        StrLessAsymmetric(x.name, y.name);
      }
    }
  }

  /** Two services Less cannot tell apart are exactly those with the same
      key; any two others are ordered one way or the other. */
  lemma LessTrichotomy(x: TcpService, y: TcpService)
    ensures !Less(x, y) && !Less(y, x) <==> SameKey(x, y)
  {
    if x.name != y.name {
      StrLessTotal(x.name, y.name);
    }
  }

  /** Less is a strict weak ordering, which is what sort.Stable demands of
      its comparator: irreflexive, transitive, and "neither is less" is
      the equivalence "same name and weight". */
  lemma LessIsStrictWeakOrder(x: TcpService, y: TcpService, z: TcpService)
    ensures !Less(x, x)
    ensures Less(x, y) ==> !Less(y, x)
    ensures Less(x, y) && Less(y, z) ==> Less(x, z)
    ensures !Less(x, y) && !Less(y, x) <==> SameKey(x, y)
  {
    if Less(x, y) {
      LessAsymmetric(x, y);
      if Less(y, z) {
        LessTransitive(x, y, z);
      }
    }
    LessTrichotomy(x, y);
  }

  /** "Not less" is transitive too: a chain of non-descending steps does
      not descend. */
  lemma NotLessTransitive(x: TcpService, y: TcpService, z: TcpService)
    requires !Less(y, x) && !Less(z, y)
    ensures !Less(z, x)
  {
    LessTrichotomy(x, y);
    if Less(z, x) && Less(x, y) {
      LessTransitive(z, x, y);
    }
  }

  /** tcpServiceByName.Swap: exchanges the entries at i and j. */
  method Swap(a: array<TcpService>, i: int, j: int)
    requires 0 <= i < a.Length && 0 <= j < a.Length
    modifies a
    ensures a[..] == old(a[..])[i := old(a[j])][j := old(a[i])]
  {
    a[i], a[j] := a[j], a[i];
  }
}
