/**
 * Iteration order of `std::map`. A `std::map` visits its keys in ascending
 * order of the key type's `operator<`; for `std::string` that is the
 * byte-wise lexicographic order comparing bytes as unsigned values (a proper
 * prefix comes first), and for `std::pair` it compares the first components
 * and then the second. `SortedSeq` is that visiting order as a function of
 * the key set, and `SortKeys` computes it.
 */
module Ordering {
  import opened Bytes

  /** `operator<` on `std::string`. */
  predicate LessBytes(a: bytes, b: bytes)
    decreases |a|
  {
    |b| > 0 && (|a| == 0 || a[0] < b[0] || (a[0] == b[0] && LessBytes(a[1..], b[1..])))
  }

  /** `operator<` on `std::pair<std::string, std::string>`. */
  predicate LessPair(a: (bytes, bytes), b: (bytes, bytes))
  {
    LessBytes(a.0, b.0) || (a.0 == b.0 && LessBytes(a.1, b.1))
  }

  ghost predicate StrictTotalOrder<T(!new)>(lt: (T, T) -> bool)
  {
    && (forall a :: !lt(a, a))
    && (forall a, b, c :: lt(a, b) && lt(b, c) ==> lt(a, c))
    && (forall a, b :: a != b ==> lt(a, b) || lt(b, a))
  }

  lemma {:induction false} LessBytesIrreflexive(a: bytes)
    ensures !LessBytes(a, a)
    decreases |a|
  {
    if |a| > 0 {
      LessBytesIrreflexive(a[1..]);
    }
  }

  lemma {:induction false} LessBytesTransitive(a: bytes, b: bytes, c: bytes)
    requires LessBytes(a, b) && LessBytes(b, c)
    ensures LessBytes(a, c)
    decreases |a|
  {
    if |a| > 0 && a[0] == b[0] && b[0] == c[0] {
      LessBytesTransitive(a[1..], b[1..], c[1..]);
    }
  }

  lemma {:induction false} LessBytesTotal(a: bytes, b: bytes)
    requires a != b
    ensures LessBytes(a, b) || LessBytes(b, a)
    decreases |a|
  {
    if |a| > 0 && |b| > 0 && a[0] == b[0] {
      assert a == [a[0]] + a[1..] && b == [b[0]] + b[1..];
      LessBytesTotal(a[1..], b[1..]);
    }
  }

  lemma LessBytesIsOrder()
    ensures StrictTotalOrder(LessBytes)
  {
    forall a: bytes ensures !LessBytes(a, a) {
      LessBytesIrreflexive(a);
    }
    forall a: bytes, b: bytes, c: bytes | LessBytes(a, b) && LessBytes(b, c)
      ensures LessBytes(a, c)
    {
      LessBytesTransitive(a, b, c);
    }
    forall a: bytes, b: bytes | a != b ensures LessBytes(a, b) || LessBytes(b, a) {
      LessBytesTotal(a, b);
    }
  }

  lemma LessPairIsOrder()
    ensures StrictTotalOrder(LessPair)
  {
    LessBytesIsOrder();
  }

  /** `m` is the least element of `s`. */
  predicate IsLeast<T(==)>(lt: (T, T) -> bool, m: T, s: set<T>)
  {
    m in s && forall x | x in s && x != m :: lt(m, x)
  }

  predicate Ascending<T>(lt: (T, T) -> bool, r: seq<T>)
  {
    forall i, j | 0 <= i < j < |r| :: lt(r[i], r[j])
  }

  lemma {:induction false} LeastExists<T(!new)>(lt: (T, T) -> bool, s: set<T>)
    requires StrictTotalOrder(lt) && s != {}
    ensures exists m :: IsLeast(lt, m, s)
    decreases s
  {
    var x :| x in s;
    if s != {x} {
      LeastExists(lt, s - {x});
      var m :| IsLeast(lt, m, s - {x});
      if lt(x, m) {
        forall y | y in s && y != x ensures lt(x, y) {
          if y != m {
            assert lt(m, y);
          }
        }
        assert IsLeast(lt, x, s);
      } else {
        assert IsLeast(lt, m, s);
      }
    } else {
      assert IsLeast(lt, x, s);
    }
  }

  lemma LeastUnique<T(!new)>(lt: (T, T) -> bool, m1: T, m2: T, s: set<T>)
    requires StrictTotalOrder(lt) && IsLeast(lt, m1, s) && IsLeast(lt, m2, s)
    ensures m1 == m2
  {
  }

  /** The keys of a `std::map` whose key set is `s`, in visiting order. */
  ghost function SortedSeq<T(!new)>(lt: (T, T) -> bool, s: set<T>): seq<T>
    requires StrictTotalOrder(lt)
    decreases s
  {
    if s == {} then []
    else
      LeastExists(lt, s);
      var m :| IsLeast(lt, m, s);
      [m] + SortedSeq(lt, s - {m})
  }

  /** The visiting order lists every key exactly once. */
  lemma {:induction false} SortedSeqMembers<T(!new)>(lt: (T, T) -> bool, s: set<T>)
    requires StrictTotalOrder(lt)
    ensures |SortedSeq(lt, s)| == |s|
    ensures forall x :: x in SortedSeq(lt, s) <==> x in s
    decreases s
  {
    if s != {} {
      LeastExists(lt, s);
      var m :| IsLeast(lt, m, s);
      SortedSeqUnfold(lt, s, m);
      SortedSeqMembers(lt, s - {m});
    }
  }

  lemma SortedSeqUnfold<T(!new)>(lt: (T, T) -> bool, s: set<T>, m: T)
    requires StrictTotalOrder(lt) && IsLeast(lt, m, s)
    ensures SortedSeq(lt, s) == [m] + SortedSeq(lt, s - {m})
  {
    var r := SortedSeq(lt, s);
    LeastUnique(lt, m, r[0], s);
  }

  lemma {:induction false} SortedSeqAscending<T(!new)>(lt: (T, T) -> bool, s: set<T>)
    requires StrictTotalOrder(lt)
    ensures Ascending(lt, SortedSeq(lt, s))
    decreases s
  {
    if s != {} {
      LeastExists(lt, s);
      var m :| IsLeast(lt, m, s);
      SortedSeqUnfold(lt, s, m);
      SortedSeqAscending(lt, s - {m});
      SortedSeqMembers(lt, s - {m});
      var r := SortedSeq(lt, s);
      forall i, j | 0 <= i < j < |r| ensures lt(r[i], r[j]) {
        if i == 0 {
          assert r[j] in SortedSeq(lt, s - {m});
        } else {
          assert r[i] == SortedSeq(lt, s - {m})[i - 1];
        }
      }
    }
  }

  /** Walks the key set least-first, as a `std::map` iterator does. */
  method SortKeys<T(==,!new)>(lt: (T, T) -> bool, s: set<T>) returns (r: seq<T>)
    requires StrictTotalOrder(lt)
    ensures r == SortedSeq(lt, s)
  {
    r := [];
    var rest := s;
    while rest != {}
      invariant SortedSeq(lt, s) == r + SortedSeq(lt, rest)
      decreases rest
    {
      LeastExists(lt, rest);
      var m :| m in rest && IsLeast(lt, m, rest);
      SortedSeqUnfold(lt, rest, m);
      assert r + SortedSeq(lt, rest) == (r + [m]) + SortedSeq(lt, rest - {m});
      r := r + [m];
      rest := rest - {m};
    }
  }

  /** The visiting order of a `std::map<std::string, _>` whose key set is `s`. */
  ghost function SortedBytes(s: set<bytes>): seq<bytes>
  {
    LessBytesIsOrder();
    SortedSeq(LessBytes, s)
  }

  /** Each key is visited exactly once, in ascending order. */
  lemma SortedBytesSpec(s: set<bytes>)
    ensures |SortedBytes(s)| == |s|
    ensures forall x :: x in SortedBytes(s) <==> x in s
    ensures Ascending(LessBytes, SortedBytes(s))
  {
    LessBytesIsOrder();
    SortedSeqMembers(LessBytes, s);
    SortedSeqAscending(LessBytes, s);
  }

  /** `SortedBytesSpec` for one value `x`. */
  lemma SortedBytesHas(s: set<bytes>, x: bytes)
    ensures x in SortedBytes(s) <==> x in s
  {
    SortedBytesSpec(s);
  }

  /** Iterates a `std::map<std::string, _>` key set. */
  method SortBytes(s: set<bytes>) returns (r: seq<bytes>)
    ensures r == SortedBytes(s)
  {
    LessBytesIsOrder();
    r := SortKeys(LessBytes, s);
  }

  /** The visiting order of a `std::map<std::pair<std::string, std::string>, _>` whose key set is `s`. */
  ghost function SortedPairs(s: set<(bytes, bytes)>): seq<(bytes, bytes)>
  {
    LessPairIsOrder();
    SortedSeq(LessPair, s)
  }

  /** Each key pair is visited exactly once, in ascending order. */
  lemma SortedPairsSpec(s: set<(bytes, bytes)>)
    ensures |SortedPairs(s)| == |s|
    ensures forall x :: x in SortedPairs(s) <==> x in s
    ensures Ascending(LessPair, SortedPairs(s))
  {
    LessPairIsOrder();
    SortedSeqMembers(LessPair, s);
    SortedSeqAscending(LessPair, s);
  }

  /** No key pair is visited twice. */
  lemma SortedPairsDistinct(s: set<(bytes, bytes)>)
    ensures forall i, j | 0 <= i < j < |SortedPairs(s)| :: SortedPairs(s)[i] != SortedPairs(s)[j]
  {
    SortedPairsSpec(s);
    var r := SortedPairs(s);
    forall i, j | 0 <= i < j < |r|
      ensures r[i] != r[j]
    {
      assert LessPair(r[i], r[j]);
      LessBytesIrreflexive(r[i].0);
      LessBytesIrreflexive(r[i].1);
    }
  }

  /** Iterates a `std::map` keyed by pairs of strings. */
  method SortPairs(s: set<(bytes, bytes)>) returns (r: seq<(bytes, bytes)>)
    ensures r == SortedPairs(s)
  {
    LessPairIsOrder();
    r := SortKeys(LessPair, s);
  }
}
