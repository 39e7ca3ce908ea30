/** Python's built-in stable sort, specified by an insertion sort, and the string order it
    compares with. */
module Sorting {
  import opened Basics

  /** `le(a, b)` says that the key of `a` is at most the key of `b`. */
  ghost predicate Preorder<T(!new)>(le: (T, T) -> bool) {
    && (forall a, b :: le(a, b) || le(b, a))
    && (forall a, b, c :: le(a, b) && le(b, c) ==> le(a, c))
  }

  predicate Ordered<T>(s: seq<T>, le: (T, T) -> bool) {
    forall i, j | 0 <= i < j < |s| :: le(s[i], s[j])
  }

  function Insert<T>(x: T, s: seq<T>, le: (T, T) -> bool): seq<T> {
    if s == [] then [x] else if le(x, s[0]) then [x] + s else [s[0]] + Insert(x, s[1..], le)
  }

  function Sort<T>(s: seq<T>, le: (T, T) -> bool): seq<T> {
    if s == [] then [] else Insert(s[0], Sort(s[1..], le), le)
  }

  lemma {:induction false} InsertElements<T>(x: T, s: seq<T>, le: (T, T) -> bool)
    ensures multiset(Insert(x, s, le)) == multiset{x} + multiset(s)
  {
    if s == [] || le(x, s[0]) {
    } else {
      InsertElements(x, s[1..], le);
      assert s == [s[0]] + s[1..];
    }
  }

  lemma OrderedCons<T>(x: T, s: seq<T>, le: (T, T) -> bool)
    requires Ordered(s, le) && forall y | y in s :: le(x, y)
    ensures Ordered([x] + s, le)
  {
  }

  lemma {:induction false} InsertKeeps<T(!new)>(x: T, s: seq<T>, le: (T, T) -> bool)
    requires Preorder(le) && Ordered(s, le)
    ensures Ordered(Insert(x, s, le), le)
  {
    if s == [] {
    } else if le(x, s[0]) {
      forall y | y in s ensures le(x, y) {
        HeadIsLeast(s, y, le);
      }
      OrderedCons(x, s, le);
    } else {
      var r := Insert(x, s[1..], le);
      InsertKeeps(x, s[1..], le);
      InsertElements(x, s[1..], le);
      forall y | y in r ensures le(s[0], y) {
        assert y in multiset(r);
        assert y == x || y in s[1..];
      }
      OrderedCons(s[0], r, le);
    }
  }

  /** Sorting orders the elements and neither drops nor invents one. */
  lemma {:induction false} SortSorts<T(!new)>(s: seq<T>, le: (T, T) -> bool)
    requires Preorder(le)
    ensures Ordered(Sort(s, le), le)
    ensures multiset(Sort(s, le)) == multiset(s)
    ensures |Sort(s, le)| == |s|
    ensures forall x :: x in Sort(s, le) <==> x in s
  {
    if s != [] {
      SortSorts(s[1..], le);
      InsertKeeps(s[0], Sort(s[1..], le), le);
      InsertElements(s[0], Sort(s[1..], le), le);
      assert s == [s[0]] + s[1..];
    }
    assert |multiset(Sort(s, le))| == |multiset(s)|;
    assert forall x :: x in Sort(s, le) <==> x in multiset(Sort(s, le));
  }

  /** No two different elements of `s` tie. */
  ghost predicate NoTies<T(!new)>(s: seq<T>, le: (T, T) -> bool) {
    forall x, y | x in s && y in s && le(x, y) && le(y, x) :: x == y
  }

  lemma HeadIsLeast<T(!new)>(a: seq<T>, x: T, le: (T, T) -> bool)
    requires Ordered(a, le) && x in a
    ensures x == a[0] || le(a[0], x)
  {
  }

  lemma TailElements<T>(s: seq<T>)
    requires s != []
    ensures s == [s[0]] + s[1..] && multiset(s[1..]) == multiset(s) - multiset{s[0]}
    ensures forall x :: x in s[1..] ==> x in s
  {
    assert s == [s[0]] + s[1..];
  }

  lemma NoTiesTail<T(!new)>(s: seq<T>, le: (T, T) -> bool)
    requires s != [] && NoTies(s, le) && Ordered(s, le)
    ensures NoTies(s[1..], le) && Ordered(s[1..], le)
  {
    TailElements(s);
  }

  lemma HeadsAgree<T(!new)>(a: seq<T>, b: seq<T>, le: (T, T) -> bool)
    requires a != [] && b != [] && a[0] in b && b[0] in a
    requires Ordered(a, le) && Ordered(b, le) && NoTies(a, le)
    ensures a[0] == b[0]
  {
    HeadIsLeast(a, b[0], le);
    HeadIsLeast(b, a[0], le);
  }

  /** Two orderings of the same elements agree when no two elements tie. */
  lemma {:induction false} OrderedIsUnique<T(!new)>(a: seq<T>, b: seq<T>, le: (T, T) -> bool)
    requires multiset(a) == multiset(b)
    requires Ordered(a, le) && Ordered(b, le) && NoTies(a, le)
    ensures a == b
  {
    assert |multiset(a)| == |a| && |multiset(b)| == |b|;
    if a != [] {
      assert a[0] in multiset(b) && b[0] in multiset(a);
      HeadsAgree(a, b, le);
      TailElements(a);
      TailElements(b);
      NoTiesTail(a, le);
      assert Ordered(b[1..], le);
      OrderedIsUnique(a[1..], b[1..], le);
    }
  }

  // ---------- Rearrangements ----------

  function RemoveAt<T>(s: seq<T>, i: nat): seq<T>
    requires i < |s|
  {
    s[..i] + s[i + 1..]
  }

  /** The last element of one rearrangement stands somewhere in the other; without it, what
      is left of both is again a rearrangement. */
  lemma MatchLast<T>(a: seq<T>, b: seq<T>) returns (i: nat)
    requires multiset(a) == multiset(b) && a != []
    ensures i < |b| && b[i] == a[|a| - 1] && multiset(a[..|a| - 1]) == multiset(RemoveAt(b, i))
  {
    var n := |a| - 1;
    assert a == a[..n] + [a[n]];
    assert a[n] in multiset(b);
    i :| 0 <= i < |b| && b[i] == a[n];
    assert b == b[..i] + [b[i]] + b[i + 1..];
    assert multiset(RemoveAt(b, i)) == multiset(b) - multiset{b[i]};
    assert multiset(a[..n]) == multiset(a) - multiset{a[n]};
  }

  ghost predicate Distinct<T(!new)>(s: seq<T>) {
    forall i, j | 0 <= i < j < |s| :: s[i] != s[j]
  }

  /** Rearranging distinct elements keeps them distinct. */
  lemma DistinctByCount<T(!new)>(s: seq<T>, r: seq<T>)
    requires Distinct(s) && multiset(r) == multiset(s)
    ensures Distinct(r)
  {
    forall i, j | 0 <= i < j < |r| ensures r[i] != r[j] {
      if r[i] == r[j] {
        assert r == r[..i] + [r[i]] + r[i + 1..j] + [r[j]] + r[j + 1..];
        assert multiset(r)[r[i]] >= 2;
        OnceInDistinct(s, r[i]);
        assert false;
      }
    }
  }

  lemma {:induction false} OnceInDistinct<T(!new)>(s: seq<T>, x: T)
    requires Distinct(s)
    ensures multiset(s)[x] <= 1
  {
    if s != [] {
      var n := |s| - 1;
      OnceInDistinct(s[..n], x);
      assert s == s[..n] + [s[n]];
      if x == s[n] {
        assert x !in s[..n];
      }
    }
  }

  /** What each element contributes, in order. */
  function Collect<A, B>(f: A -> seq<B>, s: seq<A>): seq<B> {
    if s == [] then [] else Collect(f, s[..|s| - 1]) + f(s[|s| - 1])
  }

  lemma CollectSnoc<A, B>(f: A -> seq<B>, s: seq<A>, x: A)
    ensures Collect(f, s + [x]) == Collect(f, s) + f(x)
  {
    assert (s + [x])[..|s|] == s;
  }

  lemma {:induction false} CollectTakeOut<A, B>(f: A -> seq<B>, s: seq<A>, i: nat)
    requires i < |s|
    ensures multiset(Collect(f, s)) == multiset(Collect(f, RemoveAt(s, i))) + multiset(f(s[i]))
  {
    var n := |s| - 1;
    var rest := RemoveAt(s, i);
    if i == n {
      assert rest == s[..n];
    } else {
      CollectTakeOut(f, s[..n], i);
      assert rest == RemoveAt(s[..n], i) + [s[n]];
      CollectSnoc(f, RemoveAt(s[..n], i), s[n]);
      assert multiset(Collect(f, s)) == multiset(Collect(f, s[..n])) + multiset(f(s[n]));
    }
  }

  /** Rearranging the elements rearranges what they contribute. */
  lemma {:induction false} CollectIgnoresOrder<A, B>(f: A -> seq<B>, a: seq<A>, b: seq<A>)
    requires multiset(a) == multiset(b)
    ensures multiset(Collect(f, a)) == multiset(Collect(f, b))
    decreases |a|
  {
    assert |multiset(a)| == |a| && |multiset(b)| == |b|;
    if a != [] {
      var i := MatchLast(a, b);
      CollectIgnoresOrder(f, a[..|a| - 1], RemoveAt(b, i));
      CollectTakeOut(f, b, i);
    }
  }

  // ---------- Stability ----------

  /** The element, if it ties with `e`. */
  function TieOf<T>(x: T, e: T, le: (T, T) -> bool): seq<T> {
    if le(x, e) && le(e, x) then [x] else []
  }

  /** The elements that tie with `e`, in the order they stand in. */
  function TiesWith<T>(s: seq<T>, e: T, le: (T, T) -> bool): seq<T> {
    if s == [] then [] else TieOf(s[0], e, le) + TiesWith(s[1..], e, le)
  }

  lemma TiesCons<T>(x: T, s: seq<T>, e: T, le: (T, T) -> bool)
    ensures TiesWith([x] + s, e, le) == TieOf(x, e, le) + TiesWith(s, e, le)
  {
    assert ([x] + s)[1..] == s;
  }

  lemma UnequalDoNotBothTie<T(!new)>(x: T, y: T, e: T, le: (T, T) -> bool)
    requires Preorder(le) && !le(x, y)
    ensures TieOf(x, e, le) == [] || TieOf(y, e, le) == []
  {
    assert !(le(x, e) && le(e, y));
  }

  lemma {:induction false} InsertStable<T(!new)>(x: T, s: seq<T>, e: T, le: (T, T) -> bool)
    requires Preorder(le)
    ensures TiesWith(Insert(x, s, le), e, le) == TieOf(x, e, le) + TiesWith(s, e, le)
  {
    if s == [] || le(x, s[0]) {
      TiesCons(x, s, e, le);
    } else {
      var a, b, rest := TieOf(x, e, le), TieOf(s[0], e, le), TiesWith(s[1..], e, le);
      InsertStable(x, s[1..], e, le);
      TiesCons(s[0], Insert(x, s[1..], le), e, le);
      UnequalDoNotBothTie(x, s[0], e, le);
      assert b + (a + rest) == a + (b + rest);
    }
  }

  /** Elements that tie keep the order in which they came. */
  lemma {:induction false} SortStable<T(!new)>(s: seq<T>, e: T, le: (T, T) -> bool)
    requires Preorder(le)
    ensures TiesWith(Sort(s, le), e, le) == TiesWith(s, e, le)
  {
    if s != [] {
      SortStable(s[1..], e, le);
      InsertStable(s[0], Sort(s[1..], le), e, le);
    }
  }

  // ---------- String comparison ----------

  /** `a <= b` for Python strings: lexicographic by code point. */
  predicate StrLe(a: string, b: string) {
    a == "" || (b != "" && (a[0] < b[0] || (a[0] == b[0] && StrLe(a[1..], b[1..]))))
  }

  /** From a common prefix on, `a` ends or has the smaller character. */
  predicate DiffersAt(a: string, b: string, n: nat) {
    && n <= |a| && n <= |b| && a[..n] == b[..n]
    && (n == |a| || (n < |b| && a[n] < b[n]))
  }

  lemma {:induction false} StrLeExactly(a: string, b: string)
    ensures StrLe(a, b) <==> exists n: nat :: DiffersAt(a, b, n)
  {
    if a == "" {
      assert DiffersAt(a, b, 0);
    } else if b != "" {
      StrLeExactly(a[1..], b[1..]);
      if a[0] < b[0] {
        assert DiffersAt(a, b, 0);
      } else if StrLe(a, b) {
        var n: nat :| DiffersAt(a[1..], b[1..], n);
        assert a[..n + 1] == [a[0]] + a[1..][..n] && b[..n + 1] == [b[0]] + b[1..][..n];
        assert DiffersAt(a, b, n + 1);
      } else if n: nat :| DiffersAt(a, b, n) {
        assert n > 0;
        assert a[..n] == b[..n] && a[0] == a[..n][0] && b[0] == b[..n][0];
        assert a[1..][..n - 1] == a[..n][1..] && b[1..][..n - 1] == b[..n][1..];
        assert DiffersAt(a[1..], b[1..], n - 1);
      }
    } else {
      assert forall n: nat :: !DiffersAt(a, b, n);
    }
  }

  lemma {:induction false} StrLeTotal(a: string, b: string)
    ensures StrLe(a, b) || StrLe(b, a)
    ensures StrLe(a, b) && StrLe(b, a) ==> a == b
  {
    if a != "" && b != "" {
      StrLeTotal(a[1..], b[1..]);
      assert a == [a[0]] + a[1..] && b == [b[0]] + b[1..];
    }
  }

  lemma {:induction false} StrLeTransitive(a: string, b: string, c: string)
    requires StrLe(a, b) && StrLe(b, c)
    ensures StrLe(a, c)
  {
    if a != "" && a[0] == b[0] && b[0] == c[0] {
      StrLeTransitive(a[1..], b[1..], c[1..]);
    }
  }
}
