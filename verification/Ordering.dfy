/** Python's string order, `sorted` and first occurrences, as the other modules use them. */
module Ordering {

  ghost predicate NoRepeats<T>(xs: seq<T>) {
    forall i, j | 0 <= i < j < |xs| :: xs[i] != xs[j]
  }

  /** First occurrences, in order: the key order of a dict. */
  function Firsts<T(==, !new)>(xs: seq<T>): (r: seq<T>)
    ensures forall x :: x in r <==> x in xs
  {
    if xs == [] then []
    else
      var init := Firsts(xs[..|xs| - 1]);
      if xs[|xs| - 1] in init then init else init + [xs[|xs| - 1]]
  }

  lemma {:induction false} FirstsDistinct<T(!new)>(xs: seq<T>)
    ensures NoRepeats(Firsts(xs))
  {
    if xs != [] {
      FirstsDistinct(xs[..|xs| - 1]);
    }
  }

  /** Lexicographic order on code points: Python's `<=` on `str`. */
  predicate LexLe(a: string, b: string) {
    if a == "" then true
    else if b == "" then false
    else a[0] < b[0] || (a[0] == b[0] && LexLe(a[1..], b[1..]))
  }

  ghost predicate SmallerAt(a: string, b: string, i: int) {
    0 <= i < |a| && i < |b| && a[..i] == b[..i] && a[i] < b[i]
  }

  /** The same order said at once: a prefix comes first, else the string with the smaller code point where the two
      first differ. */
  ghost predicate StringLe(a: string, b: string) {
    a <= b || exists i :: SmallerAt(a, b, i)
  }

  lemma {:induction false} LexLeIff(a: string, b: string)
    ensures LexLe(a, b) <==> StringLe(a, b)
  {
    if a != "" && b != "" {
      if a[0] < b[0] {
        assert SmallerAt(a, b, 0);
      } else if a[0] == b[0] {
        LexLeIff(a[1..], b[1..]);
        assert a == [a[0]] + a[1..] && b == [b[0]] + b[1..];
        assert a <= b <==> a[1..] <= b[1..];
        if i :| SmallerAt(a[1..], b[1..], i) {
          assert a[..i + 1] == [a[0]] + a[1..][..i] && b[..i + 1] == [b[0]] + b[1..][..i];
          assert SmallerAt(a, b, i + 1);
        }
        if i :| SmallerAt(a, b, i) {
          assert a[1..][..i - 1] == a[..i][1..] && b[1..][..i - 1] == b[..i][1..];
          assert SmallerAt(a[1..], b[1..], i - 1);
        }
      }
    }
  }

  predicate IntLe(a: int, b: int) {
    a <= b
  }

  ghost predicate TotalOrder<T(!new)>(le: (T, T) -> bool) {
    && (forall x, y :: le(x, y) || le(y, x))
    && (forall x, y :: le(x, y) && le(y, x) ==> x == y)
    && (forall x, y, z :: le(x, y) && le(y, z) ==> le(x, z))
  }

  lemma {:induction false} LexTotal(a: string, b: string)
    ensures LexLe(a, b) || LexLe(b, a)
    ensures LexLe(a, b) && LexLe(b, a) ==> a == b
  {
    if a != "" && b != "" && a[0] == b[0] {
      LexTotal(a[1..], b[1..]);
      assert a == [a[0]] + a[1..] && b == [b[0]] + b[1..];
    }
  }

  lemma {:induction false} LexTransitive(a: string, b: string, c: string)
    requires LexLe(a, b) && LexLe(b, c)
    ensures LexLe(a, c)
  {
    if a != "" && b != "" && c != "" && a[0] == b[0] == c[0] {
      LexTransitive(a[1..], b[1..], c[1..]);
    }
  }

  lemma LexIsTotalOrder()
    ensures TotalOrder(LexLe)
  {
    forall x, y ensures (LexLe(x, y) || LexLe(y, x)) && (LexLe(x, y) && LexLe(y, x) ==> x == y) {
      LexTotal(x, y);
    }
    forall x, y, z | LexLe(x, y) && LexLe(y, z) ensures LexLe(x, z) {
      LexTransitive(x, y, z);
    }
  }

  lemma StringOrder()
    ensures forall a, b :: LexLe(a, b) <==> StringLe(a, b)
  {
    forall a, b ensures LexLe(a, b) <==> StringLe(a, b) {
      LexLeIff(a, b);
    }
  }

  lemma StringLeTotal(a: string, b: string)
    ensures StringLe(a, b) || StringLe(b, a)
    ensures StringLe(a, b) && StringLe(b, a) ==> a == b
  {
    LexLeIff(a, b);
    LexLeIff(b, a);
    LexTotal(a, b);
  }

  lemma StringLeIsTotalOrder()
    ensures TotalOrder(StringLe)
  {
    forall x, y ensures (StringLe(x, y) || StringLe(y, x)) && (StringLe(x, y) && StringLe(y, x) ==> x == y) {
      StringLeTotal(x, y);
    }
    forall x, y, z | StringLe(x, y) && StringLe(y, z) ensures StringLe(x, z) {
      LexLeIff(x, y);
      LexLeIff(y, z);
      LexLeIff(x, z);
      LexTransitive(x, y, z);
    }
  }

  /** Every non-empty finite set has a least element. */
  lemma {:induction false} LeastExists<T(!new)>(le: (T, T) -> bool, s: set<T>)
    requires TotalOrder(le) && s != {}
    ensures exists x :: x in s && forall y | y in s :: le(x, y)
  {
    var x :| x in s;
    var rest := s - {x};
    if rest != {} {
      LeastExists(le, rest);
      var m :| m in rest && forall y | y in rest :: le(m, y);
      var least := if le(x, m) then x else m;
      assert forall y | y in s :: y == x || y in rest;
      assert least in s && forall y | y in s :: le(least, y);
    } else {
      assert s == {x};
      assert le(x, x);
    }
  }

  ghost predicate StrictlySorted<T(!new)>(le: (T, T) -> bool, r: seq<T>) {
    forall i, j | 0 <= i < j < |r| :: le(r[i], r[j]) && r[i] != r[j]
  }

  function Least<T(!new, ==)>(le: (T, T) -> bool, s: set<T>): (x: T)
    requires TotalOrder(le) && s != {}
    ensures x in s && forall y | y in s :: le(x, y)
  {
    LeastExists(le, s);
    var x :| x in s && forall y | y in s :: le(x, y);
    x
  }

  /** `sorted(...)` over the distinct elements of a set. */
  function SortedSet<T(!new, ==)>(le: (T, T) -> bool, s: set<T>): (r: seq<T>)
    requires TotalOrder(le)
    ensures |r| == |s|
    ensures forall x :: x in r <==> x in s
  {
    if s == {} then []
    else
      var x := Least(le, s);
      [x] + SortedSet(le, s - {x})
  }

  lemma {:induction false} SortedSetSorted<T(!new)>(le: (T, T) -> bool, s: set<T>)
    requires TotalOrder(le)
    ensures StrictlySorted(le, SortedSet(le, s))
  {
    if s != {} {
      var x := Least(le, s);
      var rest := SortedSet(le, s - {x});
      SortedSetSorted(le, s - {x});
      assert SortedSet(le, s) == [x] + rest;
      forall j | 0 <= j < |rest| ensures le(x, rest[j]) && x != rest[j] {
        assert rest[j] in rest;
      }
    }
  }

  /** `sorted(...)` of strings: ascending in Python's order. */
  lemma StringsSorted(keys: set<string>)
    requires TotalOrder(LexLe)
    ensures StrictlySorted(StringLe, SortedSet(LexLe, keys))
  {
    SortedSetSorted(LexLe, keys);
    var r := SortedSet(LexLe, keys);
    forall i, j | 0 <= i < j < |r| ensures StringLe(r[i], r[j]) {
      LexLeIff(r[i], r[j]);
    }
  }

  lemma HeadIsLeast<T(!new)>(le: (T, T) -> bool, r: seq<T>, x: T)
    requires TotalOrder(le) && StrictlySorted(le, r) && x in r
    ensures le(r[0], x)
    ensures x != r[0] ==> x in r[1..]
    ensures r[0] !in r[1..]
  {
    var i :| 0 <= i < |r| && r[i] == x;
    if i > 0 {
      assert r[1..][i - 1] == x;
    }
    assert le(r[0], r[0]);
  }

  /** Canonicity: two strictly ordered lists of the same elements are one list. */
  lemma {:induction false} StrictlySortedUnique<T(!new)>(le: (T, T) -> bool, a: seq<T>, b: seq<T>)
    requires TotalOrder(le) && StrictlySorted(le, a) && StrictlySorted(le, b)
    requires forall x :: x in a <==> x in b
    ensures a == b
  {
    assert (a != [] ==> a[0] in a) && (b != [] ==> b[0] in b);
    if a != [] {
      HeadIsLeast(le, a, b[0]);
      HeadIsLeast(le, b, a[0]);
      assert a[0] == b[0];
      forall x ensures x in a[1..] <==> x in b[1..] {
        if x in a[1..] { assert x in a; HeadIsLeast(le, a, x); HeadIsLeast(le, b, x); }
        if x in b[1..] { assert x in b; HeadIsLeast(le, b, x); HeadIsLeast(le, a, x); }
      }
      StrictlySortedUnique(le, a[1..], b[1..]);
      assert a == [a[0]] + a[1..] && b == [b[0]] + b[1..];
    }
  }
}
