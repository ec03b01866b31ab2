/** Python's `sorted` on a set: a strictly increasing list with the same members, of which there is only one. */
module Sorting {

  type Order<!T> = (T, T) -> bool

  ghost predicate StrictTotal<T(!new)>(less: Order<T>) {
    && (forall x :: !less(x, x))
    && (forall x, y, z :: less(x, y) && less(y, z) ==> less(x, z))
    && forall x, y :: x != y ==> less(x, y) || less(y, x)
  }

  ghost predicate Sorted<T>(less: Order<T>, s: seq<T>) {
    forall i, j :: 0 <= i < j < |s| ==> less(s[i], s[j])
  }

  ghost predicate Lists<T(!new)>(less: Order<T>, s: seq<T>, members: set<T>) {
    Sorted(less, s) && forall x :: x in s <==> x in members
  }

  /** A set has one sorted list. */
  lemma {:induction false} SortedUnique<T(!new)>(less: Order<T>, a: seq<T>, b: seq<T>, members: set<T>)
    requires StrictTotal(less) && Lists(less, a, members) && Lists(less, b, members)
    ensures a == b
  {
    EmptyList(less, a, members);
    EmptyList(less, b, members);
    if a != [] {
      FirstIsLeast(less, a, members, b[0]);
      FirstIsLeast(less, b, members, a[0]);
      TailLists(less, a, members);
      TailLists(less, b, members);
      SortedUnique(less, a[1..], b[1..], members - {a[0]});
      assert a == [a[0]] + a[1..] && b == [b[0]] + b[1..];
    }
  }

  lemma EmptyList<T(!new)>(less: Order<T>, a: seq<T>, members: set<T>)
    requires Lists(less, a, members)
    ensures a == [] <==> members == {}
  {
    if a != [] {
      assert a[0] in members;
    } else {
      assert forall x :: x in members ==> x in a;
    }
  }

  lemma FirstIsLeast<T(!new)>(less: Order<T>, a: seq<T>, members: set<T>, x: T)
    requires Lists(less, a, members) && a != [] && x in members
    ensures x == a[0] || less(a[0], x)
  {
    var i :| 0 <= i < |a| && a[i] == x;
  }

  lemma TailLists<T(!new)>(less: Order<T>, a: seq<T>, members: set<T>)
    requires StrictTotal(less) && Lists(less, a, members) && a != []
    ensures Lists(less, a[1..], members - {a[0]})
  {
    forall x
      ensures x in a[1..] <==> x in members - {a[0]}
    {
      if x in a[1..] {
        var i :| 0 <= i < |a[1..]| && a[1..][i] == x;
        assert less(a[0], a[i + 1]);
      }
      if x in members - {a[0]} {
        assert x in a && a == [a[0]] + a[1..];
      }
    }
  }

  function Insert<T(==)>(less: Order<T>, s: seq<T>, x: T): seq<T> {
    if s == [] || less(x, s[0]) then [x] + s else [s[0]] + Insert(less, s[1..], x)
  }

  lemma {:induction false} InsertLists<T(!new)>(less: Order<T>, s: seq<T>, members: set<T>, x: T)
    requires StrictTotal(less) && Lists(less, s, members) && x !in members
    ensures Lists(less, Insert(less, s, x), members + {x})
  {
    if s != [] && !less(x, s[0]) {
      TailLists(less, s, members);
      assert s[0] in s;
      InsertLists(less, s[1..], members - {s[0]}, x);
      var t := Insert(less, s[1..], x);
      forall y | y in t
        ensures less(s[0], y)
      {
        if y != x {
          FirstIsLeast(less, s, members, y);
        }
      }
      Prepended(less, s[0], t, members - {s[0]} + {x});
      assert members - {s[0]} + {x} + {s[0]} == members + {x};
    } else {
      forall y | y in s
        ensures less(x, y)
      {
        FirstIsLeast(less, s, members, y);
      }
      Prepended(less, x, s, members);
    }
  }

  lemma Prepended<T(!new)>(less: Order<T>, x: T, s: seq<T>, members: set<T>)
    requires Lists(less, s, members) && forall y :: y in s ==> less(x, y)
    ensures Lists(less, [x] + s, members + {x})
  {
  }

  method Sort<T(==, !new)>(less: Order<T>, members: set<T>) returns (s: seq<T>)
    requires StrictTotal(less)
    ensures Lists(less, s, members)
  {
    s := [];
    var todo, done := members, {};
    while todo != {}
      invariant todo + done == members && todo !! done
      invariant Lists(less, s, done)
      decreases todo
    {
      var x :| x in todo;
      InsertLists(less, s, done, x);
      s := Insert(less, s, x);
      todo, done := todo - {x}, done + {x};
    }
    assert done == members;
  }

  // ---------------------------------------------------------------------------------------------------------
  // The orders that are used
  // ---------------------------------------------------------------------------------------------------------

  predicate LessText(a: string, b: string) {
    b != "" && (a == "" || a[0] < b[0] || (a[0] == b[0] && LessText(a[1..], b[1..])))
  }

  predicate LessPair(a: (string, string), b: (string, string)) {
    LessText(a.0, b.0) || (a.0 == b.0 && LessText(a.1, b.1))
  }

  predicate LessNumber(a: int, b: int) {
    a < b
  }

  lemma {:induction false} TextIrreflexive(a: string)
    ensures !LessText(a, a)
  {
    if a != "" {
      TextIrreflexive(a[1..]);
    }
  }

  lemma {:induction false} TextTransitive(a: string, b: string, c: string)
    requires LessText(a, b) && LessText(b, c)
    ensures LessText(a, c)
  {
    if a != "" && a[0] == b[0] && b[0] == c[0] {
      TextTransitive(a[1..], b[1..], c[1..]);
    }
  }

  lemma {:induction false} TextTotal(a: string, b: string)
    requires a != b
    ensures LessText(a, b) || LessText(b, a)
  {
    if a != "" && b != "" && a[0] == b[0] {
      assert a == [a[0]] + a[1..] && b == [b[0]] + b[1..];
      TextTotal(a[1..], b[1..]);
    }
  }

  /** Text is ordered by the first character in which it differs, and a prefix comes first. */
  lemma {:induction false} TextOrderIs(a: string, b: string)
    ensures LessText(a, b)
       <==> exists k ::
              && 0 <= k <= |a| && k <= |b| && a[..k] == b[..k]
              && k < |b| && (k == |a| || a[k] < b[k])
  {
    if a != "" && b != "" && a[0] == b[0] {
      TextOrderIs(a[1..], b[1..]);
      if k :| 0 <= k <= |a| - 1 && k <= |b| - 1 && a[1..][..k] == b[1..][..k]
              && k < |b| - 1 && (k == |a| - 1 || a[1..][k] < b[1..][k]) {
        assert a[..k + 1] == [a[0]] + a[1..][..k] && b[..k + 1] == [b[0]] + b[1..][..k];
      }
      if k :| 0 <= k <= |a| && k <= |b| && a[..k] == b[..k] && k < |b| && (k == |a| || a[k] < b[k]) {
        PrefixTail(a, b, k);
      }
    } else {
      assert a[..0] == b[..0];
      forall k: nat
        ensures 0 < k <= |a| && k <= |b| && a[..k] == b[..k] ==> a[0] == b[0]
      {
        SameHead(a, b, k);
      }
    }
  }

  lemma SameHead(a: string, b: string, k: nat)
    ensures 0 < k <= |a| && k <= |b| && a[..k] == b[..k] ==> a[0] == b[0]
  {
    if 0 < k <= |a| && k <= |b| && a[..k] == b[..k] {
      assert a[0] == a[..k][0] && b[0] == b[..k][0];
    }
  }

  lemma PrefixTail(a: string, b: string, k: nat)
    requires a != "" && b != "" && a[0] == b[0] && k <= |a| && k < |b| && a[..k] == b[..k]
    requires k == |a| || a[k] < b[k]
    ensures k > 0 && a[1..][..k - 1] == b[1..][..k - 1]
  {
    assert k > 0 ==> a[1..][..k - 1] == a[..k][1..] && b[1..][..k - 1] == b[..k][1..];
  }

  lemma TextOrder()
    ensures StrictTotal(LessText)
  {
    hide LessText;
    forall x, y, z | LessText(x, y) && LessText(y, z)
      ensures LessText(x, z)
    {
      TextTransitive(x, y, z);
    }
    forall x
      ensures !LessText(x, x)
    {
      TextIrreflexive(x);
    }
    forall x, y | x != y
      ensures LessText(x, y) || LessText(y, x)
    {
      TextTotal(x, y);
    }
  }

  lemma PairOrder()
    ensures StrictTotal(LessPair)
  {
    hide LessText;
    TextOrder();
  }

  lemma NumberOrder()
    ensures StrictTotal(LessNumber)
  {
  }
}
