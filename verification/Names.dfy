/** Sets gone through in order: the standard library's `BTreeSet` of names, and of pairs of names. */
module Names {
  import opened Collections

  /** A total order. */
  ghost predicate IsOrder<T(!new)>(atMost: (T, T) -> bool) {
    && (forall a, b :: atMost(a, b) || atMost(b, a))
    && (forall a, b :: atMost(a, b) && atMost(b, a) ==> a == b)
    && (forall a, b, c :: atMost(a, b) && atMost(b, c) ==> atMost(a, c))
  }

  /** In order, each once. */
  ghost predicate Ascends<T>(s: seq<T>, atMost: (T, T) -> bool) {
    forall i, j :: 0 <= i < j < |s| ==> atMost(s[i], s[j]) && s[i] != s[j]
  }

  lemma AscendingIsDistinct<T>(s: seq<T>, atMost: (T, T) -> bool)
    requires Ascends(s, atMost)
    ensures Distinct(s)
  {
  }

  /** Insertion into a set. */
  function Inserted<T(==)>(x: T, s: seq<T>, atMost: (T, T) -> bool): seq<T> {
    if s == [] then [x]
    else if x == s[0] then s
    else if atMost(x, s[0]) then [x] + s
    else [s[0]] + Inserted(x, s[1..], atMost)
  }

  lemma FirstAscends<T(!new)>(first: T, s: seq<T>, atMost: (T, T) -> bool)
    requires Ascends(s, atMost) && forall x :: x in s ==> atMost(first, x) && first != x
    ensures Ascends([first] + s, atMost) && Elements([first] + s) == {first} + Elements(s)
  {
    var all := [first] + s;
    forall i, j | 0 <= i < j < |all| ensures atMost(all[i], all[j]) && all[i] != all[j] {
      assert all[j] == s[j - 1] && (i > 0 ==> all[i] == s[i - 1]);
    }
  }

  lemma RestAscends<T(!new)>(s: seq<T>, atMost: (T, T) -> bool)
    requires s != [] && Ascends(s, atMost)
    ensures Ascends(s[1..], atMost) && [s[0]] + s[1..] == s
    ensures forall x :: x in s[1..] ==> atMost(s[0], x) && s[0] != x
    ensures Elements(s) == {s[0]} + Elements(s[1..])
  {
  }

  /** Below the first is below all. */
  lemma BelowAll<T(!new)>(x: T, s: seq<T>, atMost: (T, T) -> bool)
    requires IsOrder(atMost) && s != [] && Ascends(s, atMost) && atMost(x, s[0]) && x != s[0]
    ensures forall y :: y in s ==> atMost(x, y) && x != y
  {
    forall y | y in s ensures atMost(x, y) && x != y {
      var j :| 0 <= j < |s| && s[j] == y;
      if j > 0 {
        assert atMost(s[0], y) && s[0] != y;
        assert atMost(x, y);
      }
    }
  }

  lemma {:induction false} InsertedAscends<T(!new)>(x: T, s: seq<T>, atMost: (T, T) -> bool)
    requires IsOrder(atMost) && Ascends(s, atMost)
    ensures Ascends(Inserted(x, s, atMost), atMost) && Elements(Inserted(x, s, atMost)) == Elements(s) + {x}
  {
    if s == [] {
      assert [x] + s == [x];
      FirstAscends(x, s, atMost);
    } else if x == s[0] {
      assert x in Elements(s);
    } else {
      assert atMost(x, s[0]) || atMost(s[0], x);
      if atMost(x, s[0]) {
        BelowAll(x, s, atMost);
        hide IsOrder, Ascends;
        FirstAscends(x, s, atMost);
      } else {
        hide IsOrder, Ascends;
        RestAscends(s, atMost);
        InsertedAscends(x, s[1..], atMost);
        forall y | y in Inserted(x, s[1..], atMost) ensures atMost(s[0], y) && s[0] != y {
          assert y in Elements(Inserted(x, s[1..], atMost));
        }
        FirstAscends(s[0], Inserted(x, s[1..], atMost), atMost);
      }
    }
  }

  /** The order depends on nothing but the set. */
  lemma {:induction false} AscendingIsUnique<T(!new)>(a: seq<T>, b: seq<T>, atMost: (T, T) -> bool)
    requires IsOrder(atMost) && Ascends(a, atMost) && Ascends(b, atMost) && Elements(a) == Elements(b)
    ensures a == b
  {
    assert a != [] ==> a[0] in Elements(a);
    assert b != [] ==> b[0] in Elements(b);
    if a != [] {
      assert atMost(a[0], b[0]) && atMost(b[0], a[0]) ==> a[0] == b[0];
      hide IsOrder, Ascends;
      RestAscends(a, atMost);
      RestAscends(b, atMost);
      assert Elements(a[1..]) == Elements(a) - {a[0]} && Elements(b[1..]) == Elements(b) - {b[0]};
      AscendingIsUnique(a[1..], b[1..], atMost);
    }
  }

  // ----- names -----

  predicate AtMost(a: string, b: string) {
    a == [] || (b != [] && (a[0] < b[0] || (a[0] == b[0] && AtMost(a[1..], b[1..]))))
  }

  lemma {:induction false} AtMostIsTotal(a: string, b: string)
    ensures AtMost(a, b) || AtMost(b, a)
    ensures AtMost(a, b) && AtMost(b, a) ==> a == b
  {
    if a != [] && b != [] {
      AtMostIsTotal(a[1..], b[1..]);
      assert a == [a[0]] + a[1..] && b == [b[0]] + b[1..];
    }
  }

  lemma {:induction false} AtMostIsTransitive(a: string, b: string, c: string)
    requires AtMost(a, b) && AtMost(b, c)
    ensures AtMost(a, c)
  {
    if a != [] && a[0] == b[0] == c[0] {
      AtMostIsTransitive(a[1..], b[1..], c[1..]);
    }
  }

  lemma NamesAreOrdered()
    ensures IsOrder(AtMost)
  {
    forall a, b ensures (AtMost(a, b) || AtMost(b, a)) && (AtMost(a, b) && AtMost(b, a) ==> a == b) {
      AtMostIsTotal(a, b);
    }
    forall a, b, c | AtMost(a, b) && AtMost(b, c) ensures AtMost(a, c) {
      AtMostIsTransitive(a, b, c);
    }
  }

  ghost predicate IsNameOrder(names: seq<string>) { Ascends(names, AtMost) }

  lemma NameOrderIsUnique(a: seq<string>, b: seq<string>)
    requires IsNameOrder(a) && IsNameOrder(b) && Elements(a) == Elements(b)
    ensures a == b
  {
    NamesAreOrdered();
    AscendingIsUnique(a, b, AtMost);
  }

  /** The names in the order that a set of them is gone through. */
  function NameOrder(names: seq<string>): seq<string> {
    if names == [] then [] else Inserted(names[|names| - 1], NameOrder(names[..|names| - 1]), AtMost)
  }

  lemma {:induction false} NameOrderIsOfThem(names: seq<string>)
    ensures IsNameOrder(NameOrder(names)) && Elements(NameOrder(names)) == Elements(names)
    ensures Distinct(NameOrder(names))
  {
    if names != [] {
      var init, last := names[..|names| - 1], names[|names| - 1];
      NameOrderIsOfThem(init);
      NamesAreOrdered();
      InsertedAscends(last, NameOrder(init), AtMost);
      assert names == init + [last];
    }
  }

  // ----- pairs -----

  predicate PairAtMost(p: (string, string), q: (string, string)) {
    if p.0 == q.0 then AtMost(p.1, q.1) else AtMost(p.0, q.0)
  }

  lemma PairsAreOrdered()
    ensures IsOrder(PairAtMost)
  {
    hide AtMost;
    forall p, q
      ensures (PairAtMost(p, q) || PairAtMost(q, p)) && (PairAtMost(p, q) && PairAtMost(q, p) ==> p == q)
    {
      AtMostIsTotal(p.0, q.0);
      AtMostIsTotal(p.1, q.1);
    }
    forall p, q, r | PairAtMost(p, q) && PairAtMost(q, r) ensures PairAtMost(p, r) {
      PairsChain(p, q, r);
    }
  }

  lemma PairsChain(p: (string, string), q: (string, string), r: (string, string))
    requires PairAtMost(p, q) && PairAtMost(q, r)
    ensures PairAtMost(p, r)
  {
    hide AtMost;
    if p.0 == q.0 == r.0 {
      AtMostIsTransitive(p.1, q.1, r.1);
    } else if p.0 != q.0 && q.0 != r.0 {
      AtMostIsTransitive(p.0, q.0, r.0);
      AtMostIsTotal(p.0, q.0);
    }
  }
}
