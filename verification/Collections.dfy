/** Small shared vocabulary: optional values, fallible results and sequences used as sets. */
module Collections {

  datatype Option<+T> = None | Some(value: T)

  datatype Result<+T, +E> = Ok(value: T) | Err(error: E)

  /** A byte of UTF-8 text or of an encoded message. */
  type byte = b: int | 0 <= b < 256

  const U32_MAX: nat := 0xffff_ffff
  const U64_MAX: nat := 0xffff_ffff_ffff_ffff

  type u32 = n: int | 0 <= n <= 0xffff_ffff
  type u64 = n: int | 0 <= n <= 0xffff_ffff_ffff_ffff

  const NANOS_PER_SEC: nat := 1_000_000_000

  function Min(a: int, b: int): int { if a <= b then a else b }

  /** Addition in the machine's 64 bits, held at the largest number; `usize` is as wide. */
  function SaturatingAdd(a: nat, b: nat): u64 { Min(a + b, U64_MAX) }

  /** No element occurs twice: the iteration order of a set or of a map's keys. */
  predicate Distinct<T(==)>(s: seq<T>) {
    forall i, j :: 0 <= i < j < |s| ==> s[i] != s[j]
  }

  function Elements<T>(s: seq<T>): set<T> {
    set x | x in s
  }

  /** The elements of `s` that satisfy `keep`, in order. */
  function Filter<T(!new)>(s: seq<T>, keep: T -> bool): (r: seq<T>)
    ensures forall x :: x in r <==> x in s && keep(x)
    ensures |r| <= |s|
  {
    if s == [] then [] else
      var rest := Filter(s[1..], keep);
      assert forall x :: x in s <==> x == s[0] || x in s[1..];
      if keep(s[0]) then [s[0]] + rest else rest
  }

  lemma {:induction false} FilterKeepsDistinct<T(!new)>(s: seq<T>, keep: T -> bool)
    requires Distinct(s)
    ensures Distinct(Filter(s, keep))
  {
    if s != [] {
      FilterKeepsDistinct(s[1..], keep);
      assert s[0] !in s[1..];
    }
  }

  lemma DistinctJoin<T>(a: seq<T>, b: seq<T>)
    requires Distinct(a) && Distinct(b) && forall i :: 0 <= i < |b| ==> b[i] !in a
    ensures Distinct(a + b)
  {
    forall i, j | 0 <= i < j < |a + b| ensures (a + b)[i] != (a + b)[j] {
      if i < |a| <= j {
        assert b[j - |a|] !in a;
      }
    }
  }

  lemma {:induction false} FilterAppend<T(!new)>(s: seq<T>, x: T, keep: T -> bool)
    ensures Filter(s + [x], keep) == if keep(x) then Filter(s, keep) + [x] else Filter(s, keep)
  {
    if s == [] {
      assert s + [x] == [x] && [x][1..] == [];
    } else {
      FilterAppend(s[1..], x, keep);
      assert (s + [x])[1..] == s[1..] + [x];
    }
  }

  /** What is dropped shows in the length. */
  lemma {:induction false} FilterShrinks<T(!new)>(s: seq<T>, keep: T -> bool, x: T)
    requires x in s && !keep(x)
    ensures |Filter(s, keep)| < |s|
  {
    if s[0] != x {
      FilterShrinks(s[1..], keep, x);
    }
  }

  lemma {:induction false} FilterNothing<T(!new)>(s: seq<T>, keep: T -> bool)
    requires forall x :: x in s ==> !keep(x)
    ensures Filter(s, keep) == []
  {
    if s != [] {
      assert s[0] in s;
      FilterNothing(s[1..], keep);
    }
  }

  lemma {:induction false} FilterAgrees<T(!new)>(s: seq<T>, f: T -> bool, g: T -> bool)
    requires forall x :: x in s ==> f(x) == g(x)
    ensures Filter(s, f) == Filter(s, g)
  {
    if s != [] {
      assert s[0] in s;
      FilterAgrees(s[1..], f, g);
    }
  }

  function Both<T>(f: T -> bool, g: T -> bool): T -> bool { x => f(x) && g(x) }

  lemma {:induction false} FilterTwice<T(!new)>(s: seq<T>, f: T -> bool, g: T -> bool)
    ensures Filter(Filter(s, f), g) == Filter(s, Both(f, g))
  {
    if s != [] {
      FilterTwice(s[1..], f, g);
      if f(s[0]) {
        assert Filter(s, f)[1..] == Filter(s[1..], f);
      }
    }
  }

  function Among<T(==)>(names: set<T>): T -> bool { x => x in names }
}
