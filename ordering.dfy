/**
 * The orders `DataFrame.sort_values` uses here: Python's ordering of `str`
 * (code point by code point, a proper prefix first), integers for dates, and
 * the lexicographic order of a list of sort columns. The sort itself is an
 * insertion sort, proved to return a sorted permutation of its input.
 */
module Ordering {

  /** Python's `a <= b` on strings. */
  predicate StrLe(a: string, b: string)
    decreases |a|
  {
    a == [] || (b != [] && (a[0] < b[0] || (a[0] == b[0] && StrLe(a[1..], b[1..]))))
  }

  lemma {:induction false} StrLeReflexive(a: string)
    ensures StrLe(a, a)
    decreases |a|
  {
    if a != [] {
      StrLeReflexive(a[1..]);
    }
  }

  lemma {:induction false} StrLeTotal(a: string, b: string)
    ensures StrLe(a, b) || StrLe(b, a)
    decreases |a|
  {
    if a != [] && b != [] && a[0] == b[0] {
      StrLeTotal(a[1..], b[1..]);
    }
  }

  lemma {:induction false} StrLeTransitive(a: string, b: string, c: string)
    requires StrLe(a, b) && StrLe(b, c)
    ensures StrLe(a, c)
    decreases |a|
  {
    if a != [] && a[0] == b[0] && b[0] == c[0] {
      StrLeTransitive(a[1..], b[1..], c[1..]);
    }
  }

  lemma {:induction false} StrLeAntisymmetric(a: string, b: string)
    requires StrLe(a, b) && StrLe(b, a)
    ensures a == b
    decreases |a|
  {
    if a != [] {
      StrLeAntisymmetric(a[1..], b[1..]);
      assert a == [a[0]] + a[1..] && b == [b[0]] + b[1..];
    }
  }

  /** One sort column's value. */
  datatype KeyPart = IntPart(i: int) | StrPart(s: string)

  /** The values of the sort columns of one row, in column order. */
  type SortKey = seq<KeyPart>

  /** Order on one column; mixed kinds never meet in a well-typed column. */
  predicate PartLe(p: KeyPart, q: KeyPart)
  {
    match (p, q)
    case (IntPart(x), IntPart(y)) => x <= y
    case (StrPart(x), StrPart(y)) => StrLe(x, y)
    case (IntPart(_), StrPart(_)) => true
    case (StrPart(_), IntPart(_)) => false
  }

  lemma PartLeReflexive(p: KeyPart)
    ensures PartLe(p, p)
  {
    if p.StrPart? {
      StrLeReflexive(p.s);
    }
  }

  lemma PartLeTotal(p: KeyPart, q: KeyPart)
    ensures PartLe(p, q) || PartLe(q, p)
  {
    if p.StrPart? && q.StrPart? {
      StrLeTotal(p.s, q.s);
    }
  }

  lemma PartLeTransitive(p: KeyPart, q: KeyPart, r: KeyPart)
    requires PartLe(p, q) && PartLe(q, r)
    ensures PartLe(p, r)
  {
    if p.StrPart? && q.StrPart? && r.StrPart? {
      StrLeTransitive(p.s, q.s, r.s);
    }
  }

  lemma PartLeAntisymmetric(p: KeyPart, q: KeyPart)
    requires PartLe(p, q) && PartLe(q, p)
    ensures p == q
  {
    if p.StrPart? && q.StrPart? {
      StrLeAntisymmetric(p.s, q.s);
    }
  }

  /** Lexicographic order on sort keys: the first column that differs decides. */
  predicate KeyLe(a: SortKey, b: SortKey)
    decreases |a|
  {
    a == [] ||
    (b != [] && ((PartLe(a[0], b[0]) && !PartLe(b[0], a[0])) ||
                 (a[0] == b[0] && KeyLe(a[1..], b[1..]))))
  }

  lemma {:induction false} KeyLeTotal(a: SortKey, b: SortKey)
    ensures KeyLe(a, b) || KeyLe(b, a)
    decreases |a|
  {
    if a != [] && b != [] {
      PartLeTotal(a[0], b[0]);
      if PartLe(a[0], b[0]) && PartLe(b[0], a[0]) {
        PartLeAntisymmetric(a[0], b[0]);
        KeyLeTotal(a[1..], b[1..]);
      }
    }
  }

  lemma {:induction false} KeyLeTransitive(a: SortKey, b: SortKey, c: SortKey)
    requires KeyLe(a, b) && KeyLe(b, c)
    ensures KeyLe(a, c)
    decreases |a|
  {
    if a != [] {
      if a[0] == b[0] && b[0] == c[0] {
        KeyLeTransitive(a[1..], b[1..], c[1..]);
      } else {
        PartLeReflexive(a[0]);
        PartLeReflexive(b[0]);
        PartLeTransitive(a[0], b[0], c[0]);
        if PartLe(c[0], a[0]) {
          if a[0] == b[0] {
            assert !PartLe(c[0], b[0]);
          } else {
            PartLeTransitive(c[0], a[0], b[0]);
          }
        }
      }
    }
  }

  /** `s` is in ascending order of `key`. */
  ghost predicate SortedBy<T>(s: seq<T>, key: T -> SortKey)
  {
    forall i, j :: 0 <= i < j < |s| ==> KeyLe(key(s[i]), key(s[j]))
  }

  /** An element that precedes every element of a sorted list can be put in front of it. */
  lemma ConsSorted<T>(h: T, t: seq<T>, key: T -> SortKey)
    requires SortedBy(t, key)
    requires forall j :: 0 <= j < |t| ==> KeyLe(key(h), key(t[j]))
    ensures SortedBy([h] + t, key)
  {
    forall i, j | 0 <= i < j < |[h] + t|
      ensures KeyLe(key(([h] + t)[i]), key(([h] + t)[j]))
    {
      if i > 0 {
        assert ([h] + t)[i] == t[i - 1];
      }
      assert ([h] + t)[j] == t[j - 1];
    }
  }

  /** Something no greater than the head of a sorted list is no greater than all of it. */
  lemma HeadBound<T>(x: T, s: seq<T>, key: T -> SortKey)
    requires SortedBy(s, key) && (s != [] ==> KeyLe(key(x), key(s[0])))
    ensures forall j :: 0 <= j < |s| ==> KeyLe(key(x), key(s[j]))
  {
    forall j | 0 <= j < |s| ensures KeyLe(key(x), key(s[j])) {
      if 0 < j { KeyLeTransitive(key(x), key(s[0]), key(s[j])); }
    }
  }

  /** The head of a sorted list precedes every element of the rest with `x` inserted,
      when `x` does not precede the head. */
  lemma InsertedTailBound<T>(x: T, s: seq<T>, tail: seq<T>, key: T -> SortKey)
    requires SortedBy(s, key) && s != [] && !KeyLe(key(x), key(s[0]))
    requires multiset(tail) == multiset(s[1..]) + multiset{x}
    ensures forall j :: 0 <= j < |tail| ==> KeyLe(key(s[0]), key(tail[j]))
  {
    forall j | 0 <= j < |tail| ensures KeyLe(key(s[0]), key(tail[j])) {
      assert tail[j] in multiset(tail);
      if tail[j] == x {
        KeyLeTotal(key(x), key(s[0]));
      } else {
        assert tail[j] in multiset(s[1..]);
        var k :| 0 <= k < |s[1..]| && s[1..][k] == tail[j];
        assert s[k + 1] == tail[j];
      }
    }
  }

  /** Inserts `x` into sorted `s` before the first element it does not follow. */
  function Insert<T>(x: T, s: seq<T>, key: T -> SortKey): (r: seq<T>)
    requires SortedBy(s, key)
    ensures SortedBy(r, key)
    ensures multiset(r) == multiset(s) + multiset{x}
    decreases |s|
  {
    if s == [] || KeyLe(key(x), key(s[0])) then
      HeadBound(x, s, key);
      ConsSorted(x, s, key);
      [x] + s
    else
      assert SortedBy(s[1..], key);
      var tail := Insert(x, s[1..], key);
      assert s == [s[0]] + s[1..];
      InsertedTailBound(x, s, tail, key);
      ConsSorted(s[0], tail, key);
      [s[0]] + tail
  }

  /** `sort_values` on the columns `key` selects: a sorted permutation of `s`. */
  function SortBy<T>(s: seq<T>, key: T -> SortKey): (r: seq<T>)
    ensures SortedBy(r, key)
    ensures multiset(r) == multiset(s)
    ensures |r| == |s|
    decreases |s|
  {
    if s == [] then []
    else
      assert s == [s[0]] + s[1..];
      Insert(s[0], SortBy(s[1..], key), key)
  }
}
