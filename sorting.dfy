/** The two `sort` overloads (src/table.cpp:159-177): `std::list::sort` is a
    stable sort, modelled here by stable insertion sort. */
module Sorting {
  import opened Records
  import opened LexOrder
  import opened KeyIndex

  /** What a record is compared on: its key value, or its first instance of a field. */
  datatype SortKey = ByKey | ByField(name: string)

  function SortValue(r: Record, sk: SortKey): (v: string)
  {
    match sk
    case ByKey => r.key.value
    case ByField(n) => FieldValue(r.instances, n)
  }

  /** The comparator `order ? a < b : a > b` on the sort values. */
  predicate Before(a: Record, b: Record, sk: SortKey, order: bool)
  {
    if order then LexLess(SortValue(a, sk), SortValue(b, sk))
    else LexLess(SortValue(b, sk), SortValue(a, sk))
  }

  lemma BeforeFacts(a: Record, b: Record, c: Record, sk: SortKey, order: bool)
    ensures !Before(a, a, sk, order)
    ensures Before(a, b, sk, order) ==> !Before(b, a, sk, order) && SortValue(a, sk) != SortValue(b, sk)
    ensures Before(a, c, sk, order) ==> Before(a, b, sk, order) || Before(b, c, sk, order)
  {
    var x, y, z := SortValue(a, sk), SortValue(b, sk), SortValue(c, sk);
    LexIrreflexive(x);
    if Before(a, b, sk, order) {
      if order { LexAsymmetric(x, y); } else { LexAsymmetric(y, x); }
    }
    if Before(a, c, sk, order) {
      if order { LexSplit(x, y, z); } else { LexSplit(z, y, x); }
    }
  }

  /** No later record comes strictly before an earlier one. */
  predicate Sorted(s: seq<Record>, sk: SortKey, order: bool)
  {
    forall i, j :: 0 <= i < j < |s| ==> !Before(s[j], s[i], sk, order)
  }

  /** Put `x` in front of the first element it does not come after. */
  function InsertStable(x: Record, t: seq<Record>, sk: SortKey, order: bool): (out: seq<Record>)
    ensures multiset(out) == multiset([x] + t)
  {
    if t == [] || !Before(t[0], x, sk, order) then [x] + t
    else
      assert t == [t[0]] + t[1..];
      [t[0]] + InsertStable(x, t[1..], sk, order)
  }

  function SortBy(rs: seq<Record>, sk: SortKey, order: bool): (out: seq<Record>)
    ensures multiset(out) == multiset(rs)
  {
    if rs == [] then []
    else
      assert rs == [rs[0]] + rs[1..];
      InsertStable(rs[0], SortBy(rs[1..], sk, order), sk, order)
  }

  /** The records whose sort value is `v`, in order. */
  function WithValue(s: seq<Record>, sk: SortKey, v: string): (out: seq<Record>)
    ensures forall r :: r in out ==> r in s && SortValue(r, sk) == v
  {
    if s == [] then []
    else (if SortValue(s[0], sk) == v then [s[0]] else []) + WithValue(s[1..], sk, v)
  }

  lemma WithValueCons(r: Record, t: seq<Record>, sk: SortKey, v: string)
    ensures WithValue([r] + t, sk, v) == (if SortValue(r, sk) == v then [r] else []) + WithValue(t, sk, v)
  {
    assert ([r] + t)[0] == r && ([r] + t)[1..] == t;
  }

  lemma SortedCons(x: Record, t: seq<Record>, sk: SortKey, order: bool)
    requires Sorted(t, sk, order)
    requires forall e :: e in t ==> !Before(e, x, sk, order)
    ensures Sorted([x] + t, sk, order)
  {
    var s := [x] + t;
    forall i, j | 0 <= i < j < |s| ensures !Before(s[j], s[i], sk, order) {
      assert s[j] == t[j - 1] && s[j] in t;
      if i > 0 {
        assert s[i] == t[i - 1];
      }
    }
  }

  lemma {:induction false} InsertStableSorted(x: Record, t: seq<Record>, sk: SortKey, order: bool)
    requires Sorted(t, sk, order)
    ensures Sorted(InsertStable(x, t, sk, order), sk, order)
  {
    if t == [] {
    } else if !Before(t[0], x, sk, order) {
      forall e | e in t ensures !Before(e, x, sk, order) {
        var k :| 0 <= k < |t| && t[k] == e;
        if k > 0 {
          assert !Before(t[k], t[0], sk, order);
        }
        BeforeFacts(e, t[0], x, sk, order);
      }
      SortedCons(x, t, sk, order);
    } else {
      var t0, rest := t[0], t[1..];
      assert Sorted(rest, sk, order) by {
        forall i, j | 0 <= i < j < |rest| ensures !Before(rest[j], rest[i], sk, order) {
          assert rest[i] == t[i + 1] && rest[j] == t[j + 1];
        }
      }
      InsertStableSorted(x, rest, sk, order);
      var ins := InsertStable(x, rest, sk, order);
      forall e | e in ins ensures !Before(e, t0, sk, order) {
        assert e in multiset(ins);
        assert e in multiset([x] + rest);
        if e == x {
          BeforeFacts(t0, x, x, sk, order);
        } else {
          assert e in rest;
          var k :| 0 <= k < |rest| && rest[k] == e;
          assert t[k + 1] == e;
        }
      }
      SortedCons(t0, ins, sk, order);
    }
  }

  /** The sort orders the records by their sort value (ascending when `order`
      holds, descending otherwise). */
  lemma {:induction false} SortBySorted(rs: seq<Record>, sk: SortKey, order: bool)
    ensures Sorted(SortBy(rs, sk, order), sk, order)
  {
    if rs != [] {
      SortBySorted(rs[1..], sk, order);
      InsertStableSorted(rs[0], SortBy(rs[1..], sk, order), sk, order);
    }
  }

  lemma {:induction false} InsertStableStable(x: Record, t: seq<Record>, sk: SortKey, order: bool, v: string)
    ensures WithValue(InsertStable(x, t, sk, order), sk, v) == WithValue([x] + t, sk, v)
  {
    if t != [] && Before(t[0], x, sk, order) {
      var t0, rest := t[0], t[1..];
      assert t == [t0] + rest;
      InsertStableStable(x, rest, sk, order, v);
      InsertStableStableHead(x, t0, rest, sk, order, v);
    }
  }

  /** The step of `InsertStableStable` where `x` moves past `t0`. */
  lemma InsertStableStableHead(x: Record, t0: Record, rest: seq<Record>, sk: SortKey, order: bool, v: string)
    requires Before(t0, x, sk, order)
    requires WithValue(InsertStable(x, rest, sk, order), sk, v) == WithValue([x] + rest, sk, v)
    ensures WithValue(InsertStable(x, [t0] + rest, sk, order), sk, v) == WithValue([x] + ([t0] + rest), sk, v)
  {
    var ins := InsertStable(x, rest, sk, order);
    InsertStableCons(x, t0, rest, sk, order);
    BeforeFacts(t0, x, x, sk, order);
    WithValueCons(t0, ins, sk, v);
    WithValueCons(t0, [x] + rest, sk, v);
    WithValueSwap(t0, x, rest, sk, v);
  }

  /** Two records with different sort values can trade places without
      changing any value's subsequence. */
  lemma WithValueSwap(a: Record, b: Record, rest: seq<Record>, sk: SortKey, v: string)
    requires SortValue(a, sk) != SortValue(b, sk)
    ensures WithValue([a] + ([b] + rest), sk, v) == WithValue([b] + ([a] + rest), sk, v)
  {
    var w := WithValue(rest, sk, v);
    WithValueCons(a, [b] + rest, sk, v);
    WithValueCons(b, rest, sk, v);
    WithValueCons(b, [a] + rest, sk, v);
    WithValueCons(a, rest, sk, v);
    if SortValue(a, sk) == v {
      assert [] + w == w && [a] + ([] + w) == [] + ([a] + w);
    } else if SortValue(b, sk) == v {
      assert [] + w == w && [] + ([b] + w) == [b] + ([] + w);
    } else {
      assert [] + ([] + w) == w;
    }
  }

  /** Stability: the records sharing any one sort value keep their relative order. */
  lemma {:induction false} SortByStable(rs: seq<Record>, sk: SortKey, order: bool, v: string)
    ensures WithValue(SortBy(rs, sk, order), sk, v) == WithValue(rs, sk, v)
  {
    if rs != [] {
      var r, rest := rs[0], rs[1..];
      assert rs == [r] + rest;
      SortByStable(rest, sk, order, v);
      InsertStableStable(r, SortBy(rest, sk, order), sk, order, v);
      WithValueCons(r, SortBy(rest, sk, order), sk, v);
      WithValueCons(r, rest, sk, v);
    }
  }

  lemma SameElements(a: seq<Record>, b: seq<Record>)
    requires multiset(a) == multiset(b)
    ensures forall r :: r in a <==> r in b
    ensures KeyValues(a) == KeyValues(b)
  {
    forall r ensures r in a <==> r in b {
      assert r in a <==> r in multiset(a);
      assert r in b <==> r in multiset(b);
    }
  }

  lemma {:induction false} InsertStableUnique(x: Record, t: seq<Record>, sk: SortKey, order: bool)
    requires UniqueKeys(t) && x.key.value !in KeyValues(t)
    ensures UniqueKeys(InsertStable(x, t, sk, order))
  {
    if t == [] || !Before(t[0], x, sk, order) {
      UniqueCons(x, t);
    } else {
      var t0, rest := t[0], t[1..];
      assert t == [t0] + rest;
      UniqueCons(t0, rest);
      KeyValuesCons(t0, rest);
      InsertStableUnique(x, rest, sk, order);
      var ins := InsertStable(x, rest, sk, order);
      SameElements(ins, [x] + rest);
      KeyValuesCons(x, rest);
      UniqueCons(t0, ins);
    }
  }

  /** Sorting keeps the table invariant with the index untouched. */
  lemma {:induction false} SortKeepsIndex(key: string, rs: seq<Record>, index: set<string>, sk: SortKey, order: bool)
    requires IndexValid(key, rs, index)
    ensures IndexValid(key, SortBy(rs, sk, order), index)
  {
    SameElements(SortBy(rs, sk, order), rs);
    SortKeepsUnique(rs, sk, order);
  }

  lemma {:induction false} SortKeepsUnique(rs: seq<Record>, sk: SortKey, order: bool)
    requires UniqueKeys(rs)
    ensures UniqueKeys(SortBy(rs, sk, order))
  {
    if rs != [] {
      var r, rest := rs[0], rs[1..];
      assert rs == [r] + rest;
      UniqueCons(r, rest);
      SortKeepsUnique(rest, sk, order);
      SameElements(SortBy(rest, sk, order), rest);
      InsertStableUnique(r, SortBy(rest, sk, order), sk, order);
    }
  }

  lemma InsertStableCons(x: Record, t0: Record, t: seq<Record>, sk: SortKey, order: bool)
    ensures InsertStable(x, [t0] + t, sk, order) ==
      if Before(t0, x, sk, order) then [t0] + InsertStable(x, t, sk, order) else [x, t0] + t
  {
    assert ([t0] + t)[0] == t0 && ([t0] + t)[1..] == t;
  }

  lemma SortByCons(r: Record, t: seq<Record>, sk: SortKey, order: bool)
    ensures SortBy([r] + t, sk, order) == InsertStable(r, SortBy(t, sk, order), sk, order)
  {
    assert ([r] + t)[0] == r && ([r] + t)[1..] == t;
  }
}

/** A sort scenario: records with equal keys keep their order. */
module SortExamples {
  import opened Records
  import opened LexOrder
  import opened Sorting

  /** Stability on equal keys: two records with the same key value keep their
      order whichever direction is asked for. */
  lemma SortEqualKeysExample(a: Record, b: Record, order: bool)
    requires a.key.value == b.key.value
    ensures SortBy([a, b], ByKey, order) == [a, b]
  {
    SortByCons(b, [], ByKey, order);
    assert SortBy([b], ByKey, order) == [b];
    SortByCons(a, [b], ByKey, order);
    InsertStableCons(a, b, [], ByKey, order);
    LexIrreflexive(a.key.value);
    assert [a] + [b] == [a, b];
  }
}
