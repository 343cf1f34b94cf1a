/** What `remove_record` (src/table.cpp:118-145) does to the records and the index. */
module Removal {
  import opened Records
  import opened KeyIndex
  import opened Selection

  /** Position of the first record whose key value is `v`, or `|rs|`. */
  function FirstWithValue(rs: seq<Record>, v: string): (p: nat)
    ensures p <= |rs|
    ensures p < |rs| ==> rs[p].key.value == v
    ensures forall q :: 0 <= q < p ==> rs[q].key.value != v
  {
    if rs == [] then 0
    else if rs[0].key.value == v then 0
    else 1 + FirstWithValue(rs[1..], v)
  }

  /** The loop at src/table.cpp:129-142: for each selected copy in turn, the
      first live record with its key value is erased and the value unindexed. */
  function RemoveAll(rs: seq<Record>, index: set<string>, sel: seq<Record>): (out: (seq<Record>, set<string>))
    ensures |out.0| <= |rs| && out.1 <= index
    ensures forall r :: r in out.0 ==> r in rs
  {
    if sel == [] then (rs, index)
    else
      var v := sel[0].key.value;
      var p := FirstWithValue(rs, v);
      if p < |rs| then
        assert forall r :: r in rs[..p] + rs[p + 1..] ==> r in rs;
        RemoveAll(rs[..p] + rs[p + 1..], index - {v}, sel[1..])
      else RemoveAll(rs, index, sel[1..])
  }

  /** One turn of the loop over the selected copies. */
  lemma RemoveAllStep(rs: seq<Record>, index: set<string>, sel: seq<Record>, i: int)
    requires 0 <= i < |sel|
    ensures var v := sel[i].key.value;
      var p := FirstWithValue(rs, v);
      RemoveAll(rs, index, sel[i..]) ==
        if p < |rs| then RemoveAll(rs[..p] + rs[p + 1..], index - {v}, sel[i + 1..])
        else RemoveAll(rs, index, sel[i + 1..])
  {
    assert sel[i..][0] == sel[i] && sel[i..][1..] == sel[i + 1..];
  }

  lemma KeyValuesSubset(a: seq<Record>, b: seq<Record>)
    requires forall r :: r in a ==> r in b
    ensures KeyValues(a) <= KeyValues(b)
  {
  }

  /** A record whose value no selected copy carries survives the removal, in front. */
  lemma {:induction false} RemoveAllCons(r: Record, t: seq<Record>, index: set<string>, sel: seq<Record>)
    requires r.key.value !in KeyValues(sel)
    ensures RemoveAll([r] + t, index, sel) == ([r] + RemoveAll(t, index, sel).0, RemoveAll(t, index, sel).1)
  {
    if sel != [] {
      var s := [r] + t;
      var v := sel[0].key.value;
      assert sel[0] in sel;
      assert s[1..] == t;
      var p := FirstWithValue(t, v);
      assert FirstWithValue(s, v) == 1 + p;
      assert r.key.value !in KeyValues(sel[1..]) by {
        KeyValuesSubset(sel[1..], sel);
      }
      if p < |t| {
        assert s[..1 + p] + s[2 + p..] == [r] + (t[..p] + t[p + 1..]);
        RemoveAllCons(r, t[..p] + t[p + 1..], index - {v}, sel[1..]);
      } else {
        RemoveAllCons(r, t, index, sel[1..]);
      }
    }
  }

  /** A selected copy at the head of both lists takes the head record with it. */
  lemma RemoveAllHead(r: Record, t: seq<Record>, index: set<string>, sel: seq<Record>)
    ensures RemoveAll([r] + t, index, [r] + sel) == RemoveAll(t, index - {r.key.value}, sel)
  {
    var s := [r] + t;
    assert ([r] + sel)[0] == r && ([r] + sel)[1..] == sel;
    assert FirstWithValue(s, r.key.value) == 0;
    assert s[..0] + s[1..] == t;
  }

  /** With unique key values, removing the selection of `conditions` leaves
      exactly the non-matching records, in order, and unindexes the selected values. */
  lemma {:induction false} RemoveSelected(rs: seq<Record>, index: set<string>, conditions: Conditions)
    requires UniqueKeys(rs)
    ensures RemoveAll(rs, index, Filter(rs, conditions)) ==
      (Reject(rs, conditions), index - KeyValues(Filter(rs, conditions)))
  {
    if rs == [] {
      assert Filter(rs, conditions) == [] && Reject(rs, conditions) == [];
      assert KeyValues([]) == {};
      assert RemoveAll(rs, index, []) == (rs, index);
      assert RemoveAll(rs, index, Filter(rs, conditions)).0 == Reject(rs, conditions);
      assert RemoveAll(rs, index, Filter(rs, conditions)).1 == index - KeyValues(Filter(rs, conditions));
    } else {
      var r, t := rs[0], rs[1..];
      assert rs == [r] + t;
      UniqueCons(r, t);
      if Matches(r, conditions) {
        RemoveSelected(t, index - {r.key.value}, conditions);
        RemoveSelectedHead(r, t, index, conditions);
      } else {
        RemoveSelected(t, index, conditions);
        RemoveSelectedSkip(r, t, index, conditions);
      }
    }
  }

  lemma RemoveSelectedHead(r: Record, t: seq<Record>, index: set<string>, conditions: Conditions)
    requires Matches(r, conditions)
    requires RemoveAll(t, index - {r.key.value}, Filter(t, conditions)) ==
      (Reject(t, conditions), index - {r.key.value} - KeyValues(Filter(t, conditions)))
    ensures RemoveAll([r] + t, index, Filter([r] + t, conditions)) ==
      (Reject([r] + t, conditions), index - KeyValues(Filter([r] + t, conditions)))
  {
    var ft := Filter(t, conditions);
    var v := r.key.value;
    FilterCons(r, t, conditions);
    assert Filter([r] + t, conditions) == [r] + ft;
    assert Reject([r] + t, conditions) == Reject(t, conditions);
    KeyValuesCons(r, ft);
    var kv := KeyValues(Filter([r] + t, conditions));
    assert kv == {v} + KeyValues(ft);
    RemoveAllHead(r, t, index, ft);
    DropBoth(index, v, KeyValues(ft), kv);
  }

  lemma RemoveSelectedSkip(r: Record, t: seq<Record>, index: set<string>, conditions: Conditions)
    requires !Matches(r, conditions) && r.key.value !in KeyValues(t)
    requires RemoveAll(t, index, Filter(t, conditions)) ==
      (Reject(t, conditions), index - KeyValues(Filter(t, conditions)))
    ensures RemoveAll([r] + t, index, Filter([r] + t, conditions)) ==
      (Reject([r] + t, conditions), index - KeyValues(Filter([r] + t, conditions)))
  {
    var ft := Filter(t, conditions);
    FilterCons(r, t, conditions);
    assert Filter([r] + t, conditions) == ft;
    assert Reject([r] + t, conditions) == [r] + Reject(t, conditions);
    KeyValuesSubset(ft, t);
    RemoveAllCons(r, t, index, ft);
  }

  lemma DropBoth(index: set<string>, v: string, rest: set<string>, all: set<string>)
    requires all == {v} + rest
    ensures index - {v} - rest == index - all
  {
  }

  /** With unique key values, the key values split between the selection and the rest. */
  lemma {:induction false} RejectKeyValues(rs: seq<Record>, conditions: Conditions)
    requires UniqueKeys(rs)
    ensures KeyValues(Reject(rs, conditions)) == KeyValues(rs) - KeyValues(Filter(rs, conditions))
    ensures UniqueKeys(Reject(rs, conditions))
  {
    if rs != [] {
      var r, t := rs[0], rs[1..];
      assert rs == [r] + t;
      UniqueCons(r, t);
      RejectKeyValues(t, conditions);
      RejectKeyValuesCons(r, t, conditions);
    }
  }

  /** The step of `RejectKeyValues` for a head record `r`. */
  lemma RejectKeyValuesCons(r: Record, t: seq<Record>, conditions: Conditions)
    requires r.key.value !in KeyValues(t) && UniqueKeys(t)
    requires KeyValues(Reject(t, conditions)) == KeyValues(t) - KeyValues(Filter(t, conditions))
    requires UniqueKeys(Reject(t, conditions))
    ensures KeyValues(Reject([r] + t, conditions)) == KeyValues([r] + t) - KeyValues(Filter([r] + t, conditions))
    ensures UniqueKeys(Reject([r] + t, conditions))
  {
    var ft, rt := Filter(t, conditions), Reject(t, conditions);
    KeyValuesSubset(ft, t);
    KeyValuesSubset(rt, t);
    KeyValuesCons(r, t);
    FilterCons(r, t, conditions);
    if Matches(r, conditions) {
      KeyValuesCons(r, ft);
      assert KeyValues(t) - KeyValues(ft) == KeyValues([r] + t) - KeyValues([r] + ft);
    } else {
      KeyValuesCons(r, rt);
      UniqueCons(r, rt);
    }
  }

  /** Removal keeps the table invariant and lowers the count by the number selected. */
  lemma RemoveKeepsIndex(key: string, rs: seq<Record>, index: set<string>, conditions: Conditions)
    requires IndexValid(key, rs, index)
    ensures var out := RemoveAll(rs, index, Filter(rs, conditions));
      IndexValid(key, out.0, out.1) && out.0 == Reject(rs, conditions) &&
      |out.0| == |rs| - |Filter(rs, conditions)|
  {
    RemoveSelected(rs, index, conditions);
    RejectKeyValues(rs, conditions);
  }

  /** After a successful removal, selecting with the same conditions finds nothing. */
  lemma RemoveThenSelectEmpty(key: string, rs: seq<Record>, index: set<string>, conditions: Conditions)
    requires IndexValid(key, rs, index)
    requires Select(key, rs, index, conditions).0 != []
    ensures var (sel, c) := Select(key, rs, index, conditions);
      var out := RemoveAll(rs, index, sel);
      Select(key, out.0, out.1, conditions).0 == []
  {
    var (sel, c) := Select(key, rs, index, conditions);
    assert sel == Filter(rs, c);
    RemoveKeepsIndex(key, rs, index, c);
    RejectThenFilterEmpty(rs, c);
  }
}
