/** What `join` (src/table.cpp:23-36) computes. */
module Joining {
  import opened Records

  /** The instances not named `key`, in order. */
  function NonKey(insts: seq<Instance>, key: string): (out: seq<Instance>)
    ensures |out| <= |insts|
    ensures forall i :: i in out ==> i in insts && i.identifier != key
  {
    if insts == [] then []
    else
      var last := insts[|insts| - 1];
      NonKey(insts[..|insts| - 1], key) + (if last.identifier != key then [last] else [])
  }

  /** Everything the join appends to a left record whose key value is `v`:
      the instances not named `key` of every right record with key value `v`,
      right record by right record. */
  function Gather(right: seq<Record>, v: string, key: string): (out: seq<Instance>)
    ensures forall i :: i in out ==> i.identifier != key
  {
    if right == [] then []
    else
      var last := right[|right| - 1];
      Gather(right[..|right| - 1], v, key) + (if last.key.value == v then NonKey(last.instances, key) else [])
  }

  /** The joined records: each left record keeps its key member and its own
      instances, and is followed by what `Gather` finds in the right table. */
  function Joined(left: seq<Record>, right: seq<Record>, key: string): (out: seq<Record>)
    ensures |out| == |left|
  {
    seq(|left|, i requires 0 <= i < |left| =>
      left[i].(instances := left[i].instances + Gather(right, left[i].key.value, key)))
  }

  /** One more instance of the list looked at. */
  lemma NonKeyPrefix(insts: seq<Instance>, k: int, key: string)
    requires 0 <= k < |insts|
    ensures NonKey(insts[..k + 1], key) ==
      NonKey(insts[..k], key) + (if insts[k].identifier != key then [insts[k]] else [])
  {
    assert insts[..k + 1][..k] == insts[..k];
  }

  /** One more right record looked at. */
  lemma GatherPrefix(right: seq<Record>, j: int, v: string, key: string)
    requires 0 <= j < |right|
    ensures Gather(right[..j + 1], v, key) ==
      Gather(right[..j], v, key) + (if right[j].key.value == v then NonKey(right[j].instances, key) else [])
  {
    assert right[..j + 1][..j] == right[..j];
  }

  /** Every instance not named `key` survives, and nothing else does. */
  lemma {:induction false} NonKeyComplete(insts: seq<Instance>, key: string, i: Instance)
    ensures i in NonKey(insts, key) <==> i in insts && i.identifier != key
  {
    if insts != [] {
      var init := insts[..|insts| - 1];
      assert insts == init + [insts[|insts| - 1]];
      NonKeyComplete(init, key, i);
    }
  }

  /** An instance is gathered exactly when some right record with key value
      `v` holds it and it is not named `key`. */
  lemma {:induction false} GatherMembers(right: seq<Record>, v: string, key: string, i: Instance)
    ensures i in Gather(right, v, key) <==>
      exists r :: r in right && r.key.value == v && i in r.instances && i.identifier != key
  {
    if right != [] {
      var init, last := right[..|right| - 1], right[|right| - 1];
      assert right == init + [last];
      GatherMembers(init, v, key, i);
      NonKeyComplete(last.instances, key, i);
      if exists r :: r in right && r.key.value == v && i in r.instances && i.identifier != key {
        var r :| r in right && r.key.value == v && i in r.instances && i.identifier != key;
        if r != last {
          assert r in init;
        }
      }
    }
  }

  /** With no right record sharing its key value, a left record is unchanged. */
  lemma {:induction false} GatherNone(right: seq<Record>, v: string, key: string)
    requires forall r :: r in right ==> r.key.value != v
    ensures Gather(right, v, key) == []
  {
    if right != [] {
      var init := right[..|right| - 1];
      assert right[|right| - 1] in right;
      assert forall r :: r in init ==> r in right;
      GatherNone(init, v, key);
    }
  }

  /** The joined table keeps the left records' order and key members; each
      record's instances start with its own, and unmatched records are unchanged. */
  lemma JoinedShape(left: seq<Record>, right: seq<Record>, key: string, i: int)
    requires 0 <= i < |left|
    ensures var out := Joined(left, right, key);
      out[i].key == left[i].key &&
      out[i].instances[..|left[i].instances|] == left[i].instances &&
      ((forall r :: r in right ==> r.key.value != left[i].key.value) ==> out[i] == left[i])
  {
    var out := Joined(left, right, key);
    assert out[i].instances == left[i].instances + Gather(right, left[i].key.value, key);
    if forall r :: r in right ==> r.key.value != left[i].key.value {
      GatherNone(right, left[i].key.value, key);
    }
  }

  /** Table A (key `id`) holds {id:1, name:x} and {id:2, name:y}; table B holds
      {id:1, age:10} and {id:3, age:30}. Joining B into A gives age 10 to the
      first record, leaves the second alone and adds no record for id 3. */
  lemma JoinExample()
    ensures
      var a := [Record(Instance("id", "1"), [Instance("id", "1"), Instance("name", "x")]),
                Record(Instance("id", "2"), [Instance("id", "2"), Instance("name", "y")])];
      var b := [Record(Instance("id", "1"), [Instance("id", "1"), Instance("age", "10")]),
                Record(Instance("id", "3"), [Instance("id", "3"), Instance("age", "30")])];
      Joined(a, b, "id") ==
        [Record(Instance("id", "1"), [Instance("id", "1"), Instance("name", "x"), Instance("age", "10")]),
         Record(Instance("id", "2"), [Instance("id", "2"), Instance("name", "y")])]
  {
    var a := [Record(Instance("id", "1"), [Instance("id", "1"), Instance("name", "x")]),
              Record(Instance("id", "2"), [Instance("id", "2"), Instance("name", "y")])];
    var b := [Record(Instance("id", "1"), [Instance("id", "1"), Instance("age", "10")]),
              Record(Instance("id", "3"), [Instance("id", "3"), Instance("age", "30")])];
    var b0 := b[0].instances;
    assert b[..1] == [b[0]] && b[..1][..0] == [];
    assert b0[..1] == [b0[0]] && b0[..1][..0] == [];
    assert NonKey(b0[..1], "id") == [];
    assert NonKey(b0, "id") == [Instance("age", "10")];
    assert Gather(b, "1", "id") == [Instance("age", "10")];
    assert "1" != "2" && "3" != "2";
    assert Gather(b[..1], "2", "id") == [];
    assert Gather(b, "2", "id") == [];
    var out := Joined(a, b, "id");
    assert out[0] == Record(Instance("id", "1"), [Instance("id", "1"), Instance("name", "x"), Instance("age", "10")]);
    assert out[1] == a[1];
  }
}
