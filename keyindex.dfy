/** The uniqueness index `hashed_keys` and the invariant tying it to the records. */
module KeyIndex {
  import opened Records

  /** The key values present in a record list. */
  function KeyValues(rs: seq<Record>): (vs: set<string>)
  {
    set r | r in rs :: r.key.value
  }

  /** No two records share a key value. */
  predicate UniqueKeys(rs: seq<Record>)
  {
    forall i, j :: 0 <= i < j < |rs| ==> rs[i].key.value != rs[j].key.value
  }

  /** Every record's key field carries the table's key-field name. */
  predicate KeysNamed(key: string, rs: seq<Record>)
  {
    forall r :: r in rs ==> r.key.identifier == key
  }

  /** The table invariant: the index is exactly the set of key values, each
      held by one record, and every key field is named `key`. */
  predicate IndexValid(key: string, rs: seq<Record>, index: set<string>)
  {
    index == KeyValues(rs) && UniqueKeys(rs) && KeysNamed(key, rs)
  }

  /** Pointwise equal key members. */
  predicate SameKeys(a: seq<Record>, b: seq<Record>)
  {
    |a| == |b| && forall i :: 0 <= i < |a| ==> a[i].key == b[i].key
  }

  lemma KeyValuesCons(r: Record, t: seq<Record>)
    ensures KeyValues([r] + t) == {r.key.value} + KeyValues(t)
  {
    forall v | v in KeyValues(t) ensures v in KeyValues([r] + t) {
      var x :| x in t && x.key.value == v;
      assert x in [r] + t;
    }
  }

  lemma KeyValuesAppend(rs: seq<Record>, r: Record)
    ensures KeyValues(rs + [r]) == KeyValues(rs) + {r.key.value}
  {
    assert r in rs + [r];
    forall v | v in KeyValues(rs) ensures v in KeyValues(rs + [r]) {
      var x :| x in rs && x.key.value == v;
      assert x in rs + [r];
    }
  }

  /** Uniqueness of a list with a head: the head's value is new and the tail is unique. */
  lemma UniqueCons(r: Record, t: seq<Record>)
    ensures UniqueKeys([r] + t) <==> r.key.value !in KeyValues(t) && UniqueKeys(t)
  {
    var s := [r] + t;
    if UniqueKeys(s) {
      forall x | x in t ensures x.key.value != r.key.value {
        var j :| 0 <= j < |t| && t[j] == x;
        assert s[0] == r && s[j + 1] == x;
        assert s[0].key.value != s[j + 1].key.value;
      }
      forall i, j | 0 <= i < j < |t| ensures t[i].key.value != t[j].key.value {
        assert s[i + 1] == t[i] && s[j + 1] == t[j];
      }
    }
    if r.key.value !in KeyValues(t) && UniqueKeys(t) {
      forall i, j | 0 <= i < j < |s| ensures s[i].key.value != s[j].key.value {
        if i == 0 {
          assert s[j] == t[j - 1] && s[j] in t;
        } else {
          assert s[i] == t[i - 1] && s[j] == t[j - 1];
        }
      }
    }
  }

  /** With unique key values there are as many values as records; so in a
      valid table `count()` equals the size of the index. */
  lemma {:induction false} KeyCount(rs: seq<Record>)
    ensures UniqueKeys(rs) ==> |KeyValues(rs)| == |rs|
  {
    if rs == [] {
      assert KeyValues(rs) == {};
    } else {
      var r, t := rs[0], rs[1..];
      assert rs == [r] + t;
      UniqueCons(r, t);
      KeyValuesCons(r, t);
      KeyCount(t);
    }
  }

  /** Appending a record whose key is named `key` and whose value is not
      indexed, while indexing that value, keeps the invariant. */
  lemma InsertKeepsIndex(key: string, rs: seq<Record>, index: set<string>, r: Record)
    requires IndexValid(key, rs, index)
    requires r.key.identifier == key && r.key.value !in index
    ensures IndexValid(key, rs + [r], index + {r.key.value})
  {
    KeyValuesAppend(rs, r);
    var s := rs + [r];
    forall i, j | 0 <= i < j < |s| ensures s[i].key.value != s[j].key.value {
      if j == |rs| {
        assert s[i] == rs[i] && s[i] in rs;
      } else {
        assert s[i] == rs[i] && s[j] == rs[j];
      }
    }
  }

  /** Appending records without touching the index, as `operator=` does,
      always breaks a valid table, whatever its key name: the first appended value is either missing
      from the index or already held by an earlier record. */
  lemma AppendBreaksIndex(rs: seq<Record>, index: set<string>, more: seq<Record>)
    requires index == KeyValues(rs) && UniqueKeys(rs)
    requires more != []
    ensures index != KeyValues(rs + more) || !UniqueKeys(rs + more)
  {
    var s := rs + more;
    var v := more[0].key.value;
    assert s[|rs|] == more[0] && s[|rs|] in s;
    if v in index {
      var x :| x in rs && x.key.value == v;
      var i :| 0 <= i < |rs| && rs[i] == x;
      assert s[i] == rs[i];
      assert !UniqueKeys(s);
    } else {
      assert v in KeyValues(s);
    }
  }

  /** Changing anything but the key members keeps the invariant. */
  lemma SameKeysKeepIndex(key: string, a: seq<Record>, b: seq<Record>, index: set<string>)
    requires SameKeys(a, b)
    requires IndexValid(key, a, index)
    ensures IndexValid(key, b, index)
  {
    forall v | v in KeyValues(a) ensures v in KeyValues(b) {
      var x :| x in a && x.key.value == v;
      var i :| 0 <= i < |a| && a[i] == x;
      assert b[i] in b;
    }
    forall v | v in KeyValues(b) ensures v in KeyValues(a) {
      var x :| x in b && x.key.value == v;
      var i :| 0 <= i < |b| && b[i] == x;
      assert a[i] in a;
    }
    forall i, j | 0 <= i < j < |b| ensures b[i].key.value != b[j].key.value {
      assert a[i].key == b[i].key && a[j].key == b[j].key;
    }
    forall r | r in b ensures r.key.identifier == key {
      var i :| 0 <= i < |b| && b[i] == r;
      assert a[i] in a;
    }
  }
}
