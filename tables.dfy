/** The `keilo::table` class (src/table.cpp): a named record store with a key
    field and the index `hashed_keys` of the key values in use. Every method
    states its outcome and the new state as the functions of the other
    modules applied to the old state. */
module Tables {
  import opened Keilo
  import opened Records
  import opened KeyIndex
  import opened Selection
  import opened Updating
  import opened Removal
  import opened Joining
  import opened Sorting

  class Table {
    var name: string
    var key: string
    var records: seq<Record>
    var hashedKeys: set<string>

    /** The table invariant: the index is exactly the key values of the
        records, no value is held twice, and every key field is named `key`. */
    ghost predicate Valid()
      reads this
    {
      IndexValid(key, records, hashedKeys)
    }

    /** `table(table_name, key)`: an empty table. */
    constructor(tableName: string, tableKey: string)
      ensures name == tableName && key == tableKey
      ensures records == [] && hashedKeys == {}
      ensures Valid()
    {
      name := tableName;
      key := tableKey;
      records := [];
      hashedKeys := {};
    }

    /** `table(table_name, key, instances)`: the records are taken as given
        and the index starts empty. */
    constructor WithRecords(tableName: string, tableKey: string, instances: seq<Record>)
      ensures name == tableName && key == tableKey
      ensures records == instances && hashedKeys == {}
    {
      name := tableName;
      key := tableKey;
      records := instances;
      hashedKeys := {};
    }

    /** The copy constructor: a default table assigned from `other`. */
    constructor Copy(other: Table)
      ensures name == other.name && key == other.key
      ensures records == other.records && hashedKeys == {}
    {
      name := "";
      key := "";
      records := [];
      hashedKeys := {};
      new;
      Assign(other);
    }

    /** `operator=`: copies the name and the key, appends the records of
        `other` one by one to the records already held, and leaves the index
        as it was. Self-assignment ends only when there is nothing to walk. */
    method Assign(other: Table)
      requires other != this || records == []
      modifies this
      ensures name == other.name && key == other.key
      ensures records == old(records) + old(other.records)
      ensures hashedKeys == old(hashedKeys)
      ensures old(Valid()) && old(other.records) != [] ==> !Valid()
    {
      ghost var wasValid := Valid();
      ghost var before := records;
      ghost var added := other.records;
      name := other.name;
      key := other.key;
      var i := 0;
      while i < |other.records|
        invariant 0 <= i <= |other.records|
        invariant other == this ==> i == 0 && records == []
        invariant other.records == added
        invariant name == other.name && key == other.key
        invariant records == before + added[..i]
        invariant hashedKeys == old(hashedKeys)
      {
        records := records + [other.records[i]];
        i := i + 1;
      }
      assert added[..i] == added;
      if wasValid && added != [] {
        AppendBreaksIndex(before, hashedKeys, added);
      }
    }

    /** `insert_record`: refused when the record's key field is not named
        `key` or its value is already indexed; otherwise the record goes to
        the end and its value into the index. */
    method InsertRecord(record: Record) returns (res: ResultT)
      modifies this
      ensures name == old(name) && key == old(key)
      ensures record.key.identifier != key ==>
        res == KeyNotExist && records == old(records) && hashedKeys == old(hashedKeys)
      ensures record.key.identifier == key && record.key.value in old(hashedKeys) ==>
        res == KeyOverlapped && records == old(records) && hashedKeys == old(hashedKeys)
      ensures record.key.identifier == key && record.key.value !in old(hashedKeys) ==>
        res == Success && records == old(records) + [record] &&
        hashedKeys == old(hashedKeys) + {record.key.value}
      ensures old(Valid()) ==> Valid()
    {
      if record.key.identifier != key {
        return KeyNotExist;
      }
      if record.key.value in hashedKeys {
        return KeyOverlapped;
      }
      ghost var valid := Valid();
      if valid {
        InsertKeepsIndex(key, records, hashedKeys, record);
      }
      hashedKeys := hashedKeys + {record.key.value};
      records := records + [record];
      return Success;
    }

    /** `select_record`: the map `conditions` comes back with `key` added
        (mapped to "" when it was absent); the records are the ones `Select`
        specifies. */
    method SelectRecord(conditions: Conditions) returns (selected: seq<Record>, extended: Conditions)
      ensures (selected, extended) == Select(key, records, hashedKeys, conditions)
    {
      var sub := Subscript(conditions, key);
      extended := sub.1;
      if sub.0 != "" && sub.0 !in hashedKeys {
        return [], extended;
      }
      var dump := records;
      selected := [];
      while true
        invariant selected + Filter(dump, extended) == Filter(records, extended)
        decreases |dump|
      {
        var found, at := FindMatch(dump, extended);
        if !found {
          FilterNone(dump, extended);
          assert selected + [] == selected;
          break;
        }
        FilterAtFirstMatch(dump, extended, at);
        selected := selected + [dump[at]];
        dump := dump[..at] + dump[at + 1..];
      }
    }

    /** `update_record`: select with `conditions`; nothing found gives
        `CannotFind`. Otherwise `replacements` gains `key` (mapped to "" when
        absent), a non-empty replacement key value already indexed gives
        `KeyOverlapped`, and else every target record has the first instance
        of each replaced name set to its new value. Key members and the index
        are never touched. */
    method UpdateRecord(conditions: Conditions, replacements: Conditions)
      returns (res: ResultT, conditionsOut: Conditions, replacementsOut: Conditions)
      requires UpdateDefined(key, records, hashedKeys, conditions, replacements)
      modifies this
      ensures name == old(name) && key == old(key) && hashedKeys == old(hashedKeys)
      ensures var (sel, c) := Select(key, old(records), hashedKeys, conditions);
        var (v, extended) := Subscript(replacements, key);
        conditionsOut == c &&
        (sel == [] ==>
          res == CannotFind && records == old(records) && replacementsOut == replacements) &&
        (sel != [] && v != "" && v in hashedKeys ==>
          res == KeyOverlapped && records == old(records) && replacementsOut == extended) &&
        (sel != [] && (v == "" || v !in hashedKeys) ==>
          res == Success && records == Updated(old(records), sel, extended) && replacementsOut == extended)
      ensures old(Valid()) ==> Valid()
    {
      ghost var valid := Valid();
      var toUpdate;
      toUpdate, conditionsOut := SelectRecord(conditions);
      if toUpdate == [] {
        return CannotFind, conditionsOut, replacements;
      }
      var sub := Subscript(replacements, key);
      replacementsOut := sub.1;
      if sub.0 != "" && sub.0 in hashedKeys {
        return KeyOverlapped, conditionsOut, replacementsOut;
      }
      ghost var orig := records;
      ApplyAll(orig, toUpdate, replacementsOut);
      if valid {
        SameKeysKeepIndex(key, orig, records, hashedKeys);
      }
      return Success, conditionsOut, replacementsOut;
    }

    /** The outer loop of `update_record` (src/table.cpp:100-113), over the
        replacement map. `std::map` walks its keys in order; any order gives
        the same records (see `SetFirstReplace`). */
    method ApplyAll(ghost orig: seq<Record>, toUpdate: seq<Record>, replacements: Conditions)
      requires records == orig
      requires forall m :: m in toUpdate ==> m in orig
      requires forall j, n :: 0 <= j < |orig| && IsTarget(orig, toUpdate, j) && n in replacements ==>
        FirstNamed(orig[j].instances, n) < |orig[j].instances|
      modifies this
      ensures records == Updated(orig, toUpdate, replacements)
      ensures name == old(name) && key == old(key) && hashedKeys == old(hashedKeys)
    {
      ghost var done: Conditions := map[];
      forall j | 0 <= j < |orig| ensures Updated(orig, toUpdate, done)[j] == orig[j] {
        ReplaceNothing(orig[j].instances);
      }
      var todo := replacements.Keys;
      while todo != {}
        invariant todo <= replacements.Keys
        invariant done.Keys == replacements.Keys - todo
        invariant forall n :: n in done ==> done[n] == replacements[n]
        invariant records == Updated(orig, toUpdate, done)
        invariant name == old(name) && key == old(key) && hashedKeys == old(hashedKeys)
        decreases todo
      {
        var n :| n in todo;
        ApplyReplacement(orig, done, toUpdate, n, replacements[n]);
        done := done[n := replacements[n]];
        todo := todo - {n};
      }
      assert done == replacements;
    }

    /** One pass of the outer loop of `update_record` (src/table.cpp:101-112):
        for every selected copy, the first live record with its key member
        has its first instance named `n` set to `v`. */
    method ApplyReplacement(ghost orig: seq<Record>, ghost done: Conditions,
                            toUpdate: seq<Record>, n: string, v: string)
      requires records == Updated(orig, toUpdate, done)
      requires forall m :: m in toUpdate ==> m in orig
      requires forall j :: 0 <= j < |orig| && IsTarget(orig, toUpdate, j) ==>
        FirstNamed(orig[j].instances, n) < |orig[j].instances|
      modifies this
      ensures records == Updated(orig, toUpdate, done[n := v])
      ensures name == old(name) && key == old(key) && hashedKeys == old(hashedKeys)
    {
      ghost var before := records;
      SetTargetsNone(before, orig, toUpdate, n, v);
      var i := 0;
      while i < |toUpdate|
        invariant 0 <= i <= |toUpdate|
        invariant records == SetTargets(before, orig, toUpdate[..i], n, v)
        invariant name == old(name) && key == old(key) && hashedKeys == old(hashedKeys)
      {
        ApplyToOne(before, orig, toUpdate, i, n, v);
        i := i + 1;
      }
      assert toUpdate[..i] == toUpdate;
      SetTargetsUpdated(orig, toUpdate, done, n, v);
    }

    /** The body of the inner loop of `update_record` for the selected copy
        `toUpdate[i]`: find the first live record with its key member, then in
        it the first instance named `n`, and set that instance's value. */
    method ApplyToOne(ghost before: seq<Record>, ghost orig: seq<Record>,
                      toUpdate: seq<Record>, i: int, n: string, v: string)
      requires 0 <= i < |toUpdate| && toUpdate[i] in orig
      requires |before| == |orig| && SameKeys(orig, before)
      requires forall j :: 0 <= j < |orig| ==> SameIdentifiers(orig[j].instances, before[j].instances)
      requires forall j :: 0 <= j < |orig| && IsTarget(orig, toUpdate, j) ==>
        FirstNamed(orig[j].instances, n) < |orig[j].instances|
      requires records == SetTargets(before, orig, toUpdate[..i], n, v)
      modifies this
      ensures records == SetTargets(before, orig, toUpdate[..i + 1], n, v)
      ensures name == old(name) && key == old(key) && hashedKeys == old(hashedKeys)
    {
      var be := toUpdate[i];
      var rt := FirstWithKey(records, be.key);
      SetTargetsStep(before, orig, toUpdate, i, n, v);
      assert rt == FirstWithKey(orig, be.key) by {
        FirstWithKeyOfSameKeys(records, orig, be.key);
      }
      var insts := records[rt].instances;
      assert FirstNamed(insts, n) < |insts| by {
        assert IsTarget(orig, toUpdate, rt) by {
          assert orig[rt].key == be.key && be in toUpdate;
        }
        FirstNamedOfSameIdentifiers(orig[rt].instances, before[rt].instances, n);
        FirstNamedOfSameIdentifiers(before[rt].instances, insts, n);
      }
      var it := FirstNamed(insts, n);
      records := records[rt := records[rt].(instances := insts[it := insts[it].(value := v)])];
    }

    /** `remove_record`: select with `conditions`; nothing found gives
        `CannotFind`; otherwise each selected copy in turn erases the first
        live record with its key value and drops that value from the index. */
    method RemoveRecord(conditions: Conditions) returns (res: ResultT, conditionsOut: Conditions)
      modifies this
      ensures name == old(name) && key == old(key)
      ensures var (sel, c) := Select(key, old(records), old(hashedKeys), conditions);
        conditionsOut == c &&
        (sel == [] ==>
          res == CannotFind && records == old(records) && hashedKeys == old(hashedKeys)) &&
        (sel != [] ==>
          res == Success && (records, hashedKeys) == RemoveAll(old(records), old(hashedKeys), sel))
      ensures old(Valid()) && res == Success ==>
        Valid() && records == Reject(old(records), conditionsOut) &&
        |records| == |old(records)| - |Filter(old(records), conditionsOut)|
    {
      ghost var valid := Valid();
      var selected;
      selected, conditionsOut := SelectRecord(conditions);
      if selected == [] {
        return CannotFind, conditionsOut;
      }
      // The second look-up of the key condition (src/table.cpp:126-127)
      // cannot fail here: select has passed the same test.
      var sub := Subscript(conditionsOut, key);
      assert sub.0 == "" || sub.0 in hashedKeys;
      EraseSelected(selected);
      if valid {
        RemoveKeepsIndex(key, old(records), old(hashedKeys), conditionsOut);
      }
      return Success, conditionsOut;
    }

    /** The loop of `remove_record` (src/table.cpp:129-142). */
    method EraseSelected(selected: seq<Record>)
      modifies this
      ensures (records, hashedKeys) == RemoveAll(old(records), old(hashedKeys), selected)
      ensures name == old(name) && key == old(key)
    {
      var i := 0;
      while i < |selected|
        invariant 0 <= i <= |selected|
        invariant RemoveAll(records, hashedKeys, selected[i..]) ==
          RemoveAll(old(records), old(hashedKeys), selected)
        invariant name == old(name) && key == old(key)
      {
        var v := selected[i].key.value;
        var it := FirstWithValue(records, v);
        RemoveAllStep(records, hashedKeys, selected, i);
        if it < |records| {
          hashedKeys := hashedKeys - {v};
          records := records[..it] + records[it + 1..];
        }
        i := i + 1;
      }
      assert selected[i..] == [];
    }

    /** `join`: a new table named `name + '+' + other.name` with this table's
        key, whose records are this table's records, each followed by the
        instances of matching records of `other` (see `Joined`). Neither table
        changes, and the new table's index is empty. */
    method Join(other: Table) returns (joined: Table)
      ensures fresh(joined)
      ensures joined.name == name + "+" + other.name && joined.key == key
      ensures joined.records == Joined(records, other.records, key)
      ensures joined.hashedKeys == {}
    {
      var out := records;
      var right := other.records;
      var i := 0;
      while i < |out|
        invariant 0 <= i <= |out| && |out| == |records|
        invariant forall q :: 0 <= q < i ==> out[q] == Joined(records, right, key)[q]
        invariant forall q :: i <= q < |out| ==> out[q] == records[q]
      {
        var cur := JoinRecord(out[i], right, key);
        out := out[i := cur];
        i := i + 1;
      }
      assert out == Joined(records, right, key);
      joined := new Table.WithRecords(name + "+" + other.name, key, out);
    }

    /** The two inner loops of `join` for one left record (src/table.cpp:29-33). */
    static method JoinRecord(origin: Record, right: seq<Record>, key: string) returns (cur: Record)
      ensures cur == origin.(instances := origin.instances + Gather(right, origin.key.value, key))
    {
      cur := origin;
      var j := 0;
      while j < |right|
        invariant 0 <= j <= |right|
        invariant cur.key == origin.key
        invariant cur.instances == origin.instances + Gather(right[..j], origin.key.value, key)
      {
        ghost var before := cur.instances;
        cur := AppendMatching(cur, right[j], key);
        GatherPrefix(right, j, origin.key.value, key);
        assert cur.instances == origin.instances + Gather(right[..j + 1], origin.key.value, key) by {
          var added := if right[j].key.value == origin.key.value then NonKey(right[j].instances, key) else [];
          assert cur.instances == before + added;
          assert (origin.instances + Gather(right[..j], origin.key.value, key)) + added ==
            origin.instances + (Gather(right[..j], origin.key.value, key) + added);
        }
        j := j + 1;
      }
      assert right[..j] == right;
    }

    /** The innermost loop of `join`: when the key values agree, every
        instance of `otherRecord` not named `key` is appended to `cur`, in order. */
    static method AppendMatching(cur: Record, otherRecord: Record, key: string) returns (out: Record)
      ensures out.key == cur.key
      ensures out.instances == cur.instances +
        if otherRecord.key.value == cur.key.value then NonKey(otherRecord.instances, key) else []
    {
      var insts := otherRecord.instances;
      var matching := otherRecord.key.value == cur.key.value;
      var added: seq<Instance> := [];
      var k := 0;
      while k < |insts|
        invariant 0 <= k <= |insts|
        invariant added == if matching then NonKey(insts[..k], key) else []
      {
        NonKeyPrefix(insts, k, key);
        if key != insts[k].identifier && matching {
          added := added + [insts[k]];
        }
        k := k + 1;
      }
      assert insts[..k] == insts;
      out := cur.(instances := cur.instances + added);
    }

    /** `sort(order)`: a stable sort on key values, ascending when `order`
        holds and descending otherwise. */
    method Sort(order: bool)
      modifies this
      ensures records == SortBy(old(records), ByKey, order)
      ensures name == old(name) && key == old(key) && hashedKeys == old(hashedKeys)
      ensures old(Valid()) ==> Valid()
    {
      if Valid() {
        SortKeepsIndex(key, records, hashedKeys, ByKey, order);
      }
      records := SortBy(records, ByKey, order);
    }

    /** `sort(sort_key, order)`: a stable sort on each record's first
        instance named `sortKey`. The comparator dereferences that instance,
        so every record must have one once there are two records to compare. */
    method SortByField(sortKey: string, order: bool)
      requires |records| >= 2 ==>
        forall r :: r in records ==> FirstNamed(r.instances, sortKey) < |r.instances|
      modifies this
      ensures records == SortBy(old(records), ByField(sortKey), order)
      ensures name == old(name) && key == old(key) && hashedKeys == old(hashedKeys)
      ensures old(Valid()) ==> Valid()
    {
      if Valid() {
        SortKeepsIndex(key, records, hashedKeys, ByField(sortKey), order);
      }
      records := SortBy(records, ByField(sortKey), order);
    }

    /** `get_records`: a copy of the records, in table order. */
    function GetRecords(): (rs: seq<Record>)
      reads this
      ensures Valid() ==> KeysNamed(key, rs) && KeyValues(rs) == hashedKeys
    {
      records
    }

    /** `count`: the number of records; in a valid table, the size of the index. */
    function Count(): (c: nat)
      reads this
      ensures Valid() ==> c == |hashedKeys|
    {
      KeyCount(records);
      |records|
    }

    /** `get_key`. */
    function GetKey(): (k: string)
      reads this
    {
      key
    }

    /** `get_name`. */
    function GetName(): (n: string)
      reads this
    {
      name
    }

    /** The outer `find_if` of `select_record`: the first record meeting
        every condition. */
    static method FindMatch(rs: seq<Record>, conditions: Conditions) returns (found: bool, at: nat)
      ensures found ==> at < |rs| && Matches(rs[at], conditions)
      ensures found ==> forall q :: 0 <= q < at ==> !Matches(rs[q], conditions)
      ensures !found ==> forall q :: 0 <= q < |rs| ==> !Matches(rs[q], conditions)
    {
      at := 0;
      while at < |rs|
        invariant at <= |rs|
        invariant forall q :: 0 <= q < at ==> !Matches(rs[q], conditions)
      {
        var ok := RecordMatches(rs[at], conditions);
        if ok {
          return true, at;
        }
        at := at + 1;
      }
      return false, at;
    }

    /** The predicate handed to that `find_if`: every condition is found
        among the record's instances; the walk stops at the first miss. */
    static method RecordMatches(r: Record, conditions: Conditions) returns (found: bool)
      ensures found == Matches(r, conditions)
    {
      found := true;
      var todo := conditions.Keys;
      while todo != {}
        invariant todo <= conditions.Keys
        invariant forall n :: n in conditions && n !in todo ==> Instance(n, conditions[n]) in r.instances
        decreases todo
      {
        var n :| n in todo;
        var has := HasInstance(r.instances, Instance(n, conditions[n]));
        if !has {
          found := false;
          break;
        }
        todo := todo - {n};
      }
    }

    /** The inner `find_if`: whether an instance equal to `wanted` is present. */
    static method HasInstance(insts: seq<Instance>, wanted: Instance) returns (found: bool)
      ensures found == (wanted in insts)
    {
      var i := 0;
      while i < |insts|
        invariant i <= |insts|
        invariant wanted !in insts[..i]
      {
        if insts[i] == wanted {
          return true;
        }
        i := i + 1;
      }
      assert insts[..i] == insts;
      return false;
    }
  }
}
