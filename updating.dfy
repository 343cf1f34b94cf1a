/** What `update_record` (src/table.cpp:87-116) does to the records. */
module Updating {
  import opened Records
  import opened KeyIndex
  import opened Selection

  /** Position of the first record whose key member equals `k` (identifier
      and value), or `|rs|` when there is none. */
  function FirstWithKey(rs: seq<Record>, k: Instance): (p: nat)
    ensures p <= |rs|
    ensures p < |rs| ==> rs[p].key == k
    ensures forall q :: 0 <= q < p ==> rs[q].key != k
  {
    if rs == [] then 0
    else if rs[0].key == k then 0
    else 1 + FirstWithKey(rs[1..], k)
  }

  /** Lists with the same key members find the same first record for a key. */
  lemma {:induction false} FirstWithKeyOfSameKeys(a: seq<Record>, b: seq<Record>, k: Instance)
    requires SameKeys(a, b)
    ensures FirstWithKey(a, k) == FirstWithKey(b, k)
  {
    if a != [] && a[0].key != k {
      assert SameKeys(a[1..], b[1..]) by {
        forall q | 0 <= q < |a[1..]| ensures a[1..][q].key == b[1..][q].key {
          assert a[1..][q] == a[q + 1] && b[1..][q] == b[q + 1];
        }
      }
      FirstWithKeyOfSameKeys(a[1..], b[1..], k);
    }
  }

  /** Some record of `sel` has the key member `k`. */
  predicate Carries(sel: seq<Record>, k: Instance)
  {
    exists m :: m in sel && m.key == k
  }

  /** `rs[j]` is the record update rewrites for the selection `sel`: a selected
      copy has its key member, and it is the first live record with that key. */
  predicate IsTarget(rs: seq<Record>, sel: seq<Record>, j: int)
    requires 0 <= j < |rs|
  {
    FirstWithKey(rs, rs[j].key) == j && Carries(sel, rs[j].key)
  }

  lemma CarriesPrefix(sel: seq<Record>, i: int, k: Instance)
    requires 0 <= i < |sel|
    ensures Carries(sel[..i + 1], k) <==> Carries(sel[..i], k) || sel[i].key == k
  {
    if Carries(sel[..i], k) {
      var m :| m in sel[..i] && m.key == k;
      var q :| 0 <= q < i && sel[..i][q] == m;
      assert sel[..i + 1][q] == m;
    }
    if sel[i].key == k {
      assert sel[..i + 1][i] == sel[i];
    }
    if Carries(sel[..i + 1], k) && sel[i].key != k {
      var m :| m in sel[..i + 1] && m.key == k;
      var q :| 0 <= q < i + 1 && sel[..i + 1][q] == m;
      assert sel[..i][q] == m;
    }
  }

  /** `it->value = v` for `it` the first instance named `n`, when there is one. */
  function SetFirst(insts: seq<Instance>, n: string, v: string): (out: seq<Instance>)
    ensures SameIdentifiers(insts, out)
  {
    var p := FirstNamed(insts, n);
    if p < |insts| then insts[p := insts[p].(value := v)] else insts
  }

  /** Setting the same field to the same value twice is setting it once. */
  lemma SetFirstTwice(insts: seq<Instance>, n: string, v: string)
    ensures SetFirst(SetFirst(insts, n, v), n, v) == SetFirst(insts, n, v)
  {
    FirstNamedOfSameIdentifiers(insts, SetFirst(insts, n, v), n);
  }

  /** Every replacement (n, v) applied: the first instance named `n` takes value `v`. */
  function Replace(insts: seq<Instance>, replacements: Conditions): (out: seq<Instance>)
    ensures SameIdentifiers(insts, out)
  {
    if insts == [] then []
    else
      var i := insts[0];
      if i.identifier in replacements then
        [i.(value := replacements[i.identifier])] + Replace(insts[1..], replacements - {i.identifier})
      else
        [i] + Replace(insts[1..], replacements)
  }

  /** An empty replacement map changes nothing. */
  lemma {:induction false} ReplaceNothing(insts: seq<Instance>)
    ensures Replace(insts, map[]) == insts
  {
    if insts != [] {
      ReplaceNothing(insts[1..]);
    }
  }

  lemma SetFirstCons(i: Instance, t: seq<Instance>, n: string, v: string)
    ensures SetFirst([i] + t, n, v) ==
      if i.identifier == n then [i.(value := v)] + t else [i] + SetFirst(t, n, v)
  {
    var s := [i] + t;
    assert s[1..] == t;
    if i.identifier != n {
      assert FirstNamed(s, n) == 1 + FirstNamed(t, n);
    }
  }

  /** What replacing means, instance by instance: the identifier stays, and
      the value changes exactly at the first instance of a replaced name. */
  lemma {:induction false} ReplaceAt(insts: seq<Instance>, replacements: Conditions, q: int)
    requires 0 <= q < |insts|
    ensures var n := insts[q].identifier;
      Replace(insts, replacements)[q] ==
        if n in replacements && FirstNamed(insts, n) == q then Instance(n, replacements[n]) else insts[q]
  {
    var i, t := insts[0], insts[1..];
    var n := insts[q].identifier;
    var rest := if i.identifier in replacements then replacements - {i.identifier} else replacements;
    if q > 0 {
      ReplaceAt(t, rest, q - 1);
      assert t[q - 1] == insts[q];
      if n != i.identifier {
        assert FirstNamed(insts, n) == 1 + FirstNamed(t, n);
      }
    }
  }

  lemma ReplaceCons(i: Instance, t: seq<Instance>, replacements: Conditions)
    ensures Replace([i] + t, replacements) ==
      if i.identifier in replacements
      then [i.(value := replacements[i.identifier])] + Replace(t, replacements - {i.identifier})
      else [i] + Replace(t, replacements)
  {
    assert ([i] + t)[0] == i && ([i] + t)[1..] == t;
  }

  /** Applying one more replacement to replaced instances is replacing with the
      extended map; hence the order the replacement map is walked in is irrelevant. */
  lemma {:induction false} SetFirstReplace(insts: seq<Instance>, replacements: Conditions, n: string, v: string)
    ensures SetFirst(Replace(insts, replacements), n, v) == Replace(insts, replacements[n := v])
  {
    if insts != [] {
      var i, t := insts[0], insts[1..];
      assert insts == [i] + t;
      var id := i.identifier;
      if id == n {
        SetFirstReplaceHere(i, t, replacements, v);
      } else {
        var rest := if id in replacements then replacements - {id} else replacements;
        SetFirstReplace(t, rest, n, v);
        SetFirstReplaceLater(i, t, replacements, n, v);
      }
    }
  }

  /** The head instance is the one named `n`. */
  lemma SetFirstReplaceHere(i: Instance, t: seq<Instance>, replacements: Conditions, v: string)
    ensures SetFirst(Replace([i] + t, replacements), i.identifier, v) ==
      Replace([i] + t, replacements[i.identifier := v])
  {
    var n := i.identifier;
    var extended := replacements[n := v];
    ReplaceCons(i, t, extended);
    ReplaceCons(i, t, replacements);
    assert extended - {n} == replacements - {n};
    if n in replacements {
      SetFirstCons(i.(value := replacements[n]), Replace(t, replacements - {n}), n, v);
    } else {
      assert replacements - {n} == replacements;
      SetFirstCons(i, Replace(t, replacements), n, v);
    }
  }

  /** The head instance is not the one named `n`: the step happens in the tail. */
  lemma SetFirstReplaceLater(i: Instance, t: seq<Instance>, replacements: Conditions, n: string, v: string)
    requires i.identifier != n
    requires var rest := if i.identifier in replacements then replacements - {i.identifier} else replacements;
      SetFirst(Replace(t, rest), n, v) == Replace(t, rest[n := v])
    ensures SetFirst(Replace([i] + t, replacements), n, v) == Replace([i] + t, replacements[n := v])
  {
    var id := i.identifier;
    var extended := replacements[n := v];
    ReplaceCons(i, t, extended);
    ReplaceCons(i, t, replacements);
    if id in replacements {
      assert (replacements - {id})[n := v] == extended - {id};
      SetFirstCons(i.(value := replacements[id]), Replace(t, replacements - {id}), n, v);
    } else {
      assert id !in extended;
      SetFirstCons(i, Replace(t, replacements), n, v);
    }
  }

  /** The records after update: each target's instances replaced, every other record as it was. */
  function Updated(rs: seq<Record>, sel: seq<Record>, replacements: Conditions): (out: seq<Record>)
    ensures SameKeys(rs, out)
    ensures forall j :: 0 <= j < |rs| ==> SameIdentifiers(rs[j].instances, out[j].instances)
  {
    seq(|rs|, j requires 0 <= j < |rs| =>
      if IsTarget(rs, sel, j) then rs[j].(instances := Replace(rs[j].instances, replacements)) else rs[j])
  }

  /** A record of the list is found by its key member. */
  lemma KeyFound(rs: seq<Record>, r: Record)
    requires r in rs
    ensures FirstWithKey(rs, r.key) < |rs|
  {
    var w :| 0 <= w < |rs| && rs[w] == r;
    assert rs[w].key == r.key;
  }

  /** Walking the selection one copy further adds exactly one target: the
      first record carrying that copy's key member. */
  lemma TargetStep(rs: seq<Record>, sel: seq<Record>, i: int, j: int)
    requires 0 <= i < |sel| && 0 <= j < |rs| && sel[i] in rs
    ensures IsTarget(rs, sel[..i + 1], j) <==>
      IsTarget(rs, sel[..i], j) || j == FirstWithKey(rs, sel[i].key)
  {
    var p := FirstWithKey(rs, sel[i].key);
    KeyFound(rs, sel[i]);
    CarriesPrefix(sel, i, rs[j].key);
    if j == p {
      assert rs[j].key == sel[i].key;
    } else if sel[i].key == rs[j].key {
      assert FirstWithKey(rs, rs[j].key) == p;
    }
  }

  /** One pass of the update loop over the selection, for the single
      replacement (n, v): every target of `sel` (targets taken in `orig`) has
      its first instance named `n` set to `v`. */
  function SetTargets(rs: seq<Record>, orig: seq<Record>, sel: seq<Record>, n: string, v: string): (out: seq<Record>)
    requires |rs| == |orig|
    ensures SameKeys(rs, out)
    ensures forall j :: 0 <= j < |rs| ==> SameIdentifiers(rs[j].instances, out[j].instances)
  {
    seq(|rs|, j requires 0 <= j < |rs| =>
      if IsTarget(orig, sel, j) then rs[j].(instances := SetFirst(rs[j].instances, n, v)) else rs[j])
  }

  /** Taking one more selected copy sets the field in one more record: the
      first with that copy's key member (setting it twice is harmless). */
  lemma SetTargetsStep(rs: seq<Record>, orig: seq<Record>, sel: seq<Record>, i: int, n: string, v: string)
    requires |rs| == |orig| && 0 <= i < |sel| && sel[i] in orig
    ensures FirstWithKey(orig, sel[i].key) < |orig|
    ensures var rt := FirstWithKey(orig, sel[i].key);
      var cur := SetTargets(rs, orig, sel[..i], n, v);
      SetTargets(rs, orig, sel[..i + 1], n, v) ==
        cur[rt := cur[rt].(instances := SetFirst(cur[rt].instances, n, v))]
  {
    var rt := FirstWithKey(orig, sel[i].key);
    KeyFound(orig, sel[i]);
    var cur := SetTargets(rs, orig, sel[..i], n, v);
    var next := SetTargets(rs, orig, sel[..i + 1], n, v);
    forall j | 0 <= j < |rs|
      ensures next[j] == cur[rt := cur[rt].(instances := SetFirst(cur[rt].instances, n, v))][j]
    {
      TargetStep(orig, sel, i, j);
      if j == rt {
        SetFirstTwice(rs[j].instances, n, v);
      }
    }
  }

  /** A full pass for (n, v) over the records updated with `done` gives the
      records updated with `done` extended by (n, v). */
  lemma SetTargetsUpdated(orig: seq<Record>, sel: seq<Record>, done: Conditions, n: string, v: string)
    ensures SetTargets(Updated(orig, sel, done), orig, sel, n, v) == Updated(orig, sel, done[n := v])
  {
    var lhs := SetTargets(Updated(orig, sel, done), orig, sel, n, v);
    forall j | 0 <= j < |orig| ensures lhs[j] == Updated(orig, sel, done[n := v])[j] {
      if IsTarget(orig, sel, j) {
        SetFirstReplace(orig[j].instances, done, n, v);
      }
    }
  }

  /** Before the pass nothing is set. */
  lemma SetTargetsNone(rs: seq<Record>, orig: seq<Record>, sel: seq<Record>, n: string, v: string)
    requires |rs| == |orig|
    ensures SetTargets(rs, orig, sel[..0], n, v) == rs
  {
    assert sel[..0] == [];
  }

  /** The source dereferences `find_if`'s result at src/table.cpp:107-111: on the
      path that reaches the update loop, every target must hold an instance for
      every name of the (extended) replacement map. */
  predicate UpdateDefined(key: string, rs: seq<Record>, index: set<string>,
                          conditions: Conditions, replacements: Conditions)
  {
    var sel := Select(key, rs, index, conditions).0;
    var (v, extended) := Subscript(replacements, key);
    sel != [] && !(v != "" && v in index) ==>
      forall j, n :: 0 <= j < |rs| && IsTarget(rs, sel, j) && n in extended ==>
        FirstNamed(rs[j].instances, n) < |rs[j].instances|
  }

  /** With unique key values, the targets of a selection are exactly the matching records. */
  lemma TargetsAreMatches(rs: seq<Record>, conditions: Conditions, j: int)
    requires UniqueKeys(rs) && 0 <= j < |rs|
    ensures IsTarget(rs, Filter(rs, conditions), j) <==> Matches(rs[j], conditions)
  {
    var sel := Filter(rs, conditions);
    var p := FirstWithKey(rs, rs[j].key);
    assert forall q :: 0 <= q < j ==> rs[q].key != rs[j].key;
    assert p == j;
    if Matches(rs[j], conditions) {
      FilterComplete(rs, conditions, rs[j]);
    }
    if exists m :: m in sel && m.key == rs[j].key {
      var m :| m in sel && m.key == rs[j].key;
      var i :| 0 <= i < |rs| && rs[i] == m;
      assert rs[i].key.value == rs[j].key.value;
      assert i == j;
    }
  }

  /** With unique key values, update rewrites precisely the matching records:
      in each, the first instance of every replaced name takes its new value,
      and nothing else changes. */
  lemma UpdatedMatching(rs: seq<Record>, conditions: Conditions, replacements: Conditions, j: int, q: int)
    requires UniqueKeys(rs) && 0 <= j < |rs|
    ensures var out := Updated(rs, Filter(rs, conditions), replacements);
      out[j].key == rs[j].key &&
      (!Matches(rs[j], conditions) ==> out[j] == rs[j]) &&
      (Matches(rs[j], conditions) && 0 <= q < |rs[j].instances| ==>
        var n := rs[j].instances[q].identifier;
        out[j].instances[q] ==
          if n in replacements && FirstNamed(rs[j].instances, n) == q
          then Instance(n, replacements[n]) else rs[j].instances[q])
  {
    TargetsAreMatches(rs, conditions, j);
    if Matches(rs[j], conditions) && 0 <= q < |rs[j].instances| {
      ReplaceAt(rs[j].instances, replacements, q);
    }
  }
}
