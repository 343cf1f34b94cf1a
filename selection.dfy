/** Condition matching and `select_record` (src/table.cpp:38-72) as functions. */
module Selection {
  import opened Records

  /** A record satisfies a condition map when, for every pair (n, v) in it,
      one of its instances equals (n, v). The key member is not looked at. */
  predicate Matches(r: Record, conditions: Conditions)
  {
    forall n :: n in conditions ==> Instance(n, conditions[n]) in r.instances
  }

  /** Matching reads only the instance list, never the key member. */
  lemma MatchesIgnoresKey(r: Record, k: Instance, conditions: Conditions)
    ensures Matches(r.(key := k), conditions) <==> Matches(r, conditions)
  {
  }

  /** The matching records, in table order. */
  function Filter(rs: seq<Record>, conditions: Conditions): (out: seq<Record>)
    ensures |out| <= |rs|
    ensures forall r :: r in out ==> r in rs && Matches(r, conditions)
  {
    if rs == [] then []
    else (if Matches(rs[0], conditions) then [rs[0]] else []) + Filter(rs[1..], conditions)
  }

  /** The records that do not match, in table order. */
  function Reject(rs: seq<Record>, conditions: Conditions): (out: seq<Record>)
    ensures |out| + |Filter(rs, conditions)| == |rs|
    ensures forall r :: r in out ==> r in rs && !Matches(r, conditions)
  {
    if rs == [] then []
    else (if Matches(rs[0], conditions) then [] else [rs[0]]) + Reject(rs[1..], conditions)
  }

  lemma FilterCons(r: Record, t: seq<Record>, conditions: Conditions)
    ensures Filter([r] + t, conditions) == (if Matches(r, conditions) then [r] else []) + Filter(t, conditions)
    ensures Reject([r] + t, conditions) == (if Matches(r, conditions) then [] else [r]) + Reject(t, conditions)
  {
    assert ([r] + t)[0] == r && ([r] + t)[1..] == t;
  }

  /** No matching record is left out of the filter. */
  lemma {:induction false} FilterComplete(rs: seq<Record>, conditions: Conditions, r: Record)
    requires r in rs && Matches(r, conditions)
    ensures r in Filter(rs, conditions)
  {
    if rs[0] != r {
      FilterComplete(rs[1..], conditions, r);
    }
  }

  lemma {:induction false} FilterConcat(a: seq<Record>, b: seq<Record>, conditions: Conditions)
    ensures Filter(a + b, conditions) == Filter(a, conditions) + Filter(b, conditions)
  {
    if a == [] {
      assert a + b == b;
    } else {
      assert (a + b)[0] == a[0];
      assert (a + b)[1..] == a[1..] + b;
      FilterConcat(a[1..], b, conditions);
    }
  }

  /** A list none of whose records matches filters to nothing. */
  lemma {:induction false} FilterNone(rs: seq<Record>, conditions: Conditions)
    requires forall k :: 0 <= k < |rs| ==> !Matches(rs[k], conditions)
    ensures Filter(rs, conditions) == []
  {
    if rs != [] {
      FilterNone(rs[1..], conditions);
    }
  }

  /** Taking out the first match `rs[j]` leaves the rest of the filter. */
  lemma FilterAtFirstMatch(rs: seq<Record>, conditions: Conditions, j: nat)
    requires j < |rs| && Matches(rs[j], conditions)
    requires forall k :: 0 <= k < j ==> !Matches(rs[k], conditions)
    ensures Filter(rs, conditions) == [rs[j]] + Filter(rs[..j] + rs[j + 1..], conditions)
  {
    var pre, x, post := rs[..j], rs[j], rs[j + 1..];
    assert rs == pre + ([x] + post);
    forall k | 0 <= k < |pre| ensures !Matches(pre[k], conditions) {
      assert pre[k] == rs[k];
    }
    FilterNone(pre, conditions);
    FilterAround(pre, x, post, conditions);
  }

  /** A match right after a stretch without matches heads the filter. */
  lemma FilterAround(pre: seq<Record>, x: Record, post: seq<Record>, conditions: Conditions)
    requires Filter(pre, conditions) == [] && Matches(x, conditions)
    ensures Filter(pre + ([x] + post), conditions) == [x] + Filter(pre + post, conditions)
  {
    var rest := Filter(post, conditions);
    FilterConcat(pre, [x] + post, conditions);
    FilterCons(x, post, conditions);
    FilterConcat(pre, post, conditions);
    assert [] + rest == rest;
    assert [] + ([x] + rest) == [x] + rest;
  }

  /** The empty condition map keeps every record. */
  lemma {:induction false} FilterNoConditions(rs: seq<Record>)
    ensures Filter(rs, map[]) == rs
  {
    if rs != [] {
      FilterNoConditions(rs[1..]);
    }
  }

  /** AND semantics: conditions on disjoint names can be applied one after the other. */
  lemma {:induction false} FilterConjunction(rs: seq<Record>, a: Conditions, b: Conditions)
    requires a.Keys !! b.Keys
    ensures Filter(rs, a + b) == Filter(Filter(rs, a), b)
  {
    if rs != [] {
      var r := rs[0];
      assert Matches(r, a + b) <==> Matches(r, a) && Matches(r, b) by {
        if Matches(r, a) && Matches(r, b) {
          forall n | n in a + b ensures Instance(n, (a + b)[n]) in r.instances {
            if n in b {
              assert (a + b)[n] == b[n];
            } else {
              assert (a + b)[n] == a[n];
            }
          }
        }
        if Matches(r, a + b) {
          forall n | n in a ensures Instance(n, a[n]) in r.instances {
            assert n !in b && (a + b)[n] == a[n];
          }
          forall n | n in b ensures Instance(n, b[n]) in r.instances {
            assert (a + b)[n] == b[n];
          }
        }
      }
      FilterConjunction(rs[1..], a, b);
      if Matches(r, a) {
        assert Filter(rs, a) == [r] + Filter(rs[1..], a);
        assert Filter(rs, a)[1..] == Filter(rs[1..], a);
      } else {
        assert Filter(rs, a) == Filter(rs[1..], a);
      }
    }
  }

  /** Nothing that was rejected matches. */
  lemma RejectThenFilterEmpty(rs: seq<Record>, conditions: Conditions)
    ensures Filter(Reject(rs, conditions), conditions) == []
  {
    var rest := Reject(rs, conditions);
    forall k | 0 <= k < |rest| ensures !Matches(rest[k], conditions) {
      assert rest[k] in rest;
    }
    FilterNone(rest, conditions);
  }

  /** `select_record`: extend the conditions with the key name (operator[]),
      return nothing when a non-empty key condition is not indexed, and
      otherwise the records matching the extended conditions. */
  function Select(key: string, records: seq<Record>, index: set<string>, conditions: Conditions)
    : (out: (seq<Record>, Conditions))
    ensures out.1.Keys == conditions.Keys + {key}
    ensures forall n :: n in conditions ==> out.1[n] == conditions[n]
    ensures key !in conditions ==> out.1[key] == ""
    ensures out.1[key] != "" && out.1[key] !in index ==> out.0 == []
    ensures forall r :: r in out.0 ==> r in records && Matches(r, out.1)
  {
    var (v, extended) := Subscript(conditions, key);
    if v != "" && v !in index then ([], extended)
    else (Filter(records, extended), extended)
  }

  /** Outside the short-circuit, select returns exactly the matching records:
      every one of them, and (by `Filter`) in table order. */
  lemma SelectExact(key: string, records: seq<Record>, index: set<string>, conditions: Conditions, r: Record)
    requires var c := Select(key, records, index, conditions).1; c[key] == "" || c[key] in index
    ensures var (sel, c) := Select(key, records, index, conditions);
      sel == Filter(records, c) && (r in sel <==> r in records && Matches(r, c))
  {
    var c := Select(key, records, index, conditions).1;
    if r in records && Matches(r, c) {
      FilterComplete(records, c, r);
    }
  }

  /** When the caller names no key condition, the condition key -> "" that
      operator[] inserts takes part in the matching: a record is selected
      exactly when it matches the caller's conditions and also holds an
      instance named `key` with the empty value. */
  lemma SelectWithoutKey(key: string, records: seq<Record>, index: set<string>, conditions: Conditions, r: Record)
    requires key !in conditions
    ensures r in Select(key, records, index, conditions).0 <==>
      r in records && Matches(r, conditions) && Instance(key, "") in r.instances
  {
    var c := Select(key, records, index, conditions).1;
    assert c == conditions[key := ""];
    SelectExact(key, records, index, conditions, r);
    if Matches(r, conditions) && Instance(key, "") in r.instances {
      forall n | n in c ensures Instance(n, c[n]) in r.instances {
        if n != key {
          assert c[n] == conditions[n];
        }
      }
    }
    if Matches(r, c) {
      assert Instance(key, c[key]) in r.instances;
      forall n | n in conditions ensures Instance(n, conditions[n]) in r.instances {
        assert c[n] == conditions[n];
      }
    }
  }

  /** Selecting again with the conditions select has already extended changes nothing more. */
  lemma SelectExtendsOnce(key: string, records: seq<Record>, index: set<string>, conditions: Conditions)
    ensures var c := Select(key, records, index, conditions).1;
      Select(key, records, index, c) == Select(key, records, index, conditions)
  {
  }
}
