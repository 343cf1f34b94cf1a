/** Fields ("instances"), records and the condition maps passed to queries. */
module Records {

  /** A named value; `instance == condition` compares both parts. */
  datatype Instance = Instance(identifier: string, value: string)

  /** A row: its key field is kept apart from its other fields. */
  datatype Record = Record(key: Instance, instances: seq<Instance>)

  /** A `std::map<std::string, std::string>` of field name to value. */
  type Conditions = map<string, string>

  /** `m[k]` on a non-const `std::map`: yields the value stored under `k`,
      and if there is none, first inserts `k` with the empty string. */
  function Subscript(m: Conditions, k: string): (out: (string, Conditions))
    ensures out.1.Keys == m.Keys + {k}
    ensures forall n :: n in m ==> out.1[n] == m[n]
    ensures out.0 == out.1[k]
    ensures k !in m ==> out.0 == ""
  {
    if k in m then (m[k], m) else ("", m[k := ""])
  }

  /** Position of the first instance named `n` (as `std::find_if` on the
      identifier), or `|insts|` when there is none. */
  function FirstNamed(insts: seq<Instance>, n: string): (p: nat)
    ensures p <= |insts|
    ensures p < |insts| ==> insts[p].identifier == n
    ensures forall q :: 0 <= q < p ==> insts[q].identifier != n
  {
    if insts == [] then 0
    else if insts[0].identifier == n then 0
    else 1 + FirstNamed(insts[1..], n)
  }

  /** Two instance lists that agree on every identifier, position by position. */
  predicate SameIdentifiers(a: seq<Instance>, b: seq<Instance>)
  {
    |a| == |b| && forall q :: 0 <= q < |a| ==> a[q].identifier == b[q].identifier
  }

  /** Looking a name up depends only on the identifiers. */
  lemma {:induction false} FirstNamedOfSameIdentifiers(a: seq<Instance>, b: seq<Instance>, n: string)
    requires SameIdentifiers(a, b)
    ensures FirstNamed(a, n) == FirstNamed(b, n)
  {
    if a != [] && a[0].identifier != n {
      assert SameIdentifiers(a[1..], b[1..]) by {
        forall q | 0 <= q < |a[1..]| ensures a[1..][q].identifier == b[1..][q].identifier {
          assert a[1..][q] == a[q + 1] && b[1..][q] == b[q + 1];
        }
      }
      FirstNamedOfSameIdentifiers(a[1..], b[1..], n);
    }
  }

  /** The value of the first instance named `n`, or "" when there is none. */
  function FieldValue(insts: seq<Instance>, n: string): (v: string)
    ensures FirstNamed(insts, n) < |insts| ==> v == insts[FirstNamed(insts, n)].value
    ensures (forall q :: 0 <= q < |insts| ==> insts[q].identifier != n) ==> v == ""
  {
    var p := FirstNamed(insts, n);
    if p < |insts| then insts[p].value else ""
  }
}
