/**
 * java.util.LinkedHashMap keyed by Person, as the assignment engines use it.
 * A map is the sequence of its entries in insertion order; two keys are the
 * same key when Person.equals says so, that is when their employee ids agree.
 */
module LinkedMaps {
  import opened Wrappers
  import opened People

  datatype Entry<V> = Entry(key: Person, value: V)

  type LinkedMap<V> = seq<Entry<V>>

  /** Map<Person, List<Person>>: a reviewer and the ordered list of people they review. */
  type Assignment = LinkedMap<seq<Person>>

  /** keySet() in iteration order. */
  function Keys<V>(m: LinkedMap<V>): (ks: seq<Person>)
    ensures |ks| == |m| && forall i :: 0 <= i < |m| ==> ks[i] == m[i].key
  {
    seq(|m|, i requires 0 <= i < |m| => m[i].key)
  }

  /** values() in iteration order. */
  function Values<V>(m: LinkedMap<V>): (vs: seq<V>)
    ensures |vs| == |m| && forall i :: 0 <= i < |m| ==> vs[i] == m[i].value
  {
    seq(|m|, i requires 0 <= i < |m| => m[i].value)
  }

  /** The map invariant: no key occurs twice. */
  predicate Valid<V>(m: LinkedMap<V>) {
    DistinctIds(Keys(m))
  }

  lemma KeysAppend<V>(m: LinkedMap<V>, n: LinkedMap<V>)
    ensures Keys(m + n) == Keys(m) + Keys(n)
  {
  }

  /** Where the key with this employee id sits, if anywhere. */
  function IndexOfId<V>(m: LinkedMap<V>, id: string): (r: Option<nat>)
    ensures r.Some? ==> r.value < |m| && m[r.value].key.employeeId == id
    ensures r.Some? ==> forall j :: 0 <= j < r.value ==> m[j].key.employeeId != id
    ensures r.None? <==> id !in IdSet(Keys(m))
  {
    if m == [] then None
    else if m[0].key.employeeId == id then
      assert Keys(m)[0] == m[0].key;
      Some(0)
    else
      assert Keys(m) == [m[0].key] + Keys(m[1..]);
      match IndexOfId(m[1..], id)
      case None => None
      case Some(i) => Some(i + 1)
  }

  /**
   * put(k, v): a new key goes to the end; an existing key keeps its place and
   * its original key object, and only its value changes.
   */
  function Put<V>(m: LinkedMap<V>, k: Person, v: V): (r: LinkedMap<V>)
    ensures k.employeeId !in IdSet(Keys(m)) ==> r == m + [Entry(k, v)]
    ensures k.employeeId in IdSet(Keys(m)) ==> Keys(r) == Keys(m)
    ensures Valid(m) ==> Valid(r)
    ensures Valid(m) ==>
      forall i :: 0 <= i < |m| && m[i].key.employeeId == k.employeeId ==> r == m[i := Entry(m[i].key, v)]
  {
    match IndexOfId(m, k.employeeId)
    case None =>
      KeysAppend(m, [Entry(k, v)]);
      m + [Entry(k, v)]
    case Some(i) =>
      var r := m[i := Entry(m[i].key, v)];
      assert Keys(r) == Keys(m);
      r
  }

  /** Two maps with valid, disjoint key sets concatenate to a valid map. */
  lemma ValidConcat<V>(m: LinkedMap<V>, n: LinkedMap<V>)
    requires Valid(m) && Valid(n)
    requires IdSet(Keys(m)) !! IdSet(Keys(n))
    ensures Valid(m + n)
  {
    KeysAppend(m, n);
    var ks := Keys(m + n);
    forall i, j | 0 <= i < j < |ks| ensures ks[i].employeeId != ks[j].employeeId {
      if j < |m| {
        assert ks[i] == Keys(m)[i] && ks[j] == Keys(m)[j];
      } else if i < |m| {
        assert ks[i] == Keys(m)[i] && ks[j] == Keys(n)[j - |m|];
        assert ks[i].employeeId in IdSet(Keys(m));
        assert ks[j].employeeId in IdSet(Keys(n));
      } else {
        assert ks[i] == Keys(n)[i - |m|] && ks[j] == Keys(n)[j - |m|];
      }
    }
  }

  /** putAll(n): n's entries are put one after another, in n's order. */
  function PutAll<V>(m: LinkedMap<V>, n: LinkedMap<V>): LinkedMap<V>
    decreases |n|
  {
    if n == [] then m else PutAll(Put(m, n[0].key, n[0].value), n[1..])
  }

  /** When no key of n is already in m, putAll loses nothing: it appends n. */
  lemma {:induction false} PutAllDisjoint<V>(m: LinkedMap<V>, n: LinkedMap<V>)
    requires Valid(m + n)
    ensures PutAll(m, n) == m + n
    decreases |n|
  {
    if n != [] {
      KeysAppend(m, n);
      assert Keys(m + n)[|m|] == n[0].key;
      assert n[0].key.employeeId !in IdSet(Keys(m)) by {
        forall q | q in Keys(m) ensures q.employeeId != n[0].key.employeeId {
          var i :| 0 <= i < |m| && Keys(m)[i] == q;
          assert Keys(m + n)[i] == q;
        }
      }
      assert Valid(m) by {
        assert Keys(m) == Keys(m + n)[..|m|];
      }
      assert m + n == (m + [n[0]]) + n[1..];
      PutAllDisjoint(m + [n[0]], n[1..]);
    }
  }

  /** computeIfAbsent(k, new ArrayList).add(x): x is appended to k's list, created empty if absent. */
  function ComputeIfAbsentAdd(m: Assignment, k: Person, x: Person): (r: Assignment)
    ensures k.employeeId !in IdSet(Keys(m)) ==> r == m + [Entry(k, [x])]
    ensures k.employeeId in IdSet(Keys(m)) ==> Keys(r) == Keys(m)
    ensures Valid(m) ==> Valid(r)
    ensures Valid(m) ==>
      forall i :: 0 <= i < |m| && m[i].key.employeeId == k.employeeId ==> r == m[i := Entry(m[i].key, m[i].value + [x])]
    ensures multiset(Flatten(r)) == multiset(Flatten(m)) + multiset{x}
  {
    match IndexOfId(m, k.employeeId)
    case None =>
      KeysAppend(m, [Entry(k, [x])]);
      FlattenAppend(m, [Entry(k, [x])]);
      assert Flatten([Entry(k, [x])]) == [x];
      m + [Entry(k, [x])]
    case Some(i) =>
      var r := m[i := Entry(m[i].key, m[i].value + [x])];
      assert Keys(r) == Keys(m);
      FlattenExtendAt(m, i, x);
      r
  }

  /** All value lists concatenated in iteration order. */
  function Flatten(m: Assignment): seq<Person> {
    if m == [] then [] else Flatten(m[..|m| - 1]) + m[|m| - 1].value
  }

  lemma {:induction false} FlattenAppend(m: Assignment, n: Assignment)
    ensures Flatten(m + n) == Flatten(m) + Flatten(n)
    decreases |n|
  {
    if n == [] {
      assert m + n == m;
    } else {
      assert (m + n)[..|m + n| - 1] == m + n[..|n| - 1];
      FlattenAppend(m, n[..|n| - 1]);
    }
  }

  /** Appending x to one value list adds exactly x to the reviewees. */
  lemma FlattenExtendAt(m: Assignment, i: nat, x: Person)
    requires i < |m|
    ensures multiset(Flatten(m[i := Entry(m[i].key, m[i].value + [x])]))
            == multiset(Flatten(m)) + multiset{x}
  {
    var e := Entry(m[i].key, m[i].value + [x]);
    var m' := m[i := e];
    assert m == m[..i] + [m[i]] + m[i + 1..];
    assert m' == m[..i] + [e] + m[i + 1..];
    FlattenAppend(m[..i] + [m[i]], m[i + 1..]);
    FlattenAppend(m[..i], [m[i]]);
    FlattenAppend(m[..i] + [e], m[i + 1..]);
    FlattenAppend(m[..i], [e]);
    assert Flatten([m[i]]) == m[i].value;
    assert Flatten([e]) == m[i].value + [x];
  }

  /** Every reviewee in some value list appears in the flattened reviewees. */
  lemma {:induction false} FlattenContains(m: Assignment, i: nat, p: Person)
    requires i < |m| && p in m[i].value
    ensures p in Flatten(m)
    decreases |m|
  {
    if i < |m| - 1 {
      FlattenContains(m[..|m| - 1], i, p);
    }
  }

  /** A map whose value lists are all empty has no reviewees at all. */
  lemma {:induction false} FlattenNoValues(m: Assignment)
    requires forall i :: 0 <= i < |m| ==> m[i].value == []
    ensures Flatten(m) == []
    decreases |m|
  {
    if m != [] {
      FlattenNoValues(m[..|m| - 1]);
    }
  }
}
