/**
 * The assignment engine: who reviews whom.
 *
 * Single-pool mode shuffles the pool and lets each person review the next one
 * round the circle. Dual-pool mode runs two directional assignments, A reviews
 * B and B reviews A, and merges them. A directional assignment covers every
 * reviewee exactly once: with at least as many reviewers as reviewees it picks
 * one reviewer per reviewee, otherwise it deals the reviewees round-robin.
 */
module CodeReviewAssigner {
  import opened Wrappers
  import opened People
  import opened LinkedMaps
  import opened Shuffling
  import opened Arith

  datatype AssignError =
    | NullPool(pool: string)
    | EmptyPool(pool: string)
    | NullMember(pool: string)
    | DuplicateId(pool: string, id: string)
    | TooFewPeople
    | NoReviewers(direction: string, reviewees: nat)
    | OverlappingIds(ids: seq<string>)

  const SinglePoolName: string := "单池"
  const PoolAName: string := "poolA"
  const PoolBName: string := "poolB"
  const AToB: string := "A→B"
  const BToA: string := "B→A"

  /** A pool as a caller hands it over: the list may be null, and so may any of its members. */
  type RawPool = Option<seq<Option<Person>>>

  predicate NoNulls(s: seq<Option<Person>>) {
    forall i :: 0 <= i < |s| ==> s[i].Some?
  }

  /** The members of a pool; empty when the list is null or holds a null. */
  function Members(pool: RawPool): (s: seq<Person>)
    ensures pool.Some? && NoNulls(pool.value) ==>
      |s| == |pool.value| && forall i :: 0 <= i < |s| ==> pool.value[i] == Some(s[i])
  {
    if pool.Some? && NoNulls(pool.value) then
      seq(|pool.value|, i requires 0 <= i < |pool.value| && NoNulls(pool.value) => pool.value[i].value)
    else []
  }

  /** What validatePeople accepts: a non-null, non-empty list of non-null people with distinct ids. */
  predicate WellFormedPool(pool: RawPool) {
    pool.Some? && pool.value != [] && NoNulls(pool.value) && DistinctIds(Members(pool))
  }

  /** Position j is the first one whose id already occurred earlier. */
  predicate FirstRepeatAt(s: seq<Person>, j: nat) {
    j < |s| && DistinctIds(s[..j]) && s[j].employeeId in IdSet(s[..j])
  }

  /**
   * The one error validatePeople raises for a pool it refuses: null list, empty
   * list, null member, or else the first id seen twice.
   */
  ghost predicate RejectedAs(people: RawPool, poolName: string, e: AssignError) {
    if people.None? then e == NullPool(poolName)
    else if people.value == [] then e == EmptyPool(poolName)
    else if !NoNulls(people.value) then e == NullMember(poolName)
    else
      e.DuplicateId? && e.pool == poolName &&
      exists j: nat :: FirstRepeatAt(Members(people), j) && e.id == Members(people)[j].employeeId
  }

  // ---------------------------------------------------------------------------
  // Validation

  /**
   * validatePeople: rejects a null list, an empty list, a null member, and a
   * repeated employee id (naming the first id seen twice), in that order.
   */
  method ValidatePeople(people: RawPool, poolName: string) returns (r: Result<seq<Person>, AssignError>)
    ensures people.None? ==> r == Err(NullPool(poolName))
    ensures people == Some([]) ==> r == Err(EmptyPool(poolName))
    ensures people.Some? && people.value != [] && !NoNulls(people.value) ==> r == Err(NullMember(poolName))
    ensures r.Ok? <==> WellFormedPool(people)
    ensures r.Ok? ==> r.value == Members(people)
    ensures people.Some? && people.value != [] && NoNulls(people.value) && !DistinctIds(Members(people)) ==>
      r.Err? && r.error.DuplicateId?
    ensures r.Err? ==> RejectedAs(people, poolName, r.error)
  {
    if people.None? {
      return Err(NullPool(poolName));
    }
    var s := people.value;
    if |s| == 0 {
      return Err(EmptyPool(poolName));
    }
    if exists i :: 0 <= i < |s| && s[i].None? {
      return Err(NullMember(poolName));
    }
    var ps := Members(people);
    var ids: set<string> := {};
    var i := 0;
    while i < |ps|
      invariant 0 <= i <= |ps|
      invariant ids == IdSet(ps[..i])
      invariant DistinctIds(ps[..i])
    {
      var p := ps[i];
      if p.employeeId in ids {
        assert FirstRepeatAt(ps, i);
        var q :| q in ps[..i] && q.employeeId == p.employeeId;
        var k :| 0 <= k < i && ps[..i][k] == q;
        assert ps[k].employeeId == ps[i].employeeId;
        assert RejectedAs(people, poolName, DuplicateId(poolName, p.employeeId));
        return Err(DuplicateId(poolName, p.employeeId));
      }
      assert ps[..i + 1] == ps[..i] + [p];
      IdSetSnoc(ps[..i], p);
      forall k | 0 <= k < i ensures ps[k].employeeId != p.employeeId {
        assert ps[..i][k] in ps[..i];
      }
      ids := ids + {p.employeeId};
      i := i + 1;
    }
    assert ps[..i] == ps;
    return Ok(ps);
  }

  /** The ids of poolB's members that also occur in poolA, in poolB's order. */
  function OverlapIds(a: seq<Person>, b: seq<Person>): (ids: seq<string>)
    ensures forall x :: x in ids <==> x in IdSet(a) && x in IdSet(b)
    ensures |ids| <= |b|
  {
    if b == [] then []
    else
      var b', p := b[..|b| - 1], b[|b| - 1];
      assert b == b' + [p];
      IdSetSnoc(b', p);
      OverlapIds(a, b') + OverlapOf(a, p)
  }

  /** What one poolB member adds to the overlap list. */
  function OverlapOf(a: seq<Person>, p: Person): seq<string> {
    if p.employeeId in IdSet(a) then [p.employeeId] else []
  }

  /** One poolB member contributes its id exactly when poolA holds that id. */
  lemma OverlapIdsSingle(a: seq<Person>, p: Person)
    ensures OverlapIds(a, [p]) == if p.employeeId in IdSet(a) then [p.employeeId] else []
  {
    assert [p][..0] == [];
  }

  /** The ids come in poolB order: the overlap of b1 + b2 is b1's overlap, then b2's. */
  lemma {:induction false} OverlapIdsAppend(a: seq<Person>, b1: seq<Person>, b2: seq<Person>)
    ensures OverlapIds(a, b1 + b2) == OverlapIds(a, b1) + OverlapIds(a, b2)
    decreases |b2|
  {
    if b2 == [] {
      assert b1 + b2 == b1;
    } else {
      var b2', p := b2[..|b2| - 1], b2[|b2| - 1];
      var x := OverlapOf(a, p);
      assert OverlapIds(a, b1 + b2) == OverlapIds(a, b1 + b2') + x by {
        var b := b1 + b2;
        assert b[..|b| - 1] == b1 + b2' && b[|b| - 1] == p;
      }
      assert OverlapIds(a, b2) == OverlapIds(a, b2') + x;
      OverlapIdsAppend(a, b1, b2');
      ConcatAssoc(OverlapIds(a, b1), OverlapIds(a, b2'), x);
    }
  }

  lemma ConcatAssoc<T>(p: seq<T>, q: seq<T>, x: seq<T>)
    ensures (p + q) + x == p + (q + x)
  {
  }

  /** A poolB without repeated ids yields a list without repeated ids. */
  lemma {:induction false} OverlapIdsDistinct(a: seq<Person>, b: seq<Person>)
    requires DistinctIds(b)
    ensures forall i, j :: 0 <= i < j < |OverlapIds(a, b)| ==> OverlapIds(a, b)[i] != OverlapIds(a, b)[j]
    decreases |b|
  {
    if b != [] {
      var b', p := b[..|b| - 1], b[|b| - 1];
      assert DistinctIds(b') by {
        forall i, j | 0 <= i < j < |b'| ensures b'[i].employeeId != b'[j].employeeId {
          assert b'[i] == b[i] && b'[j] == b[j];
        }
      }
      OverlapIdsDistinct(a, b');
      assert p.employeeId !in IdSet(b') by {
        forall q | q in b' ensures q.employeeId != p.employeeId {
          var k :| 0 <= k < |b'| && b'[k] == q;
          assert b[k] == q;
        }
      }
    }
  }

  /** validateNoOverlap: fails exactly when the pools share an id, listing every shared id. */
  function ValidateNoOverlap(a: seq<Person>, b: seq<Person>): (r: Outcome<AssignError>)
    ensures r.Pass? <==> IdSet(a) !! IdSet(b)
    ensures r.Fail? ==> r.error == OverlappingIds(OverlapIds(a, b)) && r.error.ids != []
  {
    var ids := OverlapIds(a, b);
    if ids == [] then
      assert forall x :: x in IdSet(a) ==> x !in IdSet(b);
      Pass
    else
      assert ids[0] in IdSet(a) * IdSet(b);
      Fail(OverlappingIds(ids))
  }

  // ---------------------------------------------------------------------------
  // Arithmetic of the round-robin deal

  /** Position i < n sits in row i / r, which share i mod r reaches, and i == (i / r) * r + i mod r. */
  lemma PlacementIndex(i: int, n: int, r: int)
    requires r > 0 && 0 <= i < n
    ensures 0 <= i / r && 0 <= i % r < r
    ensures i / r < n / r + (if i % r < n % r then 1 else 0)
    ensures (i / r) * r + i % r == i
  {
    DivLess(i, n, r);
    DivModSplit(i, r);
  }

  // ---------------------------------------------------------------------------
  // Single pool: the cycle

  /** The single-pool result over a shuffled pool: position i reviews position (i + 1) mod n. */
  function Cycle(s: seq<Person>): (m: Assignment)
    ensures |m| == |s|
  {
    seq(|s|, i requires 0 <= i < |s| => Entry(s[i], [s[Successor(i, |s|)]]))
  }

  /** Everyone in the pool is a reviewer, in shuffled order. */
  lemma CycleKeys(s: seq<Person>)
    ensures Keys(Cycle(s)) == s
  {
  }

  lemma {:induction false} CycleFlattenPrefix(s: seq<Person>, k: nat)
    requires k < |s|
    ensures Flatten(Cycle(s)[..k]) == s[1..k + 1]
  {
    if k > 0 {
      CycleFlattenPrefix(s, k - 1);
      assert Cycle(s)[..k][..k - 1] == Cycle(s)[..k - 1];
    }
  }

  /** The reviewees of the cycle are the pool rotated by one: everyone is reviewed exactly once. */
  lemma CycleReviewees(s: seq<Person>)
    requires |s| >= 1
    ensures Flatten(Cycle(s)) == s[1..] + [s[0]]
    ensures multiset(Flatten(Cycle(s))) == multiset(s)
  {
    var n := |s|;
    CycleFlattenPrefix(s, n - 1);
    assert Cycle(s)[..n][..n - 1] == Cycle(s)[..n - 1];
    assert Cycle(s)[..n] == Cycle(s);
    assert s == [s[0]] + s[1..];
  }

  /**
   * Everything assignSinglePool promises of its result, stated of the cycle over
   * a shuffled pool with distinct ids and at least two people.
   */
  lemma CycleProperties(s: seq<Person>)
    requires |s| >= 2 && DistinctIds(s)
    ensures Valid(Cycle(s))
    ensures multiset(Keys(Cycle(s))) == multiset(s)
    ensures multiset(Flatten(Cycle(s))) == multiset(s)
  {
    CycleKeys(s);
    CycleReviewees(s);
  }

  /** Each person's list is the single next person round the circle, never themselves. */
  lemma CycleShape(s: seq<Person>)
    requires |s| >= 2 && DistinctIds(s)
    ensures forall i :: 0 <= i < |s| ==>
      Cycle(s)[i].key == s[i] && Cycle(s)[i].value == [s[Successor(i, |s|)]]
    ensures forall i :: 0 <= i < |s| ==> Cycle(s)[i].value[0].employeeId != Cycle(s)[i].key.employeeId
  {
    forall i | 0 <= i < |s|
      ensures Cycle(s)[i].key == s[i] && Cycle(s)[i].value == [s[Successor(i, |s|)]]
      ensures Cycle(s)[i].value[0].employeeId != Cycle(s)[i].key.employeeId
    {
      var j := Successor(i, |s|);
      assert Cycle(s)[i] == Entry(s[i], [s[j]]);
      assert j != i;
    }
  }

  // ---------------------------------------------------------------------------
  // Directional assignment, large pool reviews small pool

  /** The first |se| shuffled reviewers each review the reviewee at their own position. */
  function OneEach(sr: seq<Person>, se: seq<Person>): (m: Assignment)
    requires |se| <= |sr|
    ensures |m| == |se|
  {
    seq(|se|, i requires 0 <= i < |se| => Entry(sr[i], [se[i]]))
  }

  /** The reviewers selected are the first |se| shuffled ones. */
  lemma OneEachKeys(sr: seq<Person>, se: seq<Person>)
    requires |se| <= |sr|
    ensures Keys(OneEach(sr, se)) == sr[..|se|]
  {
  }

  lemma {:induction false} OneEachFlatten(sr: seq<Person>, se: seq<Person>)
    requires |se| <= |sr|
    ensures Flatten(OneEach(sr, se)) == se
    decreases |se|
  {
    if se != [] {
      var se' := se[..|se| - 1];
      OneEachFlatten(sr, se');
      assert OneEach(sr, se)[..|se| - 1] == OneEach(sr, se');
    }
  }

  /**
   * Exactly |se| distinct reviewers are selected, each with exactly one
   * reviewee, and every reviewee is covered exactly once.
   */
  lemma OneEachProperties(sr: seq<Person>, se: seq<Person>)
    requires |se| <= |sr| && DistinctIds(sr)
    ensures Valid(OneEach(sr, se))
    ensures multiset(Keys(OneEach(sr, se))) <= multiset(sr)
    ensures Flatten(OneEach(sr, se)) == se
    ensures forall i :: 0 <= i < |se| ==> OneEach(sr, se)[i].value == [se[i]]
  {
    OneEachFlatten(sr, se);
    OneEachKeys(sr, se);
    assert sr == sr[..|se|] + sr[|se|..];
  }

  // ---------------------------------------------------------------------------
  // Directional assignment, small pool reviews large pool

  /** The reviewees at positions congruent to k modulo r, in order. */
  function Share<T>(s: seq<T>, r: nat, k: nat): seq<T>
    requires r > 0
  {
    if s == [] then []
    else Share(s[..|s| - 1], r, k) + (if (|s| - 1) % r == k then [s[|s| - 1]] else [])
  }

  lemma ShareSnoc<T>(s: seq<T>, x: T, r: nat, k: nat)
    requires r > 0
    ensures Share(s + [x], r, k) == Share(s, r, k) + (if |s| % r == k then [x] else [])
  {
    assert (s + [x])[..|s|] == s;
  }

  /** Share k holds n / r reviewees, plus one for the first n mod r shares. */
  lemma {:induction false} ShareLength<T>(s: seq<T>, r: nat, k: nat)
    requires r > 0 && k < r
    ensures |Share(s, r, k)| == |s| / r + (if k < |s| % r then 1 else 0)
    decreases |s|
  {
    if s != [] {
      var p := |s| - 1;
      ShareLength(s[..p], r, k);
      DivModNext(p, r);
    }
  }

  /** The j-th reviewee of share k is the one at position j * r + k. */
  lemma {:induction false} ShareAt<T>(s: seq<T>, r: nat, k: nat, j: nat)
    requires r > 0 && k < r && j < |Share(s, r, k)|
    ensures j * r + k < |s| && Share(s, r, k)[j] == s[j * r + k]
    decreases |s|
  {
    var p := |s| - 1;
    var prev := Share(s[..p], r, k);
    var tail := if p % r == k then [s[p]] else [];
    assert Share(s, r, k) == prev + tail;
    var idx := j * r + k;
    if j < |prev| {
      ShareAt(s[..p], r, k, j);
      assert idx < p && prev[j] == s[..p][idx];
      assert Share(s, r, k)[j] == prev[j];
    } else {
      ShareLength(s[..p], r, k);
      assert tail != [] && p % r == k;
      assert j == p / r;
      DivModSplit(p, r);
      assert idx == p;
      assert Share(s, r, k)[j] == tail[0] == s[p];
    }
  }

  /** Every shuffled reviewer takes part; reviewer k reviews Share(se, |sr|, k). */
  function RoundRobin(sr: seq<Person>, se: seq<Person>): (m: Assignment)
    requires |sr| > 0
    ensures |m| == |sr|
  {
    seq(|sr|, k requires 0 <= k < |sr| => Entry(sr[k], Share(se, |sr|, k)))
  }

  /** Every shuffled reviewer is a key, in shuffled order. */
  lemma RoundRobinKeys(sr: seq<Person>, se: seq<Person>)
    requires |sr| > 0
    ensures Keys(RoundRobin(sr, se)) == sr
  {
  }

  /** Dealing one more reviewee appends it to the list of reviewer |se| mod r only. */
  lemma RoundRobinSnocAt(sr: seq<Person>, se: seq<Person>, x: Person, t: nat, k: nat)
    requires |sr| > 0 && t == |se| % |sr| && k < |sr|
    ensures RoundRobin(sr, se + [x])[k].key == sr[k] && RoundRobin(sr, se)[k].key == sr[k]
    ensures RoundRobin(sr, se + [x])[k].value == RoundRobin(sr, se)[k].value + (if k == t then [x] else [])
  {
    ShareSnoc(se, x, |sr|, k);
  }

  lemma RoundRobinSnoc(sr: seq<Person>, se: seq<Person>, x: Person, t: nat)
    requires |sr| > 0 && t == |se| % |sr|
    ensures RoundRobin(sr, se + [x]) == RoundRobin(sr, se)[t := Entry(sr[t], RoundRobin(sr, se)[t].value + [x])]
  {
    var m, m' := RoundRobin(sr, se + [x]), RoundRobin(sr, se);
    var u := m'[t := Entry(sr[t], m'[t].value + [x])];
    forall k | 0 <= k < |sr| ensures m[k] == u[k] {
      RoundRobinSnocAt(sr, se, x, t, k);
      if k == t {
        assert u[k] == Entry(sr[t], m'[t].value + [x]);
        assert m[k].value == m'[k].value + [x];
        assert m[k] == Entry(sr[k], m'[k].value + [x]);
      } else {
        assert u[k] == m'[k];
        assert m[k].value == m'[k].value + [];
        assert m[k].value == m'[k].value;
        assert m[k] == m'[k];
      }
    }
  }

  lemma {:induction false} RoundRobinCoverage(sr: seq<Person>, se: seq<Person>)
    requires |sr| > 0
    ensures multiset(Flatten(RoundRobin(sr, se))) == multiset(se)
    decreases |se|
  {
    if se == [] {
      FlattenNoValues(RoundRobin(sr, se));
    } else {
      var se', x := se[..|se| - 1], se[|se| - 1];
      assert se == se' + [x];
      RoundRobinCoverage(sr, se');
      var t := |se'| % |sr|;
      RoundRobinSnoc(sr, se', x, t);
      var m' := RoundRobin(sr, se');
      assert m'[t].key == sr[t];
      FlattenExtendAt(m', t, x);
    }
  }

  /** Reviewee i goes to shuffled reviewer i mod r, as the (i / r)-th item of that reviewer's list. */
  lemma RoundRobinPlacement(sr: seq<Person>, se: seq<Person>, i: nat)
    requires |sr| > 0 && i < |se|
    ensures i / |sr| < |RoundRobin(sr, se)[i % |sr|].value|
    ensures RoundRobin(sr, se)[i % |sr|].value[i / |sr|] == se[i]
  {
    var r := |sr|;
    var q, t := i / r, i % r;
    PlacementIndex(i, |se|, r);
    ShareLength(se, r, t);
    ShareAt(se, r, t, q);
  }

  /**
   * Round-robin loads: reviewer k gets n / r reviewees plus one if k < n mod r,
   * so any two loads differ by at most one, and the whole result is a valid
   * map whose reviewees are exactly the reviewee pool.
   */
  lemma RoundRobinProperties(sr: seq<Person>, se: seq<Person>)
    requires |sr| > 0 && DistinctIds(sr)
    ensures Valid(RoundRobin(sr, se)) && Keys(RoundRobin(sr, se)) == sr
    ensures multiset(Flatten(RoundRobin(sr, se))) == multiset(se)
    ensures forall k :: 0 <= k < |sr| ==>
      |RoundRobin(sr, se)[k].value| == |se| / |sr| + (if k < |se| % |sr| then 1 else 0)
    ensures forall k, l :: 0 <= k < |sr| && 0 <= l < |sr| ==>
      |RoundRobin(sr, se)[k].value| <= |RoundRobin(sr, se)[l].value| + 1
  {
    RoundRobinKeys(sr, se);
    RoundRobinCoverage(sr, se);
    forall k | 0 <= k < |sr|
      ensures |RoundRobin(sr, se)[k].value| == |se| / |sr| + (if k < |se| % |sr| then 1 else 0)
    {
      ShareLength(se, |sr|, k);
    }
  }

  // ---------------------------------------------------------------------------
  // One loop iteration against the specification

  function Min(a: int, b: int): int {
    if a <= b then a else b
  }

  /** Iteration i of the cycle loop puts exactly entry i of the cycle. */
  lemma CycleStep(s: seq<Person>, i: nat)
    requires DistinctIds(s) && i < |s|
    ensures Put(Cycle(s)[..i], s[i], [s[Successor(i, |s|)]]) == Cycle(s)[..i + 1]
  {
    var m := Cycle(s)[..i];
    var e := Entry(s[i], [s[Successor(i, |s|)]]);
    assert Keys(m) == s[..i];
    DistinctIdsNotInPrefix(s, i);
    assert Put(m, s[i], e.value) == m + [e];
    assert Cycle(s)[i] == e;
    assert Cycle(s)[..i + 1] == m + [e];
  }

  /** Iteration i of the one-each loop puts exactly entry i of OneEach. */
  lemma OneEachStep(sr: seq<Person>, se: seq<Person>, i: nat)
    requires |se| <= |sr| && DistinctIds(sr) && i < |se|
    ensures Put(OneEach(sr, se)[..i], sr[i], [se[i]]) == OneEach(sr, se)[..i + 1]
  {
    var m := OneEach(sr, se)[..i];
    var e := Entry(sr[i], [se[i]]);
    assert Keys(m) == sr[..i];
    DistinctIdsNotInPrefix(sr, i);
    assert Put(m, sr[i], e.value) == m + [e];
    assert OneEach(sr, se)[i] == e;
    assert OneEach(sr, se)[..i + 1] == m + [e];
  }

  /**
   * Iteration i of the round-robin loop: computeIfAbsent on reviewer i mod r
   * turns the deal of the first i reviewees into the deal of the first i + 1.
   * Only the reviewers dealt to so far have entries, hence the prefix.
   */
  lemma RoundRobinStep(sr: seq<Person>, se: seq<Person>, i: nat)
    requires |sr| > 0 && DistinctIds(sr) && i < |se|
    ensures ComputeIfAbsentAdd(RoundRobin(sr, se[..i])[..Min(i, |sr|)], sr[i % |sr|], se[i])
            == RoundRobin(sr, se[..i + 1])[..Min(i + 1, |sr|)]
  {
    var n := |sr|;
    assert se[..i + 1] == se[..i] + [se[i]];
    RoundRobinSnoc(sr, se[..i], se[i], i % n);
    if i < n {
      DivModUnique(i, n, 0, i);
      RoundRobinStepFresh(sr, se[..i], se[i]);
    } else {
      RoundRobinStepKnown(sr, se[..i], se[i]);
    }
  }

  /** While fewer than r reviewees have been dealt, reviewer i is new and gets a fresh entry. */
  lemma RoundRobinStepFresh(sr: seq<Person>, se: seq<Person>, x: Person)
    requires DistinctIds(sr) && |se| < |sr|
    requires RoundRobin(sr, se + [x]) == RoundRobin(sr, se)[|se| := Entry(sr[|se|], RoundRobin(sr, se)[|se|].value + [x])]
    ensures ComputeIfAbsentAdd(RoundRobin(sr, se)[..|se|], sr[|se|], x) == RoundRobin(sr, se + [x])[..|se| + 1]
  {
    var i := |se|;
    var m := RoundRobin(sr, se);
    var m2 := RoundRobin(sr, se + [x]);
    ShareLength(se, |sr|, i);
    DivModUnique(i, |sr|, 0, i);
    assert m[i].value == [];
    assert m[i].value + [x] == [x];
    assert m2[i] == Entry(sr[i], [x]);
    assert m2[..i] == m[..i];
    assert Keys(m[..i]) == sr[..i];
    DistinctIdsNotInPrefix(sr, i);
    assert m2[..i + 1] == m[..i] + [Entry(sr[i], [x])];
  }

  /** Once every reviewer has an entry, dealing extends the entry of reviewer i mod r in place. */
  lemma RoundRobinStepKnown(sr: seq<Person>, se: seq<Person>, x: Person)
    requires DistinctIds(sr) && 0 < |sr| <= |se|
    requires RoundRobin(sr, se + [x]) == RoundRobin(sr, se)[|se| % |sr| := Entry(sr[|se| % |sr|], RoundRobin(sr, se)[|se| % |sr|].value + [x])]
    ensures ComputeIfAbsentAdd(RoundRobin(sr, se)[..|sr|], sr[|se| % |sr|], x) == RoundRobin(sr, se + [x])[..|sr|]
  {
    var n := |sr|;
    var t := |se| % n;
    var m := RoundRobin(sr, se);
    var m2 := RoundRobin(sr, se + [x]);
    assert m[..n] == m && m2[..n] == m2;
    assert Keys(m)[t] == sr[t];
    assert Valid(m);
    assert m[t].key.employeeId == sr[t].employeeId;
  }

  // ---------------------------------------------------------------------------
  // The engine

  /** The one-each branch of assignDirection, stated of the pools it was given. */
  lemma OneEachResult(reviewers: seq<Person>, reviewees: seq<Person>, sr: seq<Person>, se: seq<Person>)
    requires |se| == |reviewees| <= |reviewers| == |sr| && DistinctIds(sr)
    requires multiset(sr) == multiset(reviewers) && multiset(se) == multiset(reviewees)
    ensures Valid(OneEach(sr, se))
    ensures multiset(Flatten(OneEach(sr, se))) == multiset(reviewees)
    ensures multiset(Keys(OneEach(sr, se))) <= multiset(reviewers)
    ensures forall k :: 0 <= k < |reviewees| ==> |OneEach(sr, se)[k].value| == 1
  {
    OneEachProperties(sr, se);
  }

  /** The round-robin branch of assignDirection, stated of the pools it was given. */
  lemma RoundRobinResult(reviewers: seq<Person>, reviewees: seq<Person>, sr: seq<Person>, se: seq<Person>)
    requires |se| == |reviewees| && 0 < |reviewers| == |sr| && DistinctIds(sr)
    requires multiset(sr) == multiset(reviewers) && multiset(se) == multiset(reviewees)
    ensures Valid(RoundRobin(sr, se))
    ensures multiset(Flatten(RoundRobin(sr, se))) == multiset(reviewees)
    ensures multiset(Keys(RoundRobin(sr, se))) <= multiset(reviewers)
    ensures forall k :: 0 <= k < |reviewers| ==>
      |RoundRobin(sr, se)[k].value| == |reviewees| / |reviewers| + (if k < |reviewees| % |reviewers| then 1 else 0)
  {
    RoundRobinProperties(sr, se);
  }

  /**
   * assignDirection: every reviewee is covered exactly once. No reviewees gives
   * an empty map; no reviewers (with reviewees) is an error. Otherwise the
   * reviewees are shuffled, then the reviewers: with at least as many reviewers
   * the first |reviewees| of them get one reviewee each, else reviewee i goes to
   * reviewer i mod |reviewers|. The shuffled orders are the ghost outputs.
   */
  method AssignDirection(reviewers: seq<Person>, reviewees: seq<Person>, direction: string, rnd: seq<nat>)
    returns (r: Result<Assignment, AssignError>, rest: seq<nat>, ghost sr: seq<Person>, ghost se: seq<Person>)
    requires DistinctIds(reviewers)
    ensures reviewees == [] ==> r == Ok([]) && rest == rnd
    ensures reviewees != [] && reviewers == [] ==> r == Err(NoReviewers(direction, |reviewees|)) && rest == rnd
    ensures r.Ok? <==> reviewees == [] || reviewers != []
    ensures IsSuffix(rest, rnd)
    ensures |sr| == |reviewers| && |se| == |reviewees|
    ensures multiset(sr) == multiset(reviewers) && multiset(se) == multiset(reviewees)
    ensures r.Ok? && reviewees != [] && |reviewees| <= |reviewers| ==> r.value == OneEach(sr, se)
    ensures r.Ok? && |reviewers| < |reviewees| ==> r.value == RoundRobin(sr, se)
    ensures r.Ok? ==> Valid(r.value)
    ensures r.Ok? ==> multiset(Flatten(r.value)) == multiset(reviewees)
    ensures r.Ok? ==> multiset(Keys(r.value)) <= multiset(reviewers)
    ensures r.Ok? && |reviewees| <= |reviewers| ==>
      |r.value| == |reviewees| && forall k :: 0 <= k < |r.value| ==> |r.value[k].value| == 1
    ensures r.Ok? && |reviewers| < |reviewees| ==>
      |r.value| == |reviewers| &&
      forall k :: 0 <= k < |r.value| ==>
        |r.value[k].value| == |reviewees| / |reviewers| + (if k < |reviewees| % |reviewers| then 1 else 0)
  {
    sr, se := reviewers, reviewees;
    rest := rnd;
    if |reviewees| == 0 {
      return Ok([]), rest, sr, se;
    }
    if |reviewers| == 0 {
      return Err(NoReviewers(direction, |reviewees|)), rest, sr, se;
    }
    var shuffledReviewees, rest1 := ShuffledCopy(reviewees, rnd);
    var assignment: Assignment := [];
    var shuffledReviewers;
    shuffledReviewers, rest := ShuffledCopy(reviewers, rest1);
    SuffixTrans(rest, rest1, rnd);
    sr, se := shuffledReviewers, shuffledReviewees;
    DistinctIdsPermutation(reviewers, sr);
    if |reviewers| >= |reviewees| {
      var selected := shuffledReviewers[..|reviewees|];
      var i := 0;
      while i < |selected|
        invariant 0 <= i <= |selected|
        invariant assignment == OneEach(sr, se)[..i]
      {
        OneEachStep(sr, se, i);
        assignment := Put(assignment, selected[i], [shuffledReviewees[i]]);
        i := i + 1;
      }
      assert assignment == OneEach(sr, se);
      OneEachResult(reviewers, reviewees, sr, se);
    } else {
      var n := |shuffledReviewers|;
      var i := 0;
      assert se[..0] == [];
      assert RoundRobin(sr, se[..0])[..0] == [];
      while i < |shuffledReviewees|
        invariant 0 <= i <= |se|
        invariant assignment == RoundRobin(sr, se[..i])[..Min(i, n)]
      {
        RoundRobinStep(sr, se, i);
        var reviewer := shuffledReviewers[i % n];
        assignment := ComputeIfAbsentAdd(assignment, reviewer, shuffledReviewees[i]);
        i := i + 1;
      }
      assert se[..i] == se;
      assert assignment == RoundRobin(sr, se);
      RoundRobinResult(reviewers, reviewees, sr, se);
    }
    return Ok(assignment), rest, sr, se;
  }

  /**
   * assignSinglePool: after validation (a pool of fewer than two people is
   * refused) the pool is shuffled and each person reviews the next one round
   * the circle, so everyone reviews exactly one person and is reviewed by
   * exactly one, and nobody reviews themselves.
   */
  method AssignSinglePool(people: RawPool, rnd: seq<nat>)
    returns (r: Result<Assignment, AssignError>, rest: seq<nat>, ghost shuffled: seq<Person>)
    ensures people.None? ==> r == Err(NullPool(SinglePoolName))
    ensures people == Some([]) ==> r == Err(EmptyPool(SinglePoolName))
    ensures !WellFormedPool(people) ==> r.Err? && RejectedAs(people, SinglePoolName, r.error) && rest == rnd
    ensures WellFormedPool(people) && |people.value| < 2 ==> r == Err(TooFewPeople) && rest == rnd
    ensures r.Ok? <==> WellFormedPool(people) && |people.value| >= 2
    ensures IsSuffix(rest, rnd)
    ensures r.Ok? ==> multiset(shuffled) == multiset(Members(people)) && r.value == Cycle(shuffled)
    ensures r.Ok? ==> Valid(r.value)
    ensures r.Ok? ==> multiset(Keys(r.value)) == multiset(Members(people))
    ensures r.Ok? ==> multiset(Flatten(r.value)) == multiset(Members(people))
    ensures r.Ok? ==> |r.value| == |shuffled| && forall i :: 0 <= i < |r.value| ==>
      r.value[i].key == shuffled[i] && r.value[i].value == [shuffled[Successor(i, |shuffled|)]]
    ensures r.Ok? ==> forall i :: 0 <= i < |r.value| ==>
      r.value[i].value[0].employeeId != r.value[i].key.employeeId
  {
    rest := rnd;
    shuffled := [];
    var v := ValidatePeople(people, SinglePoolName);
    if v.Err? {
      return Err(v.error), rest, shuffled;
    }
    var pool := v.value;
    if |pool| < 2 {
      return Err(TooFewPeople), rest, shuffled;
    }
    var s;
    s, rest := ShuffledCopy(pool, rest);
    shuffled := s;
    DistinctIdsPermutation(pool, s);
    var assignment: Assignment := [];
    var n := |s|;
    var i := 0;
    while i < n
      invariant 0 <= i <= n
      invariant assignment == Cycle(s)[..i]
    {
      CycleStep(s, i);
      var reviewer := s[i];
      var reviewee := s[(i + 1) % n];
      SuccessorIsModulo(i, n);
      assignment := Put(assignment, reviewer, [reviewee]);
      i := i + 1;
    }
    assert assignment == Cycle(s);
    CycleProperties(s);
    CycleShape(s);
    assert forall i :: 0 <= i < |s| ==>
      assignment[i].key == s[i] && assignment[i].value == [s[Successor(i, |s|)]];
    return Ok(assignment), rest, shuffled;
  }

  /** Every reviewer of the map lies in one pool and every person they review in the other. */
  /**
   * d is the deal assignDirection makes over the shuffled orders sr of the
   * reviewers and se of the reviewees: one reviewer per reviewee when the
   * reviewers suffice, otherwise round-robin over all of them.
   */
  predicate DealtFrom(d: Assignment, reviewers: seq<Person>, reviewees: seq<Person>, sr: seq<Person>, se: seq<Person>) {
    |sr| == |reviewers| && |se| == |reviewees| &&
    multiset(sr) == multiset(reviewers) && multiset(se) == multiset(reviewees) &&
    ((|se| <= |sr| && d == OneEach(sr, se)) || (0 < |sr| < |se| && d == RoundRobin(sr, se)))
  }

  /**
   * The loads of a deal of ne reviewees over nr reviewers: one each for the
   * first ne reviewers when they suffice, otherwise every reviewer gets
   * ne / nr or ne / nr + 1, so loads differ by at most one.
   */
  predicate BalancedLoads(d: Assignment, nr: nat, ne: nat) {
    if ne <= nr then
      |d| == ne && forall k :: 0 <= k < |d| ==> |d[k].value| == 1
    else
      nr > 0 && |d| == nr && forall k :: 0 <= k < |d| ==> |d[k].value| == ne / nr + (if k < ne % nr then 1 else 0)
  }

  predicate CrossesPools(m: Assignment, a: seq<Person>, b: seq<Person>) {
    forall i :: 0 <= i < |m| ==>
      m[i].key.employeeId in IdSet(a) && forall p :: p in m[i].value ==> p.employeeId in IdSet(b)
  }

  /** A directional result whose reviewers come from a and whose reviewees are exactly b crosses from a to b. */
  lemma DirectionCrosses(m: Assignment, a: seq<Person>, b: seq<Person>)
    requires multiset(Keys(m)) <= multiset(a) && multiset(Flatten(m)) == multiset(b)
    ensures CrossesPools(m, a, b)
    ensures IdSet(Keys(m)) <= IdSet(a)
  {
    SubMultisetIdSet(Keys(m), a);
    forall i | 0 <= i < |m|
      ensures m[i].key.employeeId in IdSet(a) && forall p :: p in m[i].value ==> p.employeeId in IdSet(b)
    {
      assert Keys(m)[i] in Keys(m);
      forall p | p in m[i].value ensures p.employeeId in IdSet(b) {
        FlattenContains(m, i, p);
        assert p in multiset(Flatten(m));
      }
    }
  }

  /**
   * Putting the A-reviews-B map and then the B-reviews-A map into an empty map
   * loses nothing: the pools are disjoint, so the two key sets are too.
   */
  lemma DualPoolMerge(a: seq<Person>, b: seq<Person>, ab: Assignment, ba: Assignment)
    requires IdSet(a) !! IdSet(b)
    requires Valid(ab) && multiset(Keys(ab)) <= multiset(a) && multiset(Flatten(ab)) == multiset(b)
    requires Valid(ba) && multiset(Keys(ba)) <= multiset(b) && multiset(Flatten(ba)) == multiset(a)
    ensures PutAll(PutAll([], ab), ba) == ab + ba
    ensures Valid(ab + ba)
    ensures multiset(Flatten(ab + ba)) == multiset(a) + multiset(b)
    ensures CrossesPools(ab, a, b) && CrossesPools(ba, b, a)
  {
    PutAllDisjoint([], ab);
    assert [] + ab == ab;
    DirectionCrosses(ab, a, b);
    DirectionCrosses(ba, b, a);
    ValidConcat(ab, ba);
    PutAllDisjoint(ab, ba);
    FlattenAppend(ab, ba);
  }

  /**
   * assignDualPool: validates poolA, then poolB, then that they share no id;
   * then puts the A-reviews-B assignment and after it the B-reviews-A one into
   * one map. Every member of each pool is reviewed exactly once, by someone from
   * the other pool, so nobody reviews themselves or a member of their own pool.
   */
  method AssignDualPool(poolA: RawPool, poolB: RawPool, rnd: seq<nat>)
    returns (r: Result<Assignment, AssignError>, rest: seq<nat>, ghost ab: Assignment, ghost ba: Assignment)
    ensures !WellFormedPool(poolA) ==> r.Err? && RejectedAs(poolA, PoolAName, r.error)
    ensures WellFormedPool(poolA) && !WellFormedPool(poolB) ==> r.Err? && RejectedAs(poolB, PoolBName, r.error)
    ensures WellFormedPool(poolA) && WellFormedPool(poolB) && !(IdSet(Members(poolA)) !! IdSet(Members(poolB))) ==>
      r == Err(OverlappingIds(OverlapIds(Members(poolA), Members(poolB))))
    ensures r.Ok? <==> WellFormedPool(poolA) && WellFormedPool(poolB) && IdSet(Members(poolA)) !! IdSet(Members(poolB))
    ensures r.Err? ==> rest == rnd
    ensures IsSuffix(rest, rnd)
    ensures r.Ok? ==> r.value == ab + ba && Valid(r.value)
    ensures r.Ok? ==> multiset(Keys(ab)) <= multiset(Members(poolA)) && multiset(Flatten(ab)) == multiset(Members(poolB))
    ensures r.Ok? ==> multiset(Keys(ba)) <= multiset(Members(poolB)) && multiset(Flatten(ba)) == multiset(Members(poolA))
    ensures r.Ok? ==> multiset(Flatten(r.value)) == multiset(Members(poolA)) + multiset(Members(poolB))
    ensures r.Ok? ==> CrossesPools(ab, Members(poolA), Members(poolB)) && CrossesPools(ba, Members(poolB), Members(poolA))
    ensures r.Ok? ==> exists sr, se :: DealtFrom(ab, Members(poolA), Members(poolB), sr, se)
    ensures r.Ok? ==> exists sr, se :: DealtFrom(ba, Members(poolB), Members(poolA), sr, se)
    ensures r.Ok? ==> BalancedLoads(ab, |Members(poolA)|, |Members(poolB)|) && BalancedLoads(ba, |Members(poolB)|, |Members(poolA)|)
  {
    rest := rnd;
    ab, ba := [], [];
    var va := ValidatePeople(poolA, PoolAName);
    if va.Err? {
      return Err(va.error), rest, ab, ba;
    }
    var vb := ValidatePeople(poolB, PoolBName);
    if vb.Err? {
      return Err(vb.error), rest, ab, ba;
    }
    var a, b := va.value, vb.value;
    var overlap := ValidateNoOverlap(a, b);
    if overlap.Fail? {
      return Err(overlap.error), rest, ab, ba;
    }
    var assignment: Assignment := [];
    ghost var sr, se;
    var d1, rest1;
    d1, rest1, sr, se := AssignDirection(a, b, AToB, rnd);
    assert d1.Ok?;
    var aReviewsB := d1.value;
    ab := aReviewsB;
    assert DealtFrom(ab, a, b, sr, se) && BalancedLoads(ab, |a|, |b|);
    assignment := PutAll(assignment, aReviewsB);
    var d2;
    d2, rest, sr, se := AssignDirection(b, a, BToA, rest1);
    SuffixTrans(rest, rest1, rnd);
    assert d2.Ok?;
    var bReviewsA := d2.value;
    ba := bReviewsA;
    assert DealtFrom(ba, b, a, sr, se) && BalancedLoads(ba, |b|, |a|);
    assignment := PutAll(assignment, bReviewsA);
    DualPoolMerge(a, b, aReviewsB, bReviewsA);
    return Ok(assignment), rest, ab, ba;
  }
}
