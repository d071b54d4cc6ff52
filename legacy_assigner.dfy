/**
 * The first-generation assigner. Every reviewer gets exactly one person to
 * review. Single-pool mode is the same circle as the current engine. Dual-pool
 * mode maps every member of one pool to a member of the other, cycling through
 * the other pool when it is smaller, and does not promise that every member of
 * a larger pool is reviewed.
 */
module LegacyCodeReviewAssigner {
  import opened Wrappers
  import opened People
  import opened LinkedMaps
  import opened Shuffling
  import opened Arith

  datatype LegacyError =
    | EmptyPool(pool: string)
    | DuplicateIds(pool: string)
    | TooFewPeople
    | SharedPeople(ids: set<string>)

  const SinglePoolName: string := "单池"
  const PoolAName: string := "池A"
  const PoolBName: string := "池B"

  /** Map<Person, Person>: each reviewer and the one person they review. */
  type Pairing = LinkedMap<Person>

  /** hasDuplicateEmployeeId: the list is longer than its number of distinct ids. */
  predicate HasDuplicateEmployeeId(s: seq<Person>) {
    |s| != |IdSet(s)|
  }

  /** Comparing counts detects exactly the lists in which some id repeats. */
  lemma HasDuplicateIff(s: seq<Person>)
    ensures HasDuplicateEmployeeId(s) <==> !DistinctIds(s)
  {
    IdSetCard(s);
  }

  /** validatePeople: a null or empty list, then a repeated id, is refused. */
  function ValidatePeople(list: Option<seq<Person>>, poolName: string): (r: Outcome<LegacyError>)
    ensures list.None? || list == Some([]) ==> r == Fail(EmptyPool(poolName))
    ensures list.Some? && list.value != [] && !DistinctIds(list.value) ==> r == Fail(DuplicateIds(poolName))
    ensures r.Pass? <==> list.Some? && list.value != [] && DistinctIds(list.value)
  {
    HasDuplicateIff(if list.Some? then list.value else []);
    if list.None? || list.value == [] then Fail(EmptyPool(poolName))
    else if HasDuplicateEmployeeId(list.value) then Fail(DuplicateIds(poolName))
    else Pass
  }

  // ---------------------------------------------------------------------------
  // Single pool

  /** Position i of the shuffled pool reviews position (i + 1) mod n. */
  function Circle(s: seq<Person>): (m: Pairing)
    ensures |m| == |s|
  {
    seq(|s|, i requires 0 <= i < |s| => Entry(s[i], s[Successor(i, |s|)]))
  }

  lemma CircleStep(s: seq<Person>, i: nat)
    requires DistinctIds(s) && i < |s|
    ensures Put(Circle(s)[..i], s[i], s[Successor(i, |s|)]) == Circle(s)[..i + 1]
  {
    var m := Circle(s)[..i];
    var e := Entry(s[i], s[Successor(i, |s|)]);
    assert Keys(m) == s[..i];
    DistinctIdsNotInPrefix(s, i);
    assert Put(m, s[i], e.value) == m + [e];
    assert Circle(s)[..i + 1] == m + [e];
  }

  lemma CircleKeys(s: seq<Person>)
    ensures Keys(Circle(s)) == s
  {
  }

  /** The reviewed people are the pool rotated by one. */
  lemma {:induction false} CircleValuesPrefix(s: seq<Person>, k: nat)
    requires k < |s|
    ensures Values(Circle(s)[..k]) == s[1..k + 1]
  {
    if k > 0 {
      CircleValuesPrefix(s, k - 1);
      assert Values(Circle(s)[..k]) == Values(Circle(s)[..k - 1]) + [s[k]];
    }
  }

  lemma CircleValues(s: seq<Person>)
    requires |s| > 0
    ensures Values(Circle(s)) == s[1..] + [s[0]]
  {
    var n := |s|;
    CircleValuesPrefix(s, n - 1);
    assert Circle(s)[..n - 1] + [Circle(s)[n - 1]] == Circle(s);
    assert Values(Circle(s)) == Values(Circle(s)[..n - 1]) + [s[0]];
  }

  /**
   * For a pool of at least two distinct ids: everyone is a reviewer once and
   * reviewed once, and nobody reviews themselves.
   */
  lemma CircleProperties(s: seq<Person>)
    requires |s| >= 2 && DistinctIds(s)
    ensures Valid(Circle(s)) && Keys(Circle(s)) == s
    ensures Values(Circle(s)) == s[1..] + [s[0]]
    ensures multiset(Values(Circle(s))) == multiset(s)
    ensures forall i :: 0 <= i < |s| ==> Circle(s)[i].value.employeeId != Circle(s)[i].key.employeeId
  {
    var n := |s|;
    CircleKeys(s);
    CircleValues(s);
    assert s == [s[0]] + s[1..];
    forall i | 0 <= i < n ensures Circle(s)[i].value.employeeId != Circle(s)[i].key.employeeId {
      var j := Successor(i, n);
      assert Circle(s)[i] == Entry(s[i], s[j]);
      assert j != i;
    }
  }

  /**
   * assignSinglePool: validation, then at least two people, then the shuffled
   * pool where each person reviews the next one, the last reviewing the first.
   */
  method AssignSinglePool(people: Option<seq<Person>>, rnd: seq<nat>)
    returns (r: Result<Pairing, LegacyError>, rest: seq<nat>, ghost shuffled: seq<Person>)
    ensures ValidatePeople(people, SinglePoolName).Fail? ==> r == Err(ValidatePeople(people, SinglePoolName).error)
    ensures ValidatePeople(people, SinglePoolName).Pass? && |people.value| < 2 ==> r == Err(TooFewPeople)
    ensures r.Ok? <==> people.Some? && |people.value| >= 2 && DistinctIds(people.value)
    ensures IsSuffix(rest, rnd)
    ensures r.Ok? ==> multiset(shuffled) == multiset(people.value) && r.value == Circle(shuffled)
    ensures r.Ok? ==> Valid(r.value) && |r.value| == |people.value|
    ensures r.Ok? ==> multiset(Keys(r.value)) == multiset(people.value)
    ensures r.Ok? ==> multiset(Values(r.value)) == multiset(people.value)
    ensures r.Ok? ==> forall i :: 0 <= i < |r.value| ==> r.value[i].value.employeeId != r.value[i].key.employeeId
  {
    rest := rnd;
    shuffled := [];
    var v := ValidatePeople(people, SinglePoolName);
    if v.Fail? {
      return Err(v.error), rest, shuffled;
    }
    var pool := people.value;
    if |pool| < 2 {
      return Err(TooFewPeople), rest, shuffled;
    }
    var s;
    s, rest := ShuffledCopy(pool, rnd);
    shuffled := s;
    DistinctIdsPermutation(pool, s);
    var assignment: Pairing := [];
    var n := |s|;
    var i := 0;
    while i < n
      invariant 0 <= i <= n
      invariant assignment == Circle(s)[..i]
    {
      CircleStep(s, i);
      SuccessorIsModulo(i, n);
      assignment := Put(assignment, s[i], s[(i + 1) % n]);
      i := i + 1;
    }
    assert assignment == Circle(s);
    CircleProperties(s);
    return Ok(assignment), rest, shuffled;
  }

  // ---------------------------------------------------------------------------
  // Cross assignment

  /** Shuffled `from` member i reviews shuffled `to` member i mod |to|. */
  function Cross(sf: seq<Person>, st: seq<Person>): (m: Pairing)
    requires |sf| > 0 ==> |st| > 0
    ensures |m| == |sf|
  {
    seq(|sf|, i requires 0 <= i < |sf| => Entry(sf[i], st[i % |st|]))
  }

  lemma CrossStep(sf: seq<Person>, st: seq<Person>, i: nat)
    requires DistinctIds(sf) && i < |sf| && |st| > 0
    ensures 0 <= i % |st| < |st|
    ensures Put(Cross(sf, st)[..i], sf[i], st[i % |st|]) == Cross(sf, st)[..i + 1]
  {
    DivModSplit(i, |st|);
    var m := Cross(sf, st)[..i];
    var e := Entry(sf[i], st[i % |st|]);
    assert Keys(m) == sf[..i];
    DistinctIdsNotInPrefix(sf, i);
    assert Put(m, sf[i], e.value) == m + [e];
    assert Cross(sf, st)[..i + 1] == m + [e];
  }

  /** Every `from` member is a key exactly once and is mapped to a member of `to`. */
  lemma CrossProperties(sf: seq<Person>, st: seq<Person>)
    requires DistinctIds(sf) && (|sf| > 0 ==> |st| > 0)
    ensures Valid(Cross(sf, st)) && Keys(Cross(sf, st)) == sf
    ensures forall i :: 0 <= i < |sf| ==> Cross(sf, st)[i].value in st
  {
    assert Keys(Cross(sf, st)) == sf;
    forall i | 0 <= i < |sf| ensures Cross(sf, st)[i].value in st {
      DivModSplit(i, |st|);
    }
  }

  /** With at least as many reviewers as reviewees, the first |to| pairs already cover all of `to`. */
  lemma CrossCovers(sf: seq<Person>, st: seq<Person>)
    requires |sf| >= |st| > 0
    ensures Values(Cross(sf, st))[..|st|] == st
    ensures multiset(st) <= multiset(Values(Cross(sf, st)))
  {
    var vs := Values(Cross(sf, st));
    forall j | 0 <= j < |st| ensures vs[j] == st[j] {
      ModSmall(j, |st|);
    }
    assert vs[..|st|] == st;
    assert vs == vs[..|st|] + vs[|st|..];
  }

  /**
   * With fewer reviewers than reviewees, the reviewee just past the reviewers'
   * count is never reviewed: the pairs only reach the first |from| members of `to`.
   */
  lemma CrossMissesReviewee(sf: seq<Person>, st: seq<Person>)
    requires 0 < |sf| < |st| && DistinctIds(st)
    ensures Values(Cross(sf, st)) == st[..|sf|]
    ensures st[|sf|] !in Values(Cross(sf, st))
  {
    var vs := Values(Cross(sf, st));
    forall j | 0 <= j < |sf| ensures vs[j] == st[j] {
      ModSmall(j, |st|);
    }
    assert vs == st[..|sf|];
    forall j | 0 <= j < |sf| ensures vs[j] != st[|sf|] {
      assert st[j].employeeId != st[|sf|].employeeId;
    }
  }

  /**
   * assignCross: both lists are shuffled (from first), then shuffled `from`
   * member i is mapped to shuffled `to` member i mod |to|. Only called on
   * validated pools, so `from` has distinct ids and `to` is non-empty.
   */
  method AssignCross(from: seq<Person>, to: seq<Person>, rnd: seq<nat>)
    returns (m: Pairing, rest: seq<nat>, ghost sf: seq<Person>, ghost st: seq<Person>)
    requires DistinctIds(from) && (|from| > 0 ==> |to| > 0)
    ensures multiset(sf) == multiset(from) && multiset(st) == multiset(to) && |sf| == |from| && |st| == |to|
    ensures m == Cross(sf, st)
    ensures IsSuffix(rest, rnd)
    ensures Valid(m) && |m| == |from| && multiset(Keys(m)) == multiset(from)
    ensures forall i :: 0 <= i < |m| ==> m[i].value in to
    ensures |from| >= |to| ==> multiset(to) <= multiset(Values(m))
  {
    var shuffledFrom, rest1 := ShuffledCopy(from, rnd);
    var shuffledTo;
    shuffledTo, rest := ShuffledCopy(to, rest1);
    SuffixTrans(rest, rest1, rnd);
    sf, st := shuffledFrom, shuffledTo;
    DistinctIdsPermutation(from, sf);
    m := [];
    var i := 0;
    while i < |shuffledFrom|
      invariant 0 <= i <= |sf|
      invariant m == Cross(sf, st)[..i]
    {
      CrossStep(sf, st, i);
      m := Put(m, shuffledFrom[i], shuffledTo[i % |shuffledTo|]);
      i := i + 1;
    }
    assert m == Cross(sf, st);
    CrossProperties(sf, st);
    forall i | 0 <= i < |m| ensures m[i].value in to {
      assert m[i].value in multiset(st);
    }
    if |from| >= |to| && |to| > 0 {
      CrossCovers(sf, st);
    }
  }

  /** m is what assignCross returns for the shuffled orders sf of `from` and st of `to`. */
  predicate CrossOfShuffles(m: Pairing, from: seq<Person>, to: seq<Person>, sf: seq<Person>, st: seq<Person>) {
    multiset(sf) == multiset(from) && multiset(st) == multiset(to) && |sf| == |from| && |st| == |to| &&
    (|sf| > 0 ==> |st| > 0) && m == Cross(sf, st)
  }

  // ---------------------------------------------------------------------------
  // Dual pool

  /** The ids of the people both pools hold (HashSet.retainAll under Person.equals). */
  function SharedIds(a: seq<Person>, b: seq<Person>): (ids: set<string>)
    ensures ids == {} <==> IdSet(a) !! IdSet(b)
  {
    EmptyIntersection(IdSet(a), IdSet(b));
    IdSet(a) * IdSet(b)
  }

  lemma EmptyIntersection<T>(x: set<T>, y: set<T>)
    ensures x * y == {} <==> x !! y
  {
    if x * y == {} {
      forall e | e in x ensures e !in y {
        assert e !in x * y;
      }
    } else {
      var e :| e in x * y;
      assert e in x && e in y;
    }
  }

  /**
   * The merge of the two cross maps, and what assignDualPool promises of it:
   * disjoint key sets, so every member of both pools is a key exactly once.
   */
  lemma DualMerge(a: seq<Person>, b: seq<Person>, ab: Pairing, ba: Pairing)
    requires IdSet(a) !! IdSet(b)
    requires Valid(ab) && multiset(Keys(ab)) == multiset(a)
    requires Valid(ba) && multiset(Keys(ba)) == multiset(b)
    requires forall i :: 0 <= i < |ab| ==> ab[i].value in b
    requires forall i :: 0 <= i < |ba| ==> ba[i].value in a
    ensures PutAll(PutAll([], ab), ba) == ab + ba
    ensures Valid(ab + ba) && multiset(Keys(ab + ba)) == multiset(a) + multiset(b)
    ensures |ab + ba| == |a| + |b|
    ensures (ab + ba)[..|a|] == ab && (ab + ba)[|a|..] == ba
    ensures multiset(Keys((ab + ba)[..|a|])) == multiset(a) && multiset(Keys((ab + ba)[|a|..])) == multiset(b)
    ensures forall i :: 0 <= i < |a| ==> (ab + ba)[i].key in a && (ab + ba)[i].value in b
    ensures forall i :: |a| <= i < |ab + ba| ==> (ab + ba)[i].key in b && (ab + ba)[i].value in a
    ensures forall i :: 0 <= i < |ab + ba| ==> (ab + ba)[i].key.employeeId != (ab + ba)[i].value.employeeId
  {
    assert |Keys(ab)| == |a| && |Keys(ba)| == |b| by {
      assert |multiset(Keys(ab))| == |multiset(a)|;
      assert |multiset(Keys(ba))| == |multiset(b)|;
    }
    PutAllDisjoint([], ab);
    assert [] + ab == ab;
    DistinctIdsPermutation(Keys(ab), a);
    DistinctIdsPermutation(Keys(ba), b);
    ValidConcat(ab, ba);
    PutAllDisjoint(ab, ba);
    KeysAppend(ab, ba);
    DualCrosses(a, b, ab, ba);
  }

  /** In ab + ba, the first |a| entries are a's members reviewing b, the rest b's reviewing a. */
  lemma DualCrosses(a: seq<Person>, b: seq<Person>, ab: Pairing, ba: Pairing)
    requires IdSet(a) !! IdSet(b)
    requires multiset(Keys(ab)) == multiset(a) && multiset(Keys(ba)) == multiset(b) && |ab| == |a|
    requires forall i :: 0 <= i < |ab| ==> ab[i].value in b
    requires forall i :: 0 <= i < |ba| ==> ba[i].value in a
    ensures (ab + ba)[..|a|] == ab && (ab + ba)[|a|..] == ba
    ensures forall i :: 0 <= i < |a| ==> (ab + ba)[i].key in a && (ab + ba)[i].value in b
    ensures forall i :: |a| <= i < |ab + ba| ==> (ab + ba)[i].key in b && (ab + ba)[i].value in a
    ensures forall i :: 0 <= i < |ab + ba| ==> (ab + ba)[i].key.employeeId != (ab + ba)[i].value.employeeId
  {
    var m := ab + ba;
    assert m[..|a|] == ab && m[|a|..] == ba;
    forall i | 0 <= i < |a| ensures m[i].key in a && m[i].value in b {
      assert m[i].key == Keys(ab)[i] && Keys(ab)[i] in multiset(a);
    }
    forall i | |a| <= i < |m| ensures m[i].key in b && m[i].value in a {
      assert m[i].key == Keys(ba)[i - |a|] && Keys(ba)[i - |a|] in multiset(b);
    }
    forall i | 0 <= i < |m| ensures m[i].key.employeeId != m[i].value.employeeId {
      if i < |a| {
        CrossIds(a, b, m[i].key, m[i].value);
      } else {
        CrossIds(b, a, m[i].key, m[i].value);
      }
    }
  }

  /** A member of one pool and a member of a pool sharing no id with it never share an id. */
  lemma CrossIds(a: seq<Person>, b: seq<Person>, p: Person, q: Person)
    requires IdSet(a) !! IdSet(b) && p in a && q in b
    ensures p.employeeId != q.employeeId
  {
    assert p.employeeId in IdSet(a) && q.employeeId in IdSet(b);
  }

  /**
   * assignDualPool: validates pool A, then pool B, refuses pools that share a
   * person, then merges A-reviews-B and B-reviews-A. Everyone in both pools
   * reviews exactly one person of the other pool.
   */
  method AssignDualPool(poolA: Option<seq<Person>>, poolB: Option<seq<Person>>, rnd: seq<nat>)
    returns (r: Result<Pairing, LegacyError>, rest: seq<nat>, ghost ab: Pairing, ghost ba: Pairing)
    ensures ValidatePeople(poolA, PoolAName).Fail? ==> r == Err(ValidatePeople(poolA, PoolAName).error)
    ensures ValidatePeople(poolA, PoolAName).Pass? && ValidatePeople(poolB, PoolBName).Fail? ==>
      r == Err(ValidatePeople(poolB, PoolBName).error)
    ensures ValidatePeople(poolA, PoolAName).Pass? && ValidatePeople(poolB, PoolBName).Pass? ==>
      (SharedIds(poolA.value, poolB.value) != {} ==> r == Err(SharedPeople(SharedIds(poolA.value, poolB.value))))
    ensures r.Ok? <==>
      (ValidatePeople(poolA, PoolAName).Pass? && ValidatePeople(poolB, PoolBName).Pass? &&
       IdSet(poolA.value) !! IdSet(poolB.value))
    ensures IsSuffix(rest, rnd)
    ensures r.Ok? ==> Valid(r.value) && |r.value| == |poolA.value| + |poolB.value|
    ensures r.Ok? ==> multiset(Keys(r.value)) == multiset(poolA.value) + multiset(poolB.value)
    ensures r.Ok? ==> r.value == ab + ba && |ab| == |poolA.value|
    ensures r.Ok? ==> exists sf, st :: CrossOfShuffles(ab, poolA.value, poolB.value, sf, st)
    ensures r.Ok? ==> exists sf, st :: CrossOfShuffles(ba, poolB.value, poolA.value, sf, st)
    ensures r.Ok? ==> multiset(Keys(ab)) == multiset(poolA.value) && multiset(Keys(ba)) == multiset(poolB.value)
    ensures r.Ok? ==> forall i :: 0 <= i < |poolA.value| ==> r.value[i].key in poolA.value && r.value[i].value in poolB.value
    ensures r.Ok? ==> forall i :: |poolA.value| <= i < |r.value| ==> r.value[i].key in poolB.value && r.value[i].value in poolA.value
    ensures r.Ok? ==> forall i :: 0 <= i < |r.value| ==> r.value[i].key.employeeId != r.value[i].value.employeeId
  {
    rest := rnd;
    ab, ba := [], [];
    var va := ValidatePeople(poolA, PoolAName);
    if va.Fail? {
      return Err(va.error), rest, ab, ba;
    }
    var vb := ValidatePeople(poolB, PoolBName);
    if vb.Fail? {
      return Err(vb.error), rest, ab, ba;
    }
    var a, b := poolA.value, poolB.value;
    var shared := SharedIds(a, b);
    if shared != {} {
      return Err(SharedPeople(shared)), rest, ab, ba;
    }
    var assignment: Pairing := [];
    ghost var sf, st;
    var aReviewsB, rest1;
    aReviewsB, rest1, sf, st := AssignCross(a, b, rnd);
    ab := aReviewsB;
    assert CrossOfShuffles(ab, a, b, sf, st);
    assignment := PutAll(assignment, aReviewsB);
    var bReviewsA;
    bReviewsA, rest, sf, st := AssignCross(b, a, rest1);
    ba := bReviewsA;
    assert CrossOfShuffles(ba, b, a, sf, st);
    SuffixTrans(rest, rest1, rnd);
    assignment := PutAll(assignment, bReviewsA);
    DualMerge(a, b, ab, ba);
    assert assignment == ab + ba;
    return Ok(assignment), rest, ab, ba;
  }
}
