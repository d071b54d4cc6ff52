/**
 * The identity value of the system: a person with a display name and an
 * employee id. Equality and hashing look at the employee id only.
 */
module People {
  import opened Wrappers
  import opened JavaText

  datatype Person = Person(name: string, employeeId: string)

  /** The two ways the public constructor rejects its arguments. */
  datatype PersonError = BlankName | BlankEmployeeId

  /** What the public constructor guarantees of every Person it builds. */
  predicate WellFormed(p: Person) {
    && p.name != [] && Trim(p.name) == p.name
    && p.employeeId != [] && Trim(p.employeeId) == p.employeeId
  }

  /**
   * The public constructor: the name is checked first, then the id; each must
   * be non-null and not blank after trimming, and is stored trimmed.
   */
  function NewPerson(name: Option<string>, employeeId: Option<string>): (r: Result<Person, PersonError>)
    ensures name.None? || IsBlank(name.value) ==> r == Err(BlankName)
    ensures (name.Some? && !IsBlank(name.value) && (employeeId.None? || IsBlank(employeeId.value)))
      ==> r == Err(BlankEmployeeId)
    ensures r.Ok? <==> name.Some? && !IsBlank(name.value) && employeeId.Some? && !IsBlank(employeeId.value)
    ensures r.Ok? ==> r.value.name == Trim(name.value) && r.value.employeeId == Trim(employeeId.value)
  {
    if name.None? || IsBlank(name.value) then Err(BlankName)
    else if employeeId.None? || IsBlank(employeeId.value) then Err(BlankEmployeeId)
    else Ok(Person(Trim(name.value), Trim(employeeId.value)))
  }

  /** Every Person the public constructor accepts is well formed. */
  lemma NewPersonWellFormed(name: Option<string>, employeeId: Option<string>)
    ensures NewPerson(name, employeeId).Ok? ==> WellFormed(NewPerson(name, employeeId).value)
  {
    if NewPerson(name, employeeId).Ok? {
      TrimIdempotent(name.value);
      TrimIdempotent(employeeId.value);
    }
  }

  /** Building a Person again from its accessors gives the same Person back. */
  lemma NewPersonFromAccessors(p: Person)
    requires WellFormed(p)
    ensures NewPerson(Some(p.name), Some(p.employeeId)) == Ok(p)
  {
  }

  /** The private no-argument constructor used by the JSON binder: both fields empty. */
  function DeserializerDefault(): (p: Person)
    ensures p.name == [] && p.employeeId == []
  {
    Person("", "")
  }

  /** The default Person is one the public constructor can never produce. */
  lemma DefaultBypassesValidation(name: Option<string>, employeeId: Option<string>)
    ensures !WellFormed(DeserializerDefault())
    ensures NewPerson(name, employeeId) != Ok(DeserializerDefault())
  {
  }

  /** Person.equals(o): o is a non-null Person with the same employee id. */
  predicate Equals(p: Person, o: Option<Person>) {
    o.Some? && o.value.employeeId == p.employeeId
  }

  lemma EqualsIsEquivalence(p: Person, q: Person, s: Person)
    ensures Equals(p, Some(p))
    ensures Equals(p, Some(q)) <==> Equals(q, Some(p))
    ensures Equals(p, Some(q)) && Equals(q, Some(s)) ==> Equals(p, Some(s))
    ensures !Equals(p, None)
  {
  }

  /** Java int arithmetic: reduce to the signed 32-bit range. */
  function Wrap32(x: int): (r: int)
    ensures -0x8000_0000 <= r < 0x8000_0000
    ensures (r - x) % 0x1_0000_0000 == 0
  {
    var m := x % 0x1_0000_0000;
    if m >= 0x8000_0000 then m - 0x1_0000_0000 else m
  }

  /** String.hashCode(): h = 31 * h + unit over the UTF-16 units, in int arithmetic. */
  function StringHash(u: seq<int>): int {
    if u == [] then 0 else Wrap32(31 * StringHash(u[..|u| - 1]) + u[|u| - 1])
  }

  /** Person.hashCode() = Objects.hash(employeeId) = 31 * 1 + employeeId.hashCode(). */
  function HashCode(p: Person): (h: int)
    ensures -0x8000_0000 <= h < 0x8000_0000
  {
    Wrap32(31 + StringHash(Utf16(p.employeeId)))
  }

  /** Equal persons have equal hash codes, whatever their names. */
  lemma HashCodeConsistent(p: Person, q: Person)
    requires Equals(p, Some(q))
    ensures HashCode(p) == HashCode(q)
  {
  }

  /** Person.toString(): "name(employeeId)". */
  function ToString(p: Person): (s: string)
    ensures |s| == |p.name| + |p.employeeId| + 2
    ensures s[..|p.name|] == p.name && s[|p.name|] == '('
    ensures s[|p.name| + 1..|s| - 1] == p.employeeId && s[|s| - 1] == ')'
  {
    p.name + "(" + p.employeeId + ")"
  }

  // ---------------------------------------------------------------------------
  // Identity within a pool

  /** The employee ids occurring in a sequence of persons. */
  function IdSet(s: seq<Person>): set<string> {
    set p | p in s :: p.employeeId
  }

  /** No two positions of s hold the same employee id. */
  predicate DistinctIds(s: seq<Person>) {
    forall i, j :: 0 <= i < j < |s| ==> s[i].employeeId != s[j].employeeId
  }

  lemma IdSetSnoc(s: seq<Person>, p: Person)
    ensures IdSet(s + [p]) == IdSet(s) + {p.employeeId}
  {
    assert forall q :: q in s + [p] <==> q in s || q == p;
  }

  /**
   * A sequence never holds more distinct ids than elements, and holds exactly as
   * many precisely when no id repeats.
   */
  lemma {:induction false} IdSetCard(s: seq<Person>)
    ensures |IdSet(s)| <= |s|
    ensures |IdSet(s)| == |s| <==> DistinctIds(s)
    decreases |s|
  {
    if s == [] {
      assert IdSet(s) == {};
    } else {
      var s', p := s[..|s| - 1], s[|s| - 1];
      assert s == s' + [p];
      IdSetSnoc(s', p);
      IdSetCard(s');
      if p.employeeId in IdSet(s') {
        assert IdSet(s) == IdSet(s');
        var q :| q in s' && q.employeeId == p.employeeId;
        var i :| 0 <= i < |s'| && s'[i] == q;
        assert s[i].employeeId == s[|s| - 1].employeeId;
      } else {
        assert |IdSet(s)| == |IdSet(s')| + 1;
        assert DistinctIds(s) <==> DistinctIds(s') by {
          if DistinctIds(s') {
            forall i | 0 <= i < |s'| ensures s[i].employeeId != p.employeeId {
              assert s'[i] in s';
            }
          } else {
            var i, j :| 0 <= i < j < |s'| && s'[i].employeeId == s'[j].employeeId;
            assert s[i] == s'[i] && s[j] == s'[j];
          }
        }
      }
    }
  }

  /** Reordering a pool (any permutation) keeps its ids distinct. */
  lemma DistinctIdsPermutation(a: seq<Person>, b: seq<Person>)
    requires multiset(a) == multiset(b)
    requires DistinctIds(a)
    ensures DistinctIds(b)
    ensures IdSet(a) == IdSet(b)
  {
    assert forall p :: p in a <==> p in multiset(a);
    assert forall p :: p in b <==> p in multiset(b);
    assert |a| == |multiset(a)| == |multiset(b)| == |b|;
    assert IdSet(a) == IdSet(b);
    IdSetCard(a);
    IdSetCard(b);
  }

  /** In a pool without repeated ids, nobody's id occurs before their own position. */
  lemma DistinctIdsNotInPrefix(s: seq<Person>, i: nat)
    requires DistinctIds(s) && i < |s|
    ensures s[i].employeeId !in IdSet(s[..i])
  {
    forall q | q in s[..i] ensures q.employeeId != s[i].employeeId {
      var k :| 0 <= k < i && s[..i][k] == q;
      assert s[k] == q;
    }
  }

  /** Taking part of a pool (a sub-multiset) only takes ids of that pool. */
  lemma SubMultisetIdSet(s: seq<Person>, t: seq<Person>)
    requires multiset(s) <= multiset(t)
    ensures IdSet(s) <= IdSet(t)
  {
    forall x | x in IdSet(s) ensures x in IdSet(t) {
      var p :| p in s && p.employeeId == x;
      assert p in multiset(s);
    }
  }
}
