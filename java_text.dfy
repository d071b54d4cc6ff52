/**
 * The few pieces of java.lang.String that the core relies on: the UTF-16 view
 * of a string (length(), toCharArray(), hashCode()), trim(), replace(char, String),
 * lastIndexOf(char) and an ASCII equalsIgnoreCase.
 */
module JavaText {

  /** The UTF-16 code units of one character: one unit in the BMP, a surrogate pair above it. */
  function CodeUnits(c: char): (u: seq<int>)
    ensures 1 <= |u| <= 2
    ensures (c as int < 0x10000) <==> |u| == 1
  {
    var v := c as int;
    if v < 0x10000 then [v]
    else [0xD800 + (v - 0x10000) / 0x400, 0xDC00 + (v - 0x10000) % 0x400]
  }

  /** The Java char[] of a string: its UTF-16 code units. */
  function Utf16(s: string): (u: seq<int>)
    ensures |s| <= |u| <= 2 * |s|
  {
    if s == [] then [] else Utf16(s[..|s| - 1]) + CodeUnits(s[|s| - 1])
  }

  lemma {:induction false} Utf16Append(a: string, b: string)
    ensures Utf16(a + b) == Utf16(a) + Utf16(b)
    decreases |b|
  {
    if b == [] {
      assert a + b == a;
    } else {
      var b', c := b[..|b| - 1], b[|b| - 1];
      assert (a + b)[..|a + b| - 1] == a + b' && (a + b)[|a + b| - 1] == c;
      Utf16Append(a, b');
      assert Utf16(a + b) == Utf16(a + b') + CodeUnits(c);
      assert Utf16(b) == Utf16(b') + CodeUnits(c);
    }
  }

  /** String.trim() removes every leading and trailing char whose code is at most U+0020. */
  predicate IsTrimmable(c: char) {
    c <= ' '
  }

  /** The first index from st on whose char is not trimmable, or |s|. */
  function TrimStart(s: string, st: nat): (n: nat)
    requires st <= |s|
    ensures st <= n <= |s|
    ensures forall k :: st <= k < n ==> IsTrimmable(s[k])
    ensures n == |s| || !IsTrimmable(s[n])
    decreases |s| - st
  {
    if st < |s| && IsTrimmable(s[st]) then TrimStart(s, st + 1) else st
  }

  /** Moving len down past trimmable chars, but not below st. */
  function TrimEnd(s: string, st: nat, len: nat): (e: nat)
    requires st <= len <= |s|
    ensures st <= e <= len
    ensures forall k :: e <= k < len ==> IsTrimmable(s[k])
    ensures e == st || !IsTrimmable(s[e - 1])
    decreases len
  {
    if st < len && IsTrimmable(s[len - 1]) then TrimEnd(s, st, len - 1) else len
  }

  /** r is s[a..a + |r|], and every char of s outside that slice is trimmable. */
  predicate SliceBetweenBlanks(s: string, r: string, a: int) {
    0 <= a <= |s| - |r| && r == s[a..a + |r|] &&
    (forall k :: 0 <= k < a ==> IsTrimmable(s[k])) &&
    (forall k :: a + |r| <= k < |s| ==> IsTrimmable(s[k]))
  }

  /**
   * String.trim(): st skips the trimmable chars at the front, len drops those
   * at the back, and the result is the slice between them.
   */
  function Trim(s: string): (r: string)
    ensures r == [] || (!IsTrimmable(r[0]) && !IsTrimmable(r[|r| - 1]))
    ensures r == [] <==> forall k :: 0 <= k < |s| ==> IsTrimmable(s[k])
    ensures exists a :: SliceBetweenBlanks(s, r, a)
  {
    var st := TrimStart(s, 0);
    var len := TrimEnd(s, st, |s|);
    assert SliceBetweenBlanks(s, s[st..len], st);
    s[st..len]
  }

  /** `s.trim().isEmpty()` */
  predicate IsBlank(s: string) {
    Trim(s) == []
  }

  lemma TrimIdempotent(s: string)
    ensures Trim(Trim(s)) == Trim(s)
  {
    var t := Trim(s);
    if t != [] {
      assert TrimStart(t, 0) == 0;
      assert TrimEnd(t, 0, |t|) == |t|;
      assert t[0..|t|] == t;
    }
  }

  /** String.replace(c, rep) for a single char c: every occurrence of c becomes rep. */
  function ReplaceChar(s: string, c: char, rep: string): (r: string)
    ensures forall x :: x in r ==> x in rep || (x in s && x != c)
    ensures c !in s ==> r == s
  {
    if s == [] then [] else (if s[0] == c then rep else [s[0]]) + ReplaceChar(s[1..], c, rep)
  }

  /** Replacement works piece by piece: replacing in a + b is replacing in a, then in b. */
  lemma {:induction false} ReplaceCharAppend(a: string, b: string, c: char, rep: string)
    ensures ReplaceChar(a + b, c, rep) == ReplaceChar(a, c, rep) + ReplaceChar(b, c, rep)
    decreases |a|
  {
    if a == [] {
      assert a + b == b;
    } else {
      assert (a + b)[1..] == a[1..] + b;
      ReplaceCharAppend(a[1..], b, c, rep);
    }
  }

  /** On one char, replacement gives rep for c and keeps any other char. */
  lemma ReplaceCharSingle(x: char, c: char, rep: string)
    ensures ReplaceChar([x], c, rep) == if x == c then rep else [x]
  {
    assert [x][1..] == [];
  }

  /** String.lastIndexOf(c): the last position of c, or -1. */
  function LastIndexOf(s: string, c: char): (r: int)
    ensures -1 <= r < |s|
    ensures r >= 0 ==> s[r] == c
    ensures forall k :: r < k < |s| ==> s[k] != c
  {
    if s == [] then -1
    else if s[|s| - 1] == c then |s| - 1
    else LastIndexOf(s[..|s| - 1], c)
  }

  function ToLowerAscii(c: char): char {
    if 'A' <= c <= 'Z' then (c as int + 32) as char else c
  }

  /** String.equalsIgnoreCase, folding the ASCII letters only. */
  predicate EqualsIgnoreCaseAscii(a: string, b: string) {
    |a| == |b| && forall k :: 0 <= k < |a| ==> ToLowerAscii(a[k]) == ToLowerAscii(b[k])
  }
}
