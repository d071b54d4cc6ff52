/**
 * Display-width arithmetic for a monospaced terminal: a UTF-16 code unit in
 * one of the wide blocks takes two columns, any other code unit one column.
 * Padding to a target width appends or prepends spaces and never truncates.
 */
module FormatUtils {
  import opened Wrappers
  import opened JavaText

  /**
   * Character.UnicodeBlock.of(c) is CJK_UNIFIED_IDEOGRAPHS (U+4E00..U+9FFF),
   * CJK_SYMBOLS_AND_PUNCTUATION (U+3000..U+303F) or HALFWIDTH_AND_FULLWIDTH_FORMS
   * (U+FF00..U+FFEF), or c lies in 0xFF00..0xFFEF.
   */
  predicate IsWide(u: int) {
    (0x4E00 <= u <= 0x9FFF) || (0x3000 <= u <= 0x303F) || (0xFF00 <= u <= 0xFFEF)
  }

  function UnitWidth(u: int): (w: nat)
    ensures w == 2 <==> IsWide(u)
    ensures w == 1 <==> !IsWide(u)
  {
    if IsWide(u) then 2 else 1
  }

  /** Sum of the per-unit widths, folded from the left as the loop does. */
  function UnitsWidth(u: seq<int>): (w: nat)
    ensures |u| <= w <= 2 * |u|
  {
    if u == [] then 0 else UnitsWidth(u[..|u| - 1]) + UnitWidth(u[|u| - 1])
  }

  /** The width of a Java string: its code units, as toCharArray yields them. */
  function Width(s: string): nat {
    UnitsWidth(Utf16(s))
  }

  /** getDisplayWidth's meaning: null has width 0. */
  function DisplayWidth(str: Option<string>): nat {
    if str.None? then 0 else Width(str.value)
  }

  lemma {:induction false} UnitsWidthAppend(a: seq<int>, b: seq<int>)
    ensures UnitsWidth(a + b) == UnitsWidth(a) + UnitsWidth(b)
    decreases |b|
  {
    if b == [] {
      assert a + b == a;
    } else {
      var b', c := b[..|b| - 1], b[|b| - 1];
      assert (a + b)[..|a + b| - 1] == a + b' && (a + b)[|a + b| - 1] == c;
      UnitsWidthAppend(a, b');
    }
  }

  /** Display width is additive over concatenation. */
  lemma WidthAppend(a: string, b: string)
    ensures Width(a + b) == Width(a) + Width(b)
  {
    Utf16Append(a, b);
    UnitsWidthAppend(Utf16(a), Utf16(b));
  }

  /** Between the number of code units and twice that number. */
  lemma WidthBounds(s: string)
    ensures |Utf16(s)| <= Width(s) <= 2 * |Utf16(s)|
    ensures |s| <= Width(s)
  {
  }

  /**
   * One character is at most two columns: a BMP char is one unit, and the two
   * surrogates of a supplementary char lie outside the wide blocks.
   */
  lemma CharWidth(c: char)
    ensures UnitsWidth(CodeUnits(c)) <= 2
  {
    var u := CodeUnits(c);
    if |u| == 2 {
      assert 0xD800 <= u[0] < 0xDC00 && 0xDC00 <= u[1] < 0xE000;
      assert u[..1][..0] == [] && u[..1] == [u[0]];
      assert UnitsWidth(u) == UnitsWidth([u[0]]) + UnitWidth(u[1]) == 2;
    }
  }

  /** Every character takes at most two columns, so a string is at most twice its length wide. */
  lemma {:induction false} WidthPerChar(s: string)
    ensures Width(s) <= 2 * |s|
    decreases |s|
  {
    if s != [] {
      var init, c := s[..|s| - 1], s[|s| - 1];
      WidthPerChar(init);
      assert Utf16(s) == Utf16(init) + CodeUnits(c);
      UnitsWidthAppend(Utf16(init), CodeUnits(c));
      CharWidth(c);
    }
  }

  /** Only characters outside the wide blocks: one column per code unit. */
  lemma {:induction false} NarrowUnitsWidth(u: seq<int>)
    requires forall k :: 0 <= k < |u| ==> !IsWide(u[k])
    ensures UnitsWidth(u) == |u|
  {
    if u != [] {
      NarrowUnitsWidth(u[..|u| - 1]);
    }
  }

  function Spaces(k: nat): (s: string)
    ensures |s| == k && forall i :: 0 <= i < k ==> s[i] == ' '
  {
    seq(k, _ => ' ')
  }

  /** A run of k spaces is k columns wide. */
  lemma {:induction false} SpacesWidth(k: nat)
    ensures Width(Spaces(k)) == k
  {
    if k > 0 {
      assert Spaces(k) == Spaces(k - 1) + [' '];
      SpacesWidth(k - 1);
      WidthAppend(Spaces(k - 1), [' ']);
      assert Utf16([' ']) == [0x20];
    }
  }

  /** getDisplayWidth: 0 for null, otherwise the per-code-unit sum. */
  method GetDisplayWidth(str: Option<string>) returns (width: nat)
    ensures width == DisplayWidth(str)
    ensures str.Some? ==> |str.value| <= width
  {
    if str.None? {
      return 0;
    }
    var chars := Utf16(str.value);
    width := 0;
    var i := 0;
    while i < |chars|
      invariant 0 <= i <= |chars|
      invariant width == UnitsWidth(chars[..i])
    {
      assert chars[..i + 1][..i] == chars[..i];
      if IsWide(chars[i]) {
        width := width + 2;
      } else {
        width := width + 1;
      }
      i := i + 1;
    }
    assert chars[..i] == chars;
  }

  /** Java's `(str == null) ? "" : str`. */
  function OrEmpty(str: Option<string>): string {
    if str.None? then "" else str.value
  }

  /** Appending k spaces widens a string by exactly k columns. */
  lemma PadRightWidth(s: string, k: nat)
    ensures Width(s + Spaces(k)) == Width(s) + k
  {
    WidthAppend(s, Spaces(k));
    SpacesWidth(k);
  }

  /** Prepending k spaces widens a string by exactly k columns. */
  lemma PadLeftWidth(s: string, k: nat)
    ensures Width(Spaces(k) + s) == Width(s) + k
  {
    WidthAppend(Spaces(k), s);
    SpacesWidth(k);
  }

  /**
   * leftAlign: null is read as "". A string at least as wide as the target is
   * returned unchanged; otherwise exactly target - width spaces follow it and
   * the result is exactly target columns wide.
   */
  method LeftAlign(str: Option<string>, targetWidth: int) returns (r: string)
    ensures Width(OrEmpty(str)) >= targetWidth ==> r == OrEmpty(str)
    ensures Width(OrEmpty(str)) < targetWidth ==> r == OrEmpty(str) + Spaces(targetWidth - Width(OrEmpty(str)))
    ensures |OrEmpty(str)| <= |r| && r[..|OrEmpty(str)|] == OrEmpty(str)
    ensures Width(r) == if Width(OrEmpty(str)) >= targetWidth then Width(OrEmpty(str)) else targetWidth
  {
    var s := OrEmpty(str);
    var current := GetDisplayWidth(Some(s));
    if current >= targetWidth {
      return s;
    }
    var sb := s;
    var pad := targetWidth - current;
    while pad > 0
      invariant 0 <= pad <= targetWidth - current
      invariant sb == s + Spaces(targetWidth - current - pad)
    {
      assert Spaces(targetWidth - current - pad + 1) == Spaces(targetWidth - current - pad) + [' '];
      sb := sb + [' '];
      pad := pad - 1;
    }
    r := sb;
    ghost var k := targetWidth - current;
    assert r == s + Spaces(k);
    assert r[..|s|] == s;
    PadRightWidth(s, k);
  }

  /**
   * rightAlign: null is read as "". A string at least as wide as the target is
   * returned unchanged; otherwise exactly target - width spaces precede it and
   * the result is exactly target columns wide.
   */
  method RightAlign(str: Option<string>, targetWidth: int) returns (r: string)
    ensures Width(OrEmpty(str)) >= targetWidth ==> r == OrEmpty(str)
    ensures Width(OrEmpty(str)) < targetWidth ==> r == Spaces(targetWidth - Width(OrEmpty(str))) + OrEmpty(str)
    ensures |OrEmpty(str)| <= |r| && r[|r| - |OrEmpty(str)|..] == OrEmpty(str)
    ensures Width(r) == if Width(OrEmpty(str)) >= targetWidth then Width(OrEmpty(str)) else targetWidth
  {
    var s := OrEmpty(str);
    var current := GetDisplayWidth(Some(s));
    if current >= targetWidth {
      return s;
    }
    var sb := "";
    var pad := targetWidth - current;
    while pad > 0
      invariant 0 <= pad <= targetWidth - current
      invariant sb == Spaces(targetWidth - current - pad)
    {
      sb := sb + [' '];
      pad := pad - 1;
    }
    sb := sb + s;
    r := sb;
    ghost var k := targetWidth - current;
    assert r == Spaces(k) + s;
    assert r[|r| - |s|..] == s;
    PadLeftWidth(s, k);
  }
}
