/**
 * Helpers shared by the model: an Option type standing for Java's nullable
 * references, and the few java.lang.String / commons-lang StringUtils
 * operations the modelled code calls (isBlank, contains, indexOf,
 * toUpperCase, hashCode).
 */
module Common {

  /** A nullable Java reference: None is `null`. */
  datatype Option<+T> = None | Some(value: T)

  /** java.lang.Character.isWhitespace: the Unicode space separators other than
      the no-break spaces, and the ASCII control characters it lists. */
  predicate IsWhitespace(c: char)
  {
    || c == ' ' || c == '\t' || c == '\n' || c == '\U{000B}' || c == '\U{000C}' || c == '\r'
    || ('\U{001C}' <= c <= '\U{001F}')
    || c == '\U{1680}' || ('\U{2000}' <= c <= '\U{2006}') || ('\U{2008}' <= c <= '\U{200A}')
    || c == '\U{2028}' || c == '\U{2029}' || c == '\U{205F}' || c == '\U{3000}'
  }

  /** StringUtils.isBlank on a non-null string: empty or whitespace only. */
  predicate IsBlank(s: string)
  {
    forall i :: 0 <= i < |s| ==> IsWhitespace(s[i])
  }

  /** StringUtils.isBlank on a nullable string. */
  predicate IsBlankOrNull(s: Option<string>)
  {
    s.None? || IsBlank(s.value)
  }

  /** `sub` occurs in `s` starting at index `i`. */
  predicate OccursAt(s: string, sub: string, i: nat)
  {
    i + |sub| <= |s| && s[i..i + |sub|] == sub
  }

  /** String.indexOf(sub, from): the first index at or after `from` where `sub`
      occurs, or -1. */
  function IndexOfFrom(s: string, sub: string, from: nat): (r: int)
    requires from <= |s|
    ensures r == -1 || (from <= r <= |s| && OccursAt(s, sub, r))
    ensures r == -1 ==> forall j :: from <= j <= |s| ==> !OccursAt(s, sub, j)
    ensures r != -1 ==> forall j :: from <= j < r ==> !OccursAt(s, sub, j)
    decreases |s| - from
  {
    if OccursAt(s, sub, from) then from
    else if from == |s| then -1
    else IndexOfFrom(s, sub, from + 1)
  }

  /** String.indexOf(sub): the first index where `sub` occurs, or -1. */
  function IndexOf(s: string, sub: string): (r: int)
    ensures r == -1 <==> forall j :: 0 <= j <= |s| ==> !OccursAt(s, sub, j)
    ensures r != -1 ==> 0 <= r <= |s| && OccursAt(s, sub, r)
    ensures r != -1 ==> forall j :: 0 <= j < r ==> !OccursAt(s, sub, j)
  {
    IndexOfFrom(s, sub, 0)
  }

  /** String.contains(sub), which Java defines as indexOf(sub) >= 0. */
  predicate Contains(s: string, sub: string)
  {
    IndexOf(s, sub) >= 0
  }

  /** Contains holds exactly when some position of `s` starts an occurrence. */
  lemma ContainsIffOccurs(s: string, sub: string)
    ensures Contains(s, sub) <==> exists j :: 0 <= j <= |s| && OccursAt(s, sub, j)
  {
    if !Contains(s, sub) {
      assert forall j :: 0 <= j <= |s| ==> !OccursAt(s, sub, j);
    }
  }

  /** String.toUpperCase on one character, restricted to ASCII letters. */
  function UpperChar(c: char): (u: char)
    ensures 'a' <= c <= 'z' ==> u as int == c as int - 32
    ensures !('a' <= c <= 'z') ==> u == c
  {
    if 'a' <= c <= 'z' then (c as int - 32) as char else c
  }

  /** String.toUpperCase, restricted to ASCII letters. */
  function ToUpper(s: string): (r: string)
    ensures |r| == |s|
    ensures forall i :: 0 <= i < |s| ==> r[i] == UpperChar(s[i])
  {
    if s == [] then [] else [UpperChar(s[0])] + ToUpper(s[1..])
  }

  const TwoTo31: int := 0x8000_0000
  const TwoTo32: int := 0x1_0000_0000

  /** Java's `int` arithmetic: an integer wrapped into [-2^31, 2^31). */
  function ToInt32(x: int): (r: int)
    ensures -TwoTo31 <= r < TwoTo31
    ensures (r - x) % TwoTo32 == 0
  {
    (x + TwoTo31) % TwoTo32 - TwoTo31
  }

  /** The UTF-16 code units Java stores for one character: itself when it is
      in the Basic Multilingual Plane, otherwise its surrogate pair. */
  function CodeUnits(c: char): (u: seq<int>)
    ensures c as int < 0x1_0000 ==> u == [c as int]
    ensures c as int >= 0x1_0000 ==> |u| == 2 && 0xD800 <= u[0] < 0xDC00 && 0xDC00 <= u[1] < 0xE000
    ensures c as int >= 0x1_0000 ==> (u[0] - 0xD800) * 0x400 + (u[1] - 0xDC00) + 0x1_0000 == c as int
  {
    if c as int < 0x1_0000 then [c as int]
    else [0xD800 + (c as int - 0x1_0000) / 0x400, 0xDC00 + (c as int - 0x1_0000) % 0x400]
  }

  /** A Java string's UTF-16 code units. */
  function Utf16(s: string): (u: seq<int>)
    ensures |s| <= |u| <= 2 * |s|
    ensures forall i :: 0 <= i < |u| ==> 0 <= u[i] < 0x1_0000
  {
    if s == [] then [] else Utf16(s[..|s| - 1]) + CodeUnits(s[|s| - 1])
  }

  /** A string of Basic Multilingual Plane characters is stored one code
      unit per character. */
  lemma {:induction false} Utf16OfBmp(s: string)
    requires forall i :: 0 <= i < |s| ==> s[i] as int < 0x1_0000
    ensures Utf16(s) == seq(|s|, i requires 0 <= i < |s| => s[i] as int)
  {
    if s != [] {
      Utf16OfBmp(s[..|s| - 1]);
    }
  }

  /** h = 31 * h + unit over the code units, in 32-bit arithmetic. */
  function HashUnits(units: seq<int>): (h: int)
    ensures -TwoTo31 <= h < TwoTo31
  {
    if units == [] then 0
    else ToInt32(31 * HashUnits(units[..|units| - 1]) + units[|units| - 1])
  }

  /** String.hashCode: the polynomial hash of the string's UTF-16 code units. */
  function JavaStringHash(s: string): (h: int)
    ensures -TwoTo31 <= h < TwoTo31
    ensures s == [] ==> h == 0
  {
    HashUnits(Utf16(s))
  }

  /** One more code unit is folded into the hash of the ones before it. */
  lemma HashUnitsAppend(units: seq<int>, unit: int)
    ensures HashUnits(units + [unit]) == ToInt32(31 * HashUnits(units) + unit)
  {
    assert (units + [unit])[..|units|] == units;
  }

  /** Appending a character of the Basic Multilingual Plane folds its one
      code unit into the hash. */
  lemma JavaStringHashAppend(s: string, c: char)
    requires c as int < 0x1_0000
    ensures JavaStringHash(s + [c]) == ToInt32(31 * JavaStringHash(s) + c as int)
  {
    assert (s + [c])[..|s + [c]| - 1] == s;
    var u := Utf16(s);
    assert CodeUnits(c) == [c as int];
    assert Utf16(s + [c]) == u + CodeUnits(c);
    HashUnitsAppend(u, c as int);
  }

  /** Appending a character outside the Basic Multilingual Plane folds in its
      high surrogate and then its low one. */
  lemma JavaStringHashAppendPair(s: string, c: char)
    requires c as int >= 0x1_0000
    ensures JavaStringHash(s + [c])
            == ToInt32(31 * ToInt32(31 * JavaStringHash(s) + CodeUnits(c)[0]) + CodeUnits(c)[1])
  {
    assert (s + [c])[..|s + [c]| - 1] == s;
    var u, cu := Utf16(s), CodeUnits(c);
    assert Utf16(s + [c]) == u + cu;
    assert u + cu == (u + [cu[0]]) + [cu[1]];
    HashUnitsAppend(u + [cu[0]], cu[1]);
    HashUnitsAppend(u, cu[0]);
  }

  /** "ab".hashCode() is 97 * 31 + 98. */
  lemma JavaStringHashExample()
    ensures JavaStringHash("ab") == 3105
  {
    assert "" + ['a'] == "a" && "a" + ['b'] == "ab";
    JavaStringHashAppend("", 'a');
    assert ToInt32(97) == 97;
    JavaStringHashAppend("a", 'b');
    assert ToInt32(31 * 97 + 98) == 3105;
  }
}
