/** The few ECMAScript string operations the two components rely on:
    the `\s` character class, `trim`, case mapping for the letters whose
    other case is ASCII, `includes` and the UTF-16 `length`. A Dafny
    `string` is a sequence of Unicode code points. */
module JsString {

  /** True for the code points matched by `\s` and stripped by
      `String.prototype.trim`: ECMAScript WhiteSpace and LineTerminator. */
  predicate IsSpace(c: char)
  {
    var n := c as int;
    || 0x09 <= n <= 0x0D      // TAB, LF, VT, FF, CR
    || n == 0x20 || n == 0xA0 || n == 0x1680
    || 0x2000 <= n <= 0x200A
    || n == 0x2028 || n == 0x2029 || n == 0x202F || n == 0x205F
    || n == 0x3000 || n == 0xFEFF
  }

  /** Every character of `s` is white space (vacuously true of ""). */
  predicate AllSpace(s: string)
  {
    forall i :: 0 <= i < |s| ==> IsSpace(s[i])
  }

  /** The regular-expression test `/\s/.test(s)`. */
  predicate HasSpace(s: string)
  {
    exists i :: 0 <= i < |s| && IsSpace(s[i])
  }

  /** Number of leading white-space characters of `s`. */
  function LeadingSpaces(s: string): (k: nat)
    ensures k <= |s|
    ensures AllSpace(s[..k])
    ensures k < |s| ==> !IsSpace(s[k])
  {
    if s != [] && IsSpace(s[0]) then
      var k := 1 + LeadingSpaces(s[1..]);
      assert s[1..][..k - 1] == s[1..k];
      k
    else 0
  }

  /** Index where the trailing white space of `s` begins. */
  function TrailingStart(s: string): (j: nat)
    ensures j <= |s|
    ensures AllSpace(s[j..])
    ensures j > 0 ==> !IsSpace(s[j - 1])
  {
    if s != [] && IsSpace(s[|s| - 1]) then
      var j := TrailingStart(s[..|s| - 1]);
      assert s[..|s| - 1][j..] + [s[|s| - 1]] == s[j..];
      j
    else |s|
  }

  /** `String.prototype.trim`: drop white space at both ends. */
  function Trim(s: string): (r: string)
    ensures r == "" <==> AllSpace(s)
    ensures r != "" ==> !IsSpace(r[0]) && !IsSpace(r[|r| - 1])
    ensures exists i, j :: 0 <= i <= j <= |s| && r == s[i..j]
                           && AllSpace(s[..i]) && AllSpace(s[j..])
  {
    var k := LeadingSpaces(s);
    var j := TrailingStart(s[k..]);
    TrimSlice(s, k, j);
    s[k..][..j]
  }

  /** The facts `Trim` promises, for the slice it cuts out. */
  lemma TrimSlice(s: string, k: nat, j: nat)
    requires k == LeadingSpaces(s) && j == TrailingStart(s[k..])
    ensures s[k..][..j] == s[k..k + j]
    ensures s[k..][..j] == "" <==> AllSpace(s)
    ensures AllSpace(s[..k]) && AllSpace(s[k + j..])
  {
    var t := s[k..];
    assert t[j..] == s[k + j..];
    if AllSpace(s) {
      assert k == |s|;
    }
    if j == 0 {
      assert k == |s|;
      assert s[..k] == s;
    }
  }

  /** `toLowerCase` of one character, for the letters whose lower case is
      ASCII: `A`-`Z` and the Kelvin sign (to `k`). */
  function LowerChar(c: char): char
  {
    if 'A' <= c <= 'Z' then (c as int + 32) as char
    else if c == '\U{212A}' then 'k'
    else c
  }

  /** `toUpperCase` of one character, for the letters whose capital is
      ASCII: `a`-`z`, dotless `ı` (to `I`) and long `ſ` (to `S`). */
  function UpperChar(c: char): char
  {
    if 'a' <= c <= 'z' then (c as int - 32) as char
    else if c == 'ı' then 'I'
    else if c == 'ſ' then 'S'
    else c
  }

  function Lower(s: string): string
  {
    seq(|s|, i requires 0 <= i < |s| => LowerChar(s[i]))
  }

  function Upper(s: string): string
  {
    seq(|s|, i requires 0 <= i < |s| => UpperChar(s[i]))
  }

  /** Case mapping leaves white space alone and never produces it. */
  lemma CaseKeepsSpaces(s: string)
    ensures AllSpace(Lower(s)) <==> AllSpace(s)
    ensures AllSpace(Upper(s)) <==> AllSpace(s)
  {
    assert forall i :: 0 <= i < |s| ==> (IsSpace(Lower(s)[i]) <==> IsSpace(s[i]));
    assert forall i :: 0 <= i < |s| ==> (IsSpace(Upper(s)[i]) <==> IsSpace(s[i]));
  }

  /** Upper-casing twice is upper-casing once. */
  lemma UpperIdempotent(s: string)
    ensures Upper(Upper(s)) == Upper(s)
  {
  }

  /** Neither `ı` nor `ſ` occurs: the two lower-case letters whose
      capitals lower-case to a different letter. */
  predicate CaseStable(s: string)
  {
    forall i :: 0 <= i < |s| ==> s[i] != 'ı' && s[i] != 'ſ'
  }

  /** Upper-casing first does not change what lower-casing yields, exactly
      when the text holds neither `ı` nor `ſ` (which come back as `i` and
      `s`). */
  lemma LowerOfUpper(s: string)
    ensures Lower(Upper(s)) == Lower(s) <==> CaseStable(s)
  {
    if !CaseStable(s) {
      var i :| 0 <= i < |s| && (s[i] == 'ı' || s[i] == 'ſ');
      assert Lower(Upper(s))[i] != Lower(s)[i];
    }
  }

  /** Text made of ASCII capitals and `_` only, as the role names are. */
  predicate AllCapitals(name: string)
  {
    forall i :: 0 <= i < |name| ==> name[i] == '_' || 'A' <= name[i] <= 'Z'
  }

  /** `c` is one way of writing the capital `cap`: the capital itself, its
      ASCII lower case, or, for `I` and `S`, the dotless `ı` and the long
      `ſ`, whose capitals these are. */
  predicate CharCasing(c: char, cap: char)
  {
    || c == cap
    || ('A' <= cap <= 'Z' && c as int == cap as int + 32)
    || (cap == 'I' && c == 'ı')
    || (cap == 'S' && c == 'ſ')
  }

  /** `s` spells `name` in some mix of cases, character by character. */
  predicate CasingOf(s: string, name: string)
  {
    |s| == |name| && forall i :: 0 <= i < |s| ==> CharCasing(s[i], name[i])
  }

  /** One character upper-cases to a capital, or to `_`, exactly when it
      is one of that capital's casings. */
  lemma UpperCharIffCasing(c: char, cap: char)
    requires cap == '_' || 'A' <= cap <= 'Z'
    ensures UpperChar(c) == cap <==> CharCasing(c, cap)
  {
  }

  /** Upper-casing yields a name of capitals exactly when the text is a
      casing of that name. */
  lemma UpperIffCasing(s: string, name: string)
    requires AllCapitals(name)
    ensures Upper(s) == name <==> CasingOf(s, name)
  {
    if |s| == |name| {
      forall i | 0 <= i < |s|
        ensures Upper(s)[i] == name[i] <==> CharCasing(s[i], name[i])
      {
        UpperCharIffCasing(s[i], name[i]);
      }
    }
  }

  /** `needle` occurs in `hay` starting at index `i`. */
  ghost predicate OccursAt(hay: string, needle: string, i: int)
  {
    0 <= i && i + |needle| <= |hay| && hay[i..i + |needle|] == needle
  }

  /** `String.prototype.includes`: a left-to-right scan for `needle`. */
  function Includes(hay: string, needle: string): bool
    decreases |hay|
  {
    (|needle| <= |hay| && hay[..|needle|] == needle)
    || (hay != [] && Includes(hay[1..], needle))
  }

  /** An occurrence at 0 is a matching prefix. */
  lemma OccursAtStart(hay: string, needle: string)
    ensures OccursAt(hay, needle, 0) <==> |needle| <= |hay| && hay[..|needle|] == needle
  {
  }

  /** Occurrences in `hay[1..]` are those in `hay`, one position earlier. */
  lemma OccursShift(hay: string, needle: string, i: nat)
    requires hay != []
    ensures OccursAt(hay, needle, i + 1) <==> OccursAt(hay[1..], needle, i)
  {
    if i + 1 + |needle| <= |hay| {
      assert hay[1..][i..i + |needle|] == hay[i + 1..i + 1 + |needle|];
    }
  }

  /** The scan finds `needle` exactly when it occurs somewhere in `hay`. */
  lemma {:induction false} IncludesIffOccurs(hay: string, needle: string)
    ensures Includes(hay, needle) <==> exists i :: OccursAt(hay, needle, i)
    decreases |hay|
  {
    OccursAtStart(hay, needle);
    if |needle| <= |hay| && hay[..|needle|] == needle {
      assert OccursAt(hay, needle, 0);
    } else if hay == [] {
      assert forall i :: !OccursAt(hay, needle, i);
    } else {
      IncludesIffOccurs(hay[1..], needle);
      if Includes(hay[1..], needle) {
        var i :| OccursAt(hay[1..], needle, i);
        OccursShift(hay, needle, i);
      } else {
        forall i: nat | 1 <= i
          ensures OccursAt(hay, needle, i) ==> OccursAt(hay[1..], needle, i - 1)
        {
          OccursShift(hay, needle, i - 1);
        }
      }
    }
  }

  /** JavaScript `length`: UTF-16 code units, so a code point above
      U+FFFF counts twice. */
  function Utf16Length(s: string): (n: nat)
    ensures |s| <= n <= 2 * |s|
    ensures n == 0 <==> s == ""
    ensures (forall i :: 0 <= i < |s| ==> s[i] as int < 0x10000) ==> n == |s|
  {
    if s == [] then 0
    else (if s[0] as int < 0x10000 then 1 else 2) + Utf16Length(s[1..])
  }

  /** One character is one unit in the Basic Multilingual Plane and a
      surrogate pair, two units, above it. */
  lemma Utf16OfChar(c: char)
    ensures Utf16Length([c]) == if c as int < 0x10000 then 1 else 2
  {
    assert [c][1..] == [];
  }

  /** The length of a concatenation is the sum of the lengths. */
  lemma {:induction false} Utf16Concat(a: string, b: string)
    ensures Utf16Length(a + b) == Utf16Length(a) + Utf16Length(b)
  {
    if a != [] {
      assert (a + b)[1..] == a[1..] + b;
      Utf16Concat(a[1..], b);
    } else {
      assert a + b == b;
    }
  }
}
