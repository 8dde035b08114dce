/**
  The hex-colour string helpers of the colour board: `isValidHex`,
  `expandShortHex` and `normalizeHex`, together with the pieces of JavaScript
  they rely on (`String.prototype.trim`, `startsWith("#")`, `toUpperCase`)
  written out over `seq<char>`.
 */
module HexCodes {

  import opened Options

  // ---------------------------------------------------------------------------
  // The regular expression /^#([0-9A-Fa-f]{3}|[0-9A-Fa-f]{6})$/
  // ---------------------------------------------------------------------------

  /** The character class `[0-9A-Fa-f]`. */
  predicate IsHexDigit(c: char) {
    ('0' <= c <= '9') || ('A' <= c <= 'F') || ('a' <= c <= 'f')
  }

  predicate AllHexDigits(s: string) {
    forall k :: 0 <= k < |s| ==> IsHexDigit(s[k])
  }

  /** `/^#[0-9A-Fa-f]{3}$/`, the shorthand form `#rgb`. */
  predicate IsShortHex(s: string) {
    |s| == 4 && s[0] == '#' && AllHexDigits(s[1..])
  }

  /** `/^#[0-9A-Fa-f]{6}$/`, the canonical form `#rrggbb`. */
  predicate IsLongHex(s: string) {
    |s| == 7 && s[0] == '#' && AllHexDigits(s[1..])
  }

  /**
    `isValidHex`. Without the `m` flag a JavaScript `$` matches only at the very
    end of the input, so a trailing newline is rejected like any other junk.
   */
  predicate IsValidHex(s: string) {
    IsShortHex(s) || IsLongHex(s)
  }

  /** The regular expression read as a language: `#` followed by three or six hex digits. */
  lemma ValidHexLanguage(s: string)
    ensures IsValidHex(s) <==>
      exists digits :: (|digits| == 3 || |digits| == 6) && AllHexDigits(digits) && s == ['#'] + digits
  {
    if IsValidHex(s) {
      assert s == ['#'] + s[1..];
    }
    if exists digits :: (|digits| == 3 || |digits| == 6) && AllHexDigits(digits) && s == ['#'] + digits {
      var digits :| (|digits| == 3 || |digits| == 6) && AllHexDigits(digits) && s == ['#'] + digits;
      assert s[1..] == digits;
    }
  }

  /** What the anchored pattern rejects: a missing `#`, any other length, any non-hex character. */
  lemma ValidHexRejects(s: string)
    ensures |s| == 0 || s[0] != '#' ==> !IsValidHex(s)
    ensures |s| != 4 && |s| != 7 ==> !IsValidHex(s)
    ensures (exists k :: 1 <= k < |s| && !IsHexDigit(s[k])) ==> !IsValidHex(s)
  {
    if k :| 1 <= k < |s| && !IsHexDigit(s[k]) {
      assert s[1..][k - 1] == s[k];
    }
  }

  // ---------------------------------------------------------------------------
  // expandShortHex
  // ---------------------------------------------------------------------------

  /**
    `expandShortHex`: `#rgb` becomes `#rrggbb`, each digit doubled in place and
    in its own case; every other string comes back unchanged.
   */
  function ExpandShortHex(hex: string): (r: string)
    ensures IsShortHex(hex) ==>
      && IsLongHex(r) && r[0] == '#'
      && r[1] == r[2] == hex[1] && r[3] == r[4] == hex[2] && r[5] == r[6] == hex[3]
    ensures !IsShortHex(hex) ==> r == hex
    ensures IsValidHex(hex) ==> IsLongHex(r)
  {
    if IsShortHex(hex) then
      var red, green, blue := hex[1], hex[2], hex[3];
      ['#', red, red, green, green, blue, blue]
    else
      hex
  }

  /** Expanding twice is expanding once: an expanded shorthand is no longer shorthand. */
  lemma ExpandIdempotent(hex: string)
    ensures ExpandShortHex(ExpandShortHex(hex)) == ExpandShortHex(hex)
  {
  }

  // ---------------------------------------------------------------------------
  // The colour a hex string denotes
  // ---------------------------------------------------------------------------

  /** The value 0..15 of one hex digit, in either case. */
  function HexValue(c: char): (v: nat)
    requires IsHexDigit(c)
    ensures v < 16
    ensures ('0' <= c <= '9') ==> v == c as int - '0' as int
    ensures ('a' <= c <= 'f') || ('A' <= c <= 'F') ==> v >= 10
  {
    if '0' <= c <= '9' then c as int - '0' as int
    else if 'A' <= c <= 'F' then c as int - 'A' as int + 10
    else c as int - 'a' as int + 10
  }

  /**
    The red, green and blue intensities (0..255) that a valid hex string
    denotes when it is used as a CSS colour (CSS Color Module Level 4,
    section 5.2, "The RGB Hexadecimal Notations"): in the three-digit form each
    digit counts for both nibbles of its channel.
   */
  function Channels(hex: string): (rgb: seq<nat>)
    requires IsValidHex(hex)
    ensures |rgb| == 3
    ensures forall k :: 0 <= k < 3 ==> rgb[k] <= 255
  {
    assert forall k :: 1 <= k < |hex| ==> IsHexDigit(hex[k]) by {
      forall k | 1 <= k < |hex| ensures IsHexDigit(hex[k]) { assert hex[1..][k - 1] == hex[k]; }
    }
    if IsShortHex(hex) then
      [17 * HexValue(hex[1]), 17 * HexValue(hex[2]), 17 * HexValue(hex[3])]
    else
      [ 16 * HexValue(hex[1]) + HexValue(hex[2])
      , 16 * HexValue(hex[3]) + HexValue(hex[4])
      , 16 * HexValue(hex[5]) + HexValue(hex[6]) ]
  }

  /** Expansion yields the canonical form of the very same colour. */
  lemma ExpandPreservesColour(hex: string)
    requires IsValidHex(hex)
    ensures IsLongHex(ExpandShortHex(hex))
    ensures Channels(ExpandShortHex(hex)) == Channels(hex)
  {
    if IsShortHex(hex) {
      var r := ExpandShortHex(hex);
      assert forall k :: 1 <= k < 4 ==> IsHexDigit(hex[k]) by {
        forall k | 1 <= k < 4 ensures IsHexDigit(hex[k]) { assert hex[1..][k - 1] == hex[k]; }
      }
      assert forall k :: 1 <= k < 7 ==> IsHexDigit(r[k]) by {
        forall k | 1 <= k < 7 ensures IsHexDigit(r[k]) { assert r[1..][k - 1] == r[k]; }
      }
    }
  }

  // ---------------------------------------------------------------------------
  // String.prototype.trim
  // ---------------------------------------------------------------------------

  /**
    The code points `trim` removes: ECMAScript's WhiteSpace (tab, vertical tab,
    form feed, zero-width no-break space and every Unicode space separator)
    and LineTerminator (line feed, carriage return, line and paragraph
    separators).
   */
  predicate IsTrimmable(c: char) {
    || c == '\t' || c == '\U{000B}' || c == '\U{000C}' || c == '\U{FEFF}'
    || c == '\n' || c == '\r' || c == '\U{2028}' || c == '\U{2029}'
    || c == ' ' || c == '\U{00A0}' || c == '\U{1680}' || ('\U{2000}' <= c <= '\U{200A}')
    || c == '\U{202F}' || c == '\U{205F}' || c == '\U{3000}'
  }

  /** How many trimmable characters lead `s`. */
  function LeadingTrimmable(s: string): (n: nat)
    ensures n <= |s|
    ensures forall k :: 0 <= k < n ==> IsTrimmable(s[k])
    ensures n == |s| || !IsTrimmable(s[n])
  {
    if |s| > 0 && IsTrimmable(s[0]) then 1 + LeadingTrimmable(s[1..]) else 0
  }

  /** Where the trailing run of trimmable characters of `s` begins. */
  function TrailingStart(s: string): (n: nat)
    ensures n <= |s|
    ensures forall k :: n <= k < |s| ==> IsTrimmable(s[k])
    ensures n == 0 || !IsTrimmable(s[n - 1])
  {
    if |s| > 0 && IsTrimmable(s[|s| - 1]) then TrailingStart(s[..|s| - 1]) else |s|
  }

  /**
    `trim`: the leading trimmable characters are dropped, then the trailing
    ones. The result is the slice of the input that starts after the leading
    run; everything cut away on either side is trimmable, and the result
    neither starts nor ends with a trimmable character.
   */
  function Trim(s: string): (r: string)
    ensures var i := LeadingTrimmable(s);
      && i + |r| <= |s| && r == s[i..i + |r|]
      && (forall k :: 0 <= k < i ==> IsTrimmable(s[k]))
      && (forall k :: i + |r| <= k < |s| ==> IsTrimmable(s[k]))
    ensures r == [] || (!IsTrimmable(r[0]) && !IsTrimmable(r[|r| - 1]))
  {
    var i := LeadingTrimmable(s);
    var front := s[i..];
    var j := TrailingStart(front);
    assert forall k :: i + j <= k < |s| ==> s[k] == front[k - i];
    front[..j]
  }

  /** A string with nothing to trim at either end is its own trim. */
  lemma TrimFixpoint(t: string)
    requires t == [] || (!IsTrimmable(t[0]) && !IsTrimmable(t[|t| - 1]))
    ensures Trim(t) == t
  {
    assert LeadingTrimmable(t) == 0;
    assert TrailingStart(t[0..]) == |t|;
  }

  lemma TrimIdempotent(s: string)
    ensures Trim(Trim(s)) == Trim(s)
  {
    TrimFixpoint(Trim(s));
  }

  // ---------------------------------------------------------------------------
  // normalizeHex
  // ---------------------------------------------------------------------------

  /** `startsWith("#")`. */
  predicate StartsWithHash(s: string) {
    |s| > 0 && s[0] == '#'
  }

  /**
    `normalizeHex`: the trimmed input, with a `#` put in front exactly when the
    trimmed input does not already start with one. It never validates and never
    touches the case of a character.
   */
  function NormalizeHex(value: string): (r: string)
    ensures StartsWithHash(r)
    ensures |Trim(value)| <= |r| <= |Trim(value)| + 1
    ensures r[|r| - |Trim(value)|..] == Trim(value)
    ensures |r| == |Trim(value)| <==> StartsWithHash(Trim(value))
  {
    var hex := Trim(value);
    if StartsWithHash(hex) then hex else "#" + hex
  }

  /** `##abc` keeps both of its hash signs: a `#` is added only when none leads. */
  lemma NormalizeKeepsLeadingHash()
    ensures NormalizeHex("##abc") == "##abc"
  {
    var s := "##abc";
    assert s[0] == '#' && s[4] == 'c';
    TrimFixpoint(s);
  }

  /** Surrounding spaces go and the missing `#` is added. */
  lemma NormalizeTrimsExample()
    ensures NormalizeHex(" abc ") == "#abc"
  {
    var s := " abc ";
    assert s[1..][0] == 'a';
    assert LeadingTrimmable(s) == 1;
    var front := s[1..];
    assert front == "abc ";
    assert front[..3][2] == 'c';
    assert TrailingStart(front) == 3;
    assert Trim(s) == "abc";
    assert "#" + "abc" == "#abc";
  }

  lemma {:induction false} NormalizeIdempotent(value: string)
    ensures NormalizeHex(NormalizeHex(value)) == NormalizeHex(value)
  {
    var t := Trim(value);
    var n := NormalizeHex(value);
    assert !IsTrimmable('#');
    if StartsWithHash(t) {
      assert n == t;
    } else if t == [] {
      assert n == "#";
    } else {
      assert n == "#" + t;
      assert n[|n| - 1] == t[|t| - 1];
    }
    TrimFixpoint(n);
  }

  // ---------------------------------------------------------------------------
  // From typed text to a committed colour
  // ---------------------------------------------------------------------------

  /**
    The colour a piece of typed text commits, if any: the text is normalised, a
    valid result is expanded and reported, anything else is rejected. Whatever
    is reported is a canonical `#rrggbb` string.
   */
  function CommitValue(raw: string): (r: Option<string>)
    ensures r.Some? <==> IsValidHex(NormalizeHex(raw))
    ensures r.Some? ==> r.value == ExpandShortHex(NormalizeHex(raw))
    ensures r.Some? ==> IsLongHex(r.value)
    ensures r.Some? ==> Channels(r.value) == Channels(NormalizeHex(raw))
  {
    var normalized := NormalizeHex(raw);
    if IsValidHex(normalized) then
      ExpandPreservesColour(normalized);
      Some(ExpandShortHex(normalized))
    else
      None
  }

  /** A canonical colour, typed back in with or without its `#`, commits itself. */
  lemma CommitValueOfCanonical(color: string)
    requires IsLongHex(color)
    ensures CommitValue(color) == Some(color)
    ensures CommitValue(color[1..]) == Some(color)
  {
    var digits := color[1..];
    assert IsHexDigit(digits[0]) && IsHexDigit(digits[5]);
    assert color[6] == digits[5];
    TrimFixpoint(color);
    assert NormalizeHex(color) == color;
    TrimFixpoint(digits);
    assert "#" + digits == color;
    assert NormalizeHex(digits) == color;
  }

  /** Typing `f00` commits `#ff0000`: the `#` is added and the digits doubled, their case kept. */
  lemma CommitOfShorthandExample()
    ensures CommitValue("f00") == Some("#ff0000")
  {
    var t := "f00";
    assert t[0] == 'f' && t[2] == '0';
    TrimFixpoint(t);
    var n := "#f00";
    assert "#" + t == n;
    assert NormalizeHex(t) == n;
    assert n[1..] == t && AllHexDigits(t);
    assert IsShortHex(n);
  }

  /** Typing `zzz` commits nothing. */
  lemma CommitOfNonHexExample()
    ensures CommitValue("zzz") == None
  {
    var t := "zzz";
    assert t[0] == 'z' && t[2] == 'z';
    TrimFixpoint(t);
    var n := "#zzz";
    assert "#" + t == n;
    assert NormalizeHex(t) == n;
    assert n[1..][0] == 'z' && !IsHexDigit('z');
  }

  // ---------------------------------------------------------------------------
  // toUpperCase
  // ---------------------------------------------------------------------------

  predicate IsLowerLetter(c: char) {
    'a' <= c <= 'z'
  }

  /** ASCII upper-casing of one character. */
  function UpperChar(c: char): (u: char)
    ensures IsLowerLetter(c) ==> u as int == c as int - 32
    ensures !IsLowerLetter(c) ==> u == c
  {
    if IsLowerLetter(c) then (c as int - 32) as char else c
  }

  /** `toUpperCase`, character by character. */
  function ToUpper(s: string): (r: string)
    ensures |r| == |s|
    ensures forall k :: 0 <= k < |s| ==> r[k] == UpperChar(s[k])
  {
    if s == [] then [] else [UpperChar(s[0])] + ToUpper(s[1..])
  }

  /** Upper-casing a valid hex string keeps it valid, in the same form, and denoting the same colour. */
  lemma UpperPreservesColour(hex: string)
    requires IsValidHex(hex)
    ensures IsShortHex(ToUpper(hex)) <==> IsShortHex(hex)
    ensures IsLongHex(ToUpper(hex)) <==> IsLongHex(hex)
    ensures Channels(ToUpper(hex)) == Channels(hex)
  {
    var u := ToUpper(hex);
    forall k | 1 <= k < |hex|
      ensures IsHexDigit(hex[k]) && IsHexDigit(u[k]) && HexValue(u[k]) == HexValue(hex[k])
    {
      assert hex[1..][k - 1] == hex[k];
    }
    assert AllHexDigits(u[1..]) by {
      forall k | 0 <= k < |u| - 1 ensures IsHexDigit(u[1..][k]) { assert u[1..][k] == u[k + 1]; }
    }
  }

  /** Upper-casing changes a string exactly when it holds a lower-case letter. */
  lemma UpperChangesIffLowerLetter(s: string)
    ensures ToUpper(s) == s <==> forall k :: 0 <= k < |s| ==> !IsLowerLetter(s[k])
  {
    if ToUpper(s) == s {
      forall k | 0 <= k < |s| ensures !IsLowerLetter(s[k]) {
        assert ToUpper(s)[k] == UpperChar(s[k]);
      }
    }
  }
}
