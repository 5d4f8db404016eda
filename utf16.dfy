/** Browser strings as sequences of UTF-16 code units, and the character tests and
    arithmetic that every cipher of script.js shares. */
module Utf16 {

  /** One UTF-16 code unit: what `charCodeAt` returns and `String.fromCharCode` builds. */
  newtype CodeUnit = x: int | 0 <= x < 0x1_0000

  /** A JavaScript string: a sequence of code units (lone surrogates included). */
  type Text = seq<CodeUnit>

  /** A Dafny string literal as code units; every literal used here is ASCII, so each
      character is one code unit (the `%` only keeps the function total). */
  function Literal(s: string): (t: Text)
    ensures |t| == |s|
  {
    seq(|s|, i requires 0 <= i < |s| => (s[i] as int % 0x1_0000) as CodeUnit)
  }

  predicate IsUpper(c: CodeUnit) { 65 <= c <= 90 }    // 'A' .. 'Z'
  predicate IsLower(c: CodeUnit) { 97 <= c <= 122 }   // 'a' .. 'z'

  /** What the regular expressions `/[a-z]/gi` and `/[a-zA-Z]/` match: an ASCII letter. */
  predicate IsLetter(c: CodeUnit) { IsUpper(c) || IsLower(c) }

  predicate IsAscii(t: Text) { forall i :: 0 <= i < |t| ==> t[i] < 128 }

  /** The char code of 'A' or 'a', whichever starts the letter's case. For a letter, `c < 'a'`
      and `c === c.toUpperCase()` both select upper case. */
  function CaseBase(c: CodeUnit): (base: int)
    requires IsLetter(c)
    ensures base == 65 || base == 97
    ensures IsUpper(c) <==> base == 65
  {
    if c < 97 then 65 else 97
  }

  /** The letter's place in the alphabet, A = a = 0 .. Z = z = 25. */
  function Pos(c: CodeUnit): (p: int)
    requires IsLetter(c)
    ensures 0 <= p < 26
    ensures c as int == CaseBase(c) + p
  {
    c as int - CaseBase(c)
  }

  /** `toUpperCase` on one ASCII code unit. */
  function ToUpper(c: CodeUnit): (u: CodeUnit)
    ensures IsLower(c) ==> IsUpper(u) && Pos(u) == Pos(c)
    ensures !IsLower(c) ==> u == c
  {
    if IsLower(c) then c - 32 else c
  }

  /** `toLowerCase` on one ASCII code unit. */
  function ToLower(c: CodeUnit): (l: CodeUnit)
    ensures IsUpper(c) ==> IsLower(l) && Pos(l) == Pos(c)
    ensures !IsUpper(c) ==> l == c
  {
    if IsUpper(c) then c + 32 else c
  }

  /** `String.prototype.toUpperCase`, for ASCII text only (full Unicode case mapping is not modelled). */
  function UpperCase(t: Text): (r: Text)
    requires IsAscii(t)
    ensures |r| == |t| && IsAscii(r)
    ensures forall i :: 0 <= i < |t| ==> r[i] == ToUpper(t[i])
  {
    seq(|t|, i requires 0 <= i < |t| => ToUpper(t[i]))
  }

  /** JavaScript's `%` on integers: the remainder of truncating division, which takes the sign
      of the dividend (Dafny's own `%` is Euclidean and never negative). */
  function JsRem(a: int, b: int): (r: int)
    requires b > 0
    ensures -b < r < b
    ensures a >= 0 ==> r == a % b
    ensures a < 0 ==> r <= 0
  {
    if a >= 0 then a % b else -((-a) % b)
  }

  /** Truncating division makes `%` odd in its dividend; with the non-negative case above this
      fixes the value for a negative dividend. */
  lemma JsRemOdd(a: int, b: int)
    requires b > 0
    ensures JsRem(-a, b) == -JsRem(a, b)
  {
  }

  /** `-1 % 26` is -1 in JavaScript, where Euclidean `%` would give 25. */
  lemma JsRemNegativeExample()
    ensures JsRem(-1, 26) == -1 && JsRem(-27, 26) == -1 && JsRem(-26, 26) == 0
  {
  }
}
