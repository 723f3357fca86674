/** Character classes, whitespace stripping and decimal numerals as the
    invoice pipeline uses them (Python `str` semantics, restricted as noted). */
module Text {

  predicate IsDigit(c: char) { '0' <= c <= '9' }

  predicate AllDigits(s: string) { forall i :: 0 <= i < |s| ==> IsDigit(s[i]) }

  function DigitValue(c: char): (v: nat)
    requires IsDigit(c)
    ensures v < 10
  {
    c as int - '0' as int
  }

  function DigitChar(v: nat): (c: char)
    requires v < 10
    ensures IsDigit(c) && DigitValue(c) == v
  {
    ('0' as int + v) as char
  }

  predicate IsAsciiUpper(c: char) { 'A' <= c <= 'Z' }

  predicate IsAsciiLower(c: char) { 'a' <= c <= 'z' }

  predicate IsAsciiLetter(c: char) { IsAsciiUpper(c) || IsAsciiLower(c) }

  /** ASCII lower-casing; every other character is left as it is. */
  function Lower(c: char): (r: char)
    ensures IsAsciiLetter(c) ==> IsAsciiLower(r)
    ensures !IsAsciiLetter(c) ==> r == c
    ensures IsAsciiLower(c) ==> r == c
  {
    if IsAsciiUpper(c) then (c as int + 32) as char else c
  }

  function LowerStr(s: string): (r: string)
    ensures |r| == |s|
    ensures forall i :: 0 <= i < |s| ==> r[i] == Lower(s[i])
  {
    if s == [] then [] else [Lower(s[0])] + LowerStr(s[1..])
  }

  /** Python's `str.isspace()`, which is also what `\s` matches in a `str` pattern. */
  predicate IsSpace(c: char)
  {
    c == ' ' || ('\t' <= c <= '\r') || ('\U{1c}' <= c <= '\U{1f}') || c == '\U{85}' || c == '\U{a0}'
    || c == '\U{1680}' || ('\U{2000}' <= c <= '\U{200a}') || c == '\U{2028}' || c == '\U{2029}'
    || c == '\U{202f}' || c == '\U{205f}' || c == '\U{3000}'
  }

  /** Characters `\w` matches, for the `\b` word boundary: ASCII letters,
      digits and `_`, and the letters of the Turkish alphabet outside ASCII. */
  predicate IsWordChar(c: char)
  {
    IsAsciiLetter(c) || IsDigit(c) || c == '_' || IsTurkishLetter(c)
  }

  predicate IsTurkishLetter(c: char)
  {
    c == '\U{e7}' || c == '\U{c7}' || c == '\U{11f}' || c == '\U{11e}' || c == '\U{131}' || c == '\U{130}' || c == '\U{f6}' || c == '\U{d6}' || c == '\U{15f}' || c == '\U{15e}' || c == '\U{fc}' || c == '\U{dc}' || c == '\U{e2}' || c == '\U{c2}' || c == '\U{ee}' || c == '\U{ce}' || c == '\U{fb}' || c == '\U{db}'
  }

  /** `s` with its leading whitespace removed. */
  function TrimStart(s: string): (r: string)
    ensures |r| <= |s| && r == s[|s| - |r|..]
    ensures forall i :: 0 <= i < |s| - |r| ==> IsSpace(s[i])
    ensures r != [] ==> !IsSpace(r[0])
  {
    if s != [] && IsSpace(s[0]) then TrimStart(s[1..]) else s
  }

  /** `s` with its trailing whitespace removed. */
  function TrimEnd(s: string): (r: string)
    ensures |r| <= |s| && r == s[..|r|]
    ensures forall i :: |r| <= i < |s| ==> IsSpace(s[i])
    ensures r != [] ==> !IsSpace(r[|r| - 1])
  {
    if s != [] && IsSpace(s[|s| - 1]) then TrimEnd(s[..|s| - 1]) else s
  }

  /** Python's `str.strip()` with no argument. */
  function Strip(s: string): (r: string)
    ensures r != [] ==> !IsSpace(r[0]) && !IsSpace(r[|r| - 1])
  {
    TrimEnd(TrimStart(s))
  }

  predicate AllSpace(s: string) { forall i :: 0 <= i < |s| ==> IsSpace(s[i]) }

  /** Stripping removes exactly the surrounding whitespace: the text between
      two runs of whitespace comes back unchanged. */
  lemma {:induction false} StripPadded(front: string, core: string, back: string)
    requires AllSpace(front) && AllSpace(back)
    requires core != [] ==> !IsSpace(core[0]) && !IsSpace(core[|core| - 1])
    ensures Strip(front + core + back) == core
  {
    if core == [] {
      assert front + core + back == front + back;
      assert AllSpace(front + back);
      TrimStartAllSpace(front + back);
    } else {
      assert front + core + back == front + (core + back);
      TrimStartPadded(front, core + back);
      TrimEndPadded(core, back);
    }
  }

  lemma {:induction false} TrimStartAllSpace(s: string)
    requires AllSpace(s)
    ensures TrimStart(s) == []
  {
    if s != [] {
      TrimStartAllSpace(s[1..]);
    }
  }

  lemma {:induction false} TrimStartPadded(front: string, rest: string)
    requires AllSpace(front)
    requires rest != [] ==> !IsSpace(rest[0])
    ensures TrimStart(front + rest) == rest
  {
    if front != [] {
      assert (front + rest)[1..] == front[1..] + rest;
      TrimStartPadded(front[1..], rest);
    }
  }

  lemma {:induction false} TrimEndPadded(core: string, back: string)
    requires AllSpace(back)
    requires core != [] && !IsSpace(core[|core| - 1])
    ensures TrimEnd(core + back) == core
  {
    if back != [] {
      var b := back[..|back| - 1];
      assert (core + back)[..|core + back| - 1] == core + b;
      TrimEndPadded(core, b);
    } else {
      assert core + back == core;
    }
  }

  /** Python's `str(n)` for a natural number. */
  function NatToString(n: nat): (s: string)
    ensures s != [] && AllDigits(s)
    decreases n
  {
    if n < 10 then [DigitChar(n)] else NatToString(n / 10) + [DigitChar(n % 10)]
  }

  /** The value of a decimal numeral. */
  function ParseDecimal(s: string): nat
    requires AllDigits(s)
  {
    if s == [] then 0 else ParseDecimal(s[..|s| - 1]) * 10 + DigitValue(s[|s| - 1])
  }

  /** Reading back the numeral of a number gives the number. */
  lemma {:induction false} ParseNatToString(n: nat)
    ensures ParseDecimal(NatToString(n)) == n
    decreases n
  {
    if n >= 10 {
      var s := NatToString(n);
      assert s[..|s| - 1] == NatToString(n / 10);
      ParseNatToString(n / 10);
    }
  }

  lemma NatToStringInjective(a: nat, b: nat)
    ensures NatToString(a) == NatToString(b) ==> a == b
  {
    ParseNatToString(a);
    ParseNatToString(b);
  }

  /** A name built as `pre + str(n) + suf` determines `n`: numbered
      variants of one name are pairwise distinct. */
  lemma AffixInjective(pre: string, a: nat, b: nat, suf: string)
    ensures pre + NatToString(a) + suf == pre + NatToString(b) + suf ==> a == b
  {
    var x, y := pre + NatToString(a) + suf, pre + NatToString(b) + suf;
    if x == y {
      assert |NatToString(a)| == |NatToString(b)|;
      assert NatToString(a) == x[|pre|..|x| - |suf|];
      assert NatToString(b) == y[|pre|..|y| - |suf|];
      NatToStringInjective(a, b);
    }
  }
}
