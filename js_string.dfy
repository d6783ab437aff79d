/**
 * The JavaScript string built-ins that the form and search widgets rely on,
 * stated with the semantics of the ECMAScript language specification:
 * `String.prototype.split` with a one-character separator, `trim`,
 * `parseInt(s, 10)`, `Array.prototype.indexOf`, the relational `<` on
 * strings, `toLowerCase` (ASCII letters only), the conversion of a number to
 * its decimal string, and the coercion of `undefined` inside a template
 * literal.
 */
module JsString {
  import opened Wrappers

  // ---------------------------------------------------------------------
  // undefined inside a template literal
  // ---------------------------------------------------------------------

  /** `${v}` where `v` may be undefined: an undefined value prints as "undefined". */
  function OrUndefined(v: Option<string>): string {
    match v
    case None => "undefined"
    case Some(s) => s
  }

  // ---------------------------------------------------------------------
  // White space and trim
  // ---------------------------------------------------------------------

  /**
   * The characters `trim` removes and `parseInt` skips: ECMAScript's
   * WhiteSpace (TAB, VT, FF, SP, NBSP, ZWNBSP and the space separators of
   * category Zs) and LineTerminator (LF, CR, LS, PS).
   */
  predicate IsWhiteSpace(c: char) {
    var n := c as int;
    n == 0x09 || n == 0x0A || n == 0x0B || n == 0x0C || n == 0x0D || n == 0x20
    || n == 0xA0 || n == 0x1680 || (0x2000 <= n <= 0x200A) || n == 0x2028
    || n == 0x2029 || n == 0x202F || n == 0x205F || n == 0x3000 || n == 0xFEFF
  }

  function TrimStart(s: string): (r: string)
    ensures |r| <= |s| && r == s[|s| - |r|..]
    ensures r != [] ==> !IsWhiteSpace(r[0])
    ensures forall i :: 0 <= i < |s| - |r| ==> IsWhiteSpace(s[i])
  {
    if s != [] && IsWhiteSpace(s[0]) then TrimStart(s[1..]) else s
  }

  function TrimEnd(s: string): (r: string)
    ensures |r| <= |s| && r == s[..|r|]
    ensures r != [] ==> !IsWhiteSpace(r[|r| - 1])
    ensures forall i :: |r| <= i < |s| ==> IsWhiteSpace(s[i])
  {
    if s != [] && IsWhiteSpace(s[|s| - 1]) then TrimEnd(s[..|s| - 1]) else s
  }

  /** `s.trim()`. */
  function Trim(s: string): string {
    TrimEnd(TrimStart(s))
  }

  predicate AllWhiteSpace(s: string) {
    forall i :: 0 <= i < |s| ==> IsWhiteSpace(s[i])
  }

  /** `trim` removes exactly the white-space padding around an unpadded string. */
  lemma {:induction false} TrimPadded(pre: string, s: string, post: string)
    requires AllWhiteSpace(pre) && AllWhiteSpace(post)
    requires s != [] && !IsWhiteSpace(s[0]) && !IsWhiteSpace(s[|s| - 1])
    ensures Trim(pre + s + post) == s
  {
    var t := s + post;
    assert pre + s + post == pre + t;
    TrimStartPadded(pre, t);
    TrimEndPadded(s, post);
    assert Trim(pre + t) == TrimEnd(t);
  }

  lemma {:induction false} TrimStartPadded(pre: string, s: string)
    requires AllWhiteSpace(pre) && s != [] && !IsWhiteSpace(s[0])
    ensures TrimStart(pre + s) == s
  {
    if pre == [] {
      assert pre + s == s;
    } else {
      assert (pre + s)[1..] == pre[1..] + s;
      TrimStartPadded(pre[1..], s);
    }
  }

  lemma {:induction false} TrimEndPadded(s: string, post: string)
    requires AllWhiteSpace(post) && s != [] && !IsWhiteSpace(s[|s| - 1])
    ensures TrimEnd(s + post) == s
  {
    if post == [] {
      assert s + post == s;
    } else {
      var p := post[..|post| - 1];
      assert (s + post)[..|s + post| - 1] == s + p;
      TrimEndPadded(s, p);
    }
  }

  // ---------------------------------------------------------------------
  // split with a one-character separator
  // ---------------------------------------------------------------------

  /** Pieces glued back together with the separator between them. */
  function Join(parts: seq<string>, sep: char): string
    requires |parts| >= 1
  {
    if |parts| == 1 then parts[0] else parts[0] + [sep] + Join(parts[1..], sep)
  }

  /**
   * `s.split(sep)`: the pieces of `s` between occurrences of `sep`. The
   * contract is what characterises split: at least one piece (so
   * `"".split(sep)` is `[""]`), no piece contains the separator, and joining
   * the pieces with the separator gives back `s`.
   */
  function Split(s: string, sep: char): (parts: seq<string>)
    ensures |parts| >= 1
    ensures forall i :: 0 <= i < |parts| ==> sep !in parts[i]
    ensures Join(parts, sep) == s
  {
    if s == [] then [[]]
    else
      var rest := Split(s[1..], sep);
      assert s == [s[0]] + s[1..];
      if s[0] == sep then
        JoinEmptyFirst(rest, sep);
        [[]] + rest
      else
        JoinExtendFirst(s[0], rest, sep);
        [[s[0]] + rest[0]] + rest[1..]
  }

  lemma JoinEmptyFirst(rest: seq<string>, sep: char)
    requires |rest| >= 1
    ensures Join([[]] + rest, sep) == [sep] + Join(rest, sep)
  {
    assert ([[]] + rest)[1..] == rest;
  }

  lemma JoinExtendFirst(c: char, rest: seq<string>, sep: char)
    requires |rest| >= 1
    ensures Join([[c] + rest[0]] + rest[1..], sep) == [c] + Join(rest, sep)
  {
    var parts := [[c] + rest[0]] + rest[1..];
    if |rest| > 1 {
      assert parts[1..] == rest[1..];
      assert ([c] + rest[0]) + [sep] + Join(rest[1..], sep) == [c] + (rest[0] + [sep] + Join(rest[1..], sep));
    }
  }

  /** A string without the separator splits into itself alone. */
  lemma {:induction false} SplitNone(s: string, sep: char)
    requires sep !in s
    ensures Split(s, sep) == [s]
  {
    if s != [] {
      SplitNone(s[1..], sep);
    }
  }

  /** A separator-free head followed by the separator is split off as the first piece. */
  lemma {:induction false} SplitFirst(a: string, sep: char, b: string)
    requires sep !in a
    ensures Split(a + [sep] + b, sep) == [a] + Split(b, sep)
  {
    if a == [] {
      assert a + [sep] + b == [sep] + b;
      assert ([sep] + b)[1..] == b;
    } else {
      assert (a + [sep] + b)[1..] == a[1..] + [sep] + b;
      SplitFirst(a[1..], sep, b);
      assert [a[0]] + a[1..] == a;
    }
  }

  // ---------------------------------------------------------------------
  // Decimal digits and parseInt
  // ---------------------------------------------------------------------

  predicate IsDigit(c: char) {
    '0' <= c <= '9'
  }

  predicate AllDigits(s: string) {
    forall i :: 0 <= i < |s| ==> IsDigit(s[i])
  }

  function DigitValue(c: char): (d: nat)
    requires IsDigit(c)
    ensures d < 10
  {
    c as int - '0' as int
  }

  function Pow10(n: nat): (p: nat)
    ensures p >= 1
  {
    if n == 0 then 1 else 10 * Pow10(n - 1)
  }

  /** The number a string of decimal digits denotes, most significant digit first. */
  function DigitsValue(s: string): nat
    requires AllDigits(s)
  {
    if s == [] then 0 else DigitValue(s[0]) * Pow10(|s| - 1) + DigitsValue(s[1..])
  }

  /** A string of `n` digits denotes a number below 10^n. */
  lemma {:induction false} DigitsValueBound(s: string)
    requires AllDigits(s)
    ensures DigitsValue(s) < Pow10(|s|)
  {
    if s != [] {
      var t := s[1..];
      assert AllDigits(t);
      DigitsValueBound(t);
      DigitBelowBase(DigitValue(s[0]), Pow10(|t|), DigitsValue(t));
    }
  }

  lemma DigitBelowBase(d: nat, p: nat, r: nat)
    requires d < 10 && r < p
    ensures d * p + r < 10 * p
  {
    assert (9 - d) * p >= 0;
  }

  /** The longest prefix of `s` made of decimal digits. */
  function DigitPrefix(s: string): (r: string)
    ensures r <= s && AllDigits(r)
    ensures |r| < |s| ==> !IsDigit(s[|r|])
  {
    if s != [] && IsDigit(s[0]) then [s[0]] + DigitPrefix(s[1..]) else []
  }

  /**
   * `parseInt(s, 10)`: skip leading white space, take an optional sign, then
   * the longest run of decimal digits; `None` stands for NaN (no digit).
   */
  function ParseInt(s: string): Option<int> {
    var t := TrimStart(s);
    var digits := DigitPrefix(SignStripped(t));
    if digits == [] then None
    else if t[0] == '-' then Some(-(DigitsValue(digits) as int))
    else Some(DigitsValue(digits))
  }

  /** `t` without its leading `+` or `-`, if it has one. */
  function SignStripped(t: string): string {
    if t != [] && (t[0] == '-' || t[0] == '+') then t[1..] else t
  }

  /** A string of digits alone parses to the number it denotes. */
  lemma {:induction false} ParseIntDigits(s: string)
    requires s != [] && AllDigits(s)
    ensures ParseInt(s) == Some(DigitsValue(s))
  {
    assert TrimStart(s) == s;
    assert SignStripped(s) == s;
    DigitPrefixAll(s);
  }

  /** A string starting with neither white space, a sign nor a digit parses to NaN. */
  lemma ParseIntNoDigit(s: string)
    requires s != [] && !IsWhiteSpace(s[0]) && !IsDigit(s[0]) && s[0] != '-' && s[0] != '+'
    ensures ParseInt(s) == None
  {
    assert TrimStart(s) == s;
  }

  lemma {:induction false} DigitPrefixAll(s: string)
    requires AllDigits(s)
    ensures DigitPrefix(s) == s
  {
    if s != [] {
      DigitPrefixAll(s[1..]);
      assert [s[0]] + s[1..] == s;
    }
  }

  // ---------------------------------------------------------------------
  // Number to string
  // ---------------------------------------------------------------------

  function DigitChar(d: nat): (c: char)
    requires d < 10
    ensures IsDigit(c) && DigitValue(c) == d
  {
    (d + '0' as int) as char
  }

  /** `${n}` for a non-negative integer: its decimal digits without leading zeros. */
  function NatToString(n: nat): (r: string)
    ensures r != [] && AllDigits(r)
    ensures DigitsValue(r) == n
    ensures r[0] == '0' ==> n == 0
  {
    if n < 10 then
      assert DigitsValue([DigitChar(n)]) == DigitValue(DigitChar(n)) * Pow10(0) + DigitsValue([]);
      [DigitChar(n)]
    else
      var head := NatToString(n / 10);
      DigitsValueAppend(head, DigitChar(n % 10));
      head + [DigitChar(n % 10)]
  }

  lemma ShiftDigit(d: nat, p: nat, v: nat, e: nat)
    ensures d * (10 * p) + (v * 10 + e) == (d * p + v) * 10 + e
  {
  }

  /** Appending a digit multiplies the value by ten and adds the digit. */
  lemma {:induction false} DigitsValueAppend(s: string, c: char)
    requires AllDigits(s) && IsDigit(c)
    ensures AllDigits(s + [c]) && DigitsValue(s + [c]) == DigitsValue(s) * 10 + DigitValue(c)
  {
    if s == [] {
      assert [c][1..] == [];
      assert DigitsValue([c]) == DigitValue(c) * Pow10(0) + DigitsValue([]);
    } else {
      var t := s[1..];
      assert (s + [c])[1..] == t + [c];
      DigitsValueAppend(t, c);
      var d, p := DigitValue(s[0]), Pow10(|t|);
      assert DigitsValue(s + [c]) == d * Pow10(|t| + 1) + DigitsValue(t + [c]);
      assert Pow10(|t| + 1) == 10 * p;
      ShiftDigit(d, p, DigitsValue(t), DigitValue(c));
    }
  }

  // ---------------------------------------------------------------------
  // indexOf
  // ---------------------------------------------------------------------

  /** `xs.indexOf(x)`: the first position holding `x`, or -1 when there is none. */
  function IndexOf<T(==)>(xs: seq<T>, x: T): (i: int)
    ensures -1 <= i < |xs|
    ensures i == -1 <==> x !in xs
    ensures 0 <= i ==> xs[i] == x && x !in xs[..i]
  {
    if xs == [] then -1
    else if xs[0] == x then 0
    else
      var j := IndexOf(xs[1..], x);
      if j == -1 then -1
      else
        assert xs[..j + 1] == [xs[0]] + xs[1..][..j];
        j + 1
  }

  // ---------------------------------------------------------------------
  // The relational operator < on strings
  // ---------------------------------------------------------------------

  /**
   * `a < b` on strings: the first differing character decides, and a proper
   * prefix is smaller than the longer string.
   */
  predicate LexLess(a: string, b: string) {
    if b == [] then false
    else if a == [] then true
    else if a[0] != b[0] then a[0] < b[0]
    else LexLess(a[1..], b[1..])
  }

  lemma {:induction false} LexLessAsymmetric(a: string, b: string)
    ensures LexLess(a, b) ==> !LexLess(b, a)
  {
    if a != [] && b != [] && a[0] == b[0] {
      LexLessAsymmetric(a[1..], b[1..]);
    }
  }

  lemma {:induction false} LexLessTransitive(a: string, b: string, c: string)
    requires LexLess(a, b) && LexLess(b, c)
    ensures LexLess(a, c)
  {
    if a != [] && a[0] == b[0] && b[0] == c[0] {
      LexLessTransitive(a[1..], b[1..], c[1..]);
    }
  }

  /** Any two different strings are ordered one way or the other. */
  lemma {:induction false} LexLessTotal(a: string, b: string)
    requires a != b
    ensures LexLess(a, b) || LexLess(b, a)
  {
    if a != [] && b != [] && a[0] == b[0] {
      assert a == [a[0]] + a[1..] && b == [b[0]] + b[1..];
      LexLessTotal(a[1..], b[1..]);
    }
  }

  /** Comparing two concatenations whose first parts have the same length. */
  lemma {:induction false} LexLessConcat(p: string, q: string, p': string, q': string)
    requires |p| == |p'|
    ensures LexLess(p + q, p' + q') <==> LexLess(p, p') || (p == p' && LexLess(q, q'))
  {
    if p == [] {
      assert p + q == q && p' + q' == q';
    } else {
      var a, b := p + q, p' + q';
      assert a[0] == p[0] && b[0] == p'[0];
      if p[0] == p'[0] {
        assert a[1..] == p[1..] + q;
        assert b[1..] == p'[1..] + q';
        LexLessConcat(p[1..], q, p'[1..], q');
        assert p == [p[0]] + p[1..] && p' == [p'[0]] + p'[1..];
        assert LexLess(a, b) == LexLess(a[1..], b[1..]);
        assert LexLess(p, p') == LexLess(p[1..], p'[1..]);
      } else {
        assert LexLess(a, b) == (p[0] < p'[0]) == LexLess(p, p');
      }
    }
  }

  /**
   * On digit strings of equal length, `<` on strings agrees with `<` on the
   * numbers they denote, and equal numbers mean equal strings.
   */
  lemma {:induction false} DigitsCompare(a: string, b: string)
    requires |a| == |b| && AllDigits(a) && AllDigits(b)
    ensures LexLess(a, b) <==> DigitsValue(a) < DigitsValue(b)
    ensures a == b <==> DigitsValue(a) == DigitsValue(b)
  {
    if a != [] {
      var p := Pow10(|a| - 1);
      var da, db := DigitValue(a[0]), DigitValue(b[0]);
      DigitsValueBound(a[1..]);
      DigitsValueBound(b[1..]);
      DigitsCompare(a[1..], b[1..]);
      if da < db {
        LeadingDigitDecides(da, DigitsValue(a[1..]), db, DigitsValue(b[1..]), p);
      } else if db < da {
        LeadingDigitDecides(db, DigitsValue(b[1..]), da, DigitsValue(a[1..]), p);
      } else {
        assert a[0] == b[0];
        assert a == [a[0]] + a[1..] && b == [b[0]] + b[1..];
      }
    }
  }

  /** A smaller leading digit decides the comparison whatever the lower digits are. */
  lemma LeadingDigitDecides(d: nat, r: nat, d': nat, r': nat, p: nat)
    requires d < d' && r < p
    ensures d * p + r < d' * p + r'
  {
    calc {
      d * p + r;
    <
      d * p + p;
    ==
      (d + 1) * p;
    <=  { assert d + 1 <= d'; }
      d' * p;
    <=
      d' * p + r';
    }
  }

  // ---------------------------------------------------------------------
  // toLowerCase, on ASCII letters
  // ---------------------------------------------------------------------

  /** An ASCII capital becomes its small letter; every other character stays. */
  function LowerChar(c: char): char {
    if 'A' <= c <= 'Z' then (c as int + 32) as char else c
  }

  /** `s.toLowerCase()`, with upper-case ASCII letters as the only letters folded. */
  function ToLowerCase(s: string): (r: string)
    ensures |r| == |s|
    ensures forall i :: 0 <= i < |r| ==> !('A' <= r[i] <= 'Z')
    ensures forall i :: 0 <= i < |s| && !('A' <= s[i] <= 'Z') ==> r[i] == s[i]
    ensures forall i :: 0 <= i < |s| && 'A' <= s[i] <= 'Z' ==>
      'a' <= r[i] <= 'z' && r[i] as int - 'a' as int == s[i] as int - 'A' as int
  {
    seq(|s|, i requires 0 <= i < |s| => LowerChar(s[i]))
  }
}
