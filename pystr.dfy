/**
 * The Python string operations the parsers rely on, with Python's own
 * rules: `startswith`, slicing (indices clamped, negative indices counted
 * from the end), `find`, `strip`/`rstrip`, `split(sep, maxsplit)`,
 * `split()`, and the `int()` and `float()` constructors on text.
 */
module PyStr {
  import opened Wrappers

  /** `str.isspace` on one character (the characters Python's `strip()` and `split()` remove). */
  predicate IsSpace(c: char) {
    var n := c as int;
    || (9 <= n <= 13) || (28 <= n <= 32) || n == 0x85 || n == 0xA0 || n == 0x1680
    || (0x2000 <= n <= 0x200A) || n == 0x2028 || n == 0x2029 || n == 0x202F || n == 0x205F || n == 0x3000
  }

  /** The white space `int()` and `float()` ignore around a number: as above, without U+001C to U+001F. */
  predicate IsNumberSpace(c: char) {
    IsSpace(c) && !(28 <= c as int <= 31)
  }

  /** An ASCII decimal digit. */
  predicate IsDigit(c: char) {
    '0' as int <= c as int <= '9' as int
  }

  /** The value of a digit. */
  function DigitValue(c: char): (d: nat)
    requires IsDigit(c)
    ensures d < 10
  {
    c as int - '0' as int
  }

  /** `s.startswith(p)`. */
  predicate StartsWith(s: string, p: string) {
    |p| <= |s| && s[..|p|] == p
  }

  /** A slice bound as Python resolves it against a length `n`. */
  function Bound(k: int, n: nat): (r: nat)
    ensures r <= n
    ensures 0 <= k ==> r == if k <= n then k else n
    ensures k < 0 && -k <= n ==> r == n + k
  {
    if k < 0 then (if k + n < 0 then 0 else k + n) else if k > n then n else k
  }

  /** `s[i:j]`. */
  function Slice(s: string, i: int, j: int): (r: string)
    ensures var lo, hi := Bound(i, |s|), Bound(j, |s|);
            r == if lo < hi then s[lo..hi] else []
  {
    var lo, hi := Bound(i, |s|), Bound(j, |s|);
    if lo < hi then s[lo..hi] else []
  }

  /** `s[i:]`. */
  function From(s: string, i: int): (r: string)
    ensures 0 <= i <= |s| ==> r == s[i..]
    ensures |s| <= i ==> r == []
  {
    Slice(s, i, |s|)
  }

  /** `s.find(c)`: the first index of `c`, or -1. */
  function Find(s: string, c: char): (r: int)
    ensures r == -1 <==> c !in s
    ensures r != -1 ==> 0 <= r < |s| && s[r] == c && c !in s[..r]
  {
    if s == [] then -1
    else if s[0] == c then 0
    else
      var k := Find(s[1..], c);
      assert s[1..][..if k < 0 then 0 else k] == s[1..if k < 0 then 1 else k + 1];
      if k == -1 then -1 else k + 1
  }

  /** `s` without its leading characters that satisfy `p`. */
  function LStripBy(s: string, p: char -> bool): (r: string)
    ensures |r| <= |s| && r == s[|s| - |r|..]
    ensures r != [] ==> !p(r[0])
  {
    if s != [] && p(s[0]) then LStripBy(s[1..], p) else s
  }

  /** `s` without its trailing characters that satisfy `p`. */
  function RStripBy(s: string, p: char -> bool): (r: string)
    ensures |r| <= |s| && r == s[..|r|]
    ensures r != [] ==> !p(r[|r| - 1])
  {
    if s != [] && p(s[|s| - 1]) then RStripBy(s[..|s| - 1], p) else s
  }

  /** Both ends stripped. */
  function StripBy(s: string, p: char -> bool): (r: string)
    ensures r != [] ==> !p(r[0]) && !p(r[|r| - 1])
  {
    RStripBy(LStripBy(s, p), p)
  }

  /** Leading characters that are stripped anyway do not change the result. */
  lemma {:induction false} LStripPrefix(a: string, b: string, p: char -> bool)
    requires forall i :: 0 <= i < |a| ==> p(a[i])
    ensures LStripBy(a + b, p) == LStripBy(b, p)
  {
    if a != [] {
      assert (a + b)[0] == a[0] && p(a[0]);
      assert (a + b)[1..] == a[1..] + b;
      LStripPrefix(a[1..], b, p);
    } else {
      assert a + b == b;
    }
  }

  /** Trailing characters that are stripped anyway do not change the result. */
  lemma {:induction false} RStripSuffix(b: string, a: string, p: char -> bool)
    requires forall i :: 0 <= i < |a| ==> p(a[i])
    ensures RStripBy(b + a, p) == RStripBy(b, p)
  {
    if a != [] {
      var n := |a|;
      assert (b + a)[|b + a| - 1] == a[n - 1] && p(a[n - 1]);
      assert (b + a)[..|b + a| - 1] == b + a[..n - 1];
      RStripSuffix(b, a[..n - 1], p);
    } else {
      assert b + a == b;
    }
  }

  /** Text that neither starts nor ends with white space is its own `strip()`. */
  lemma StripNothing(s: string)
    requires s == [] || (!IsSpace(s[0]) && !IsSpace(s[|s| - 1]))
    ensures Strip(s) == s
  {
  }

  /** The first `c` of `a + [c] + b` when `a` holds none. */
  lemma {:induction false} FindAfter(a: string, c: char, b: string)
    requires c !in a
    ensures Find(a + [c] + b, c) == |a|
  {
    if a != [] {
      assert (a + [c] + b)[1..] == a[1..] + [c] + b;
      FindAfter(a[1..], c, b);
    }
  }

  /** `s.strip()`. */
  function Strip(s: string): string {
    StripBy(s, IsSpace)
  }

  /** `s.rstrip()`. */
  function RStrip(s: string): string {
    RStripBy(s, IsSpace)
  }

  /** `sep.join(parts)` for a one-character separator. */
  function Join(parts: seq<string>, sep: char): string {
    if parts == [] then []
    else if |parts| == 1 then parts[0]
    else parts[0] + [sep] + Join(parts[1..], sep)
  }

  /**
   * `s.split(sep, maxsplit)` for a one-character separator: at most
   * `maxsplit` cuts at the first occurrences of `sep`.
   */
  function Split(s: string, sep: char, maxsplit: nat): (parts: seq<string>)
    ensures 1 <= |parts| <= maxsplit + 1
    ensures Join(parts, sep) == s
    ensures forall k :: 0 <= k < |parts| - 1 ==> sep !in parts[k]
    ensures |parts| < maxsplit + 1 ==> sep !in parts[|parts| - 1]
    decreases |s|
  {
    if maxsplit == 0 || sep !in s then [s]
    else
      var i := Find(s, sep);
      var rest := Split(s[i + 1..], sep, maxsplit - 1);
      SplitCut(s, sep, i, rest);
      [s[..i]] + rest
  }

  /** The first cut of `Split`: the part before the first `sep`, then the parts of what follows it. */
  lemma SplitCut(s: string, sep: char, i: nat, rest: seq<string>)
    requires i < |s| && s[i] == sep && sep !in s[..i]
    requires rest != [] && Join(rest, sep) == s[i + 1..]
    ensures Join([s[..i]] + rest, sep) == s
    ensures forall k :: 1 <= k < |rest| + 1 ==> ([s[..i]] + rest)[k] == rest[k - 1]
  {
    var parts := [s[..i]] + rest;
    assert parts[0] == s[..i] && parts[1..] == rest;
    assert Join(parts, sep) == s[..i] + [sep] + s[i + 1..];
    CutAt(s, i);
  }

  /** A string is the part before position `i`, the character there and the part after it. */
  lemma CutAt(s: string, i: nat)
    requires i < |s|
    ensures s == s[..i] + [s[i]] + s[i + 1..]
  {
  }

  /** The longest prefix of `s` without white space. */
  function Word(s: string): (w: string)
    ensures |w| <= |s| && w == s[..|w|] && forall i :: 0 <= i < |w| ==> !IsSpace(w[i])
    ensures |w| < |s| ==> IsSpace(s[|w|])
    ensures s != [] && !IsSpace(s[0]) ==> w != []
  {
    if s == [] || IsSpace(s[0]) then []
    else
      var w := Word(s[1..]);
      assert s[..|w| + 1] == [s[0]] + w;
      [s[0]] + w
  }

  /** A word: non-empty, without white space. */
  predicate IsWord(w: string) {
    w != [] && forall i :: 0 <= i < |w| ==> !IsSpace(w[i])
  }

  /** `s.split()`: the maximal runs of characters that are not white space. */
  function SplitWs(s: string): (ws: seq<string>)
    ensures forall k :: 0 <= k < |ws| ==> IsWord(ws[k])
    decreases |s|
  {
    var t := LStripBy(s, IsSpace);
    if t == [] then []
    else
      var w := Word(t);
      assert IsWord(w) && |t[|w|..]| < |s|;
      var rest := SplitWs(t[|w|..]);
      WordsCons(w, rest);
      [w] + rest
  }

  /** A word before words gives words. */
  lemma WordsCons(w: string, rest: seq<string>)
    requires IsWord(w) && forall k :: 0 <= k < |rest| ==> IsWord(rest[k])
    ensures forall k :: 0 <= k < |[w] + rest| ==> IsWord(([w] + rest)[k])
  {
  }

  /** The digits of a natural number, as `str()` writes them. */
  function NatToStr(n: nat): (s: string)
    ensures s != [] && forall i :: 0 <= i < |s| ==> IsDigit(s[i])
  {
    if n < 10 then [('0' as int + n) as char] else NatToStr(n / 10) + [('0' as int + n % 10) as char]
  }

  /** `str(n)`. */
  function IntToStr(n: int): string {
    if n < 0 then "-" + NatToStr(-n) else NatToStr(n)
  }

  /** The number written by the decimal digits `ds`. */
  function DecimalValue(ds: string): nat
    requires forall i :: 0 <= i < |ds| ==> IsDigit(ds[i])
  {
    if ds == [] then 0 else DecimalValue(ds[..|ds| - 1]) * 10 + DigitValue(ds[|ds| - 1])
  }

  lemma {:induction false} DecimalOfNat(n: nat)
    ensures DecimalValue(NatToStr(n)) == n
  {
    if n >= 10 {
      var s := NatToStr(n);
      assert s[..|s| - 1] == NatToStr(n / 10);
      DecimalOfNat(n / 10);
    }
  }

  /** Digits with single underscores between them, as Python accepts them in numbers. */
  predicate DigitGroup(b: string) {
    && b != [] && IsDigit(b[0]) && IsDigit(b[|b| - 1])
    && (forall i :: 0 <= i < |b| ==> IsDigit(b[i]) || b[i] == '_')
    && forall i :: 0 <= i < |b| - 1 ==> b[i] == '_' ==> b[i + 1] != '_'
  }

  /** The digits of a group, underscores left out. */
  function Digits(b: string): (ds: string)
    requires forall i :: 0 <= i < |b| ==> IsDigit(b[i]) || b[i] == '_'
    ensures forall i :: 0 <= i < |ds| ==> IsDigit(ds[i])
    ensures (forall i :: 0 <= i < |b| ==> IsDigit(b[i])) ==> ds == b
  {
    if b == [] then []
    else
      var init := b[..|b| - 1];
      Digits(init) + (if b[|b| - 1] == '_' then [] else [b[|b| - 1]])
  }

  /** A group of digits without underscores is a group. */
  lemma PlainDigits(ds: string)
    requires ds != [] && forall i :: 0 <= i < |ds| ==> IsDigit(ds[i])
    ensures DigitGroup(ds) && Digits(ds) == ds
  {
  }

  /** The value of a digit group. */
  function GroupValue(b: string): nat
    requires DigitGroup(b)
  {
    DecimalValue(Digits(b))
  }

  /** A leading sign, and what follows it. */
  function Sign(t: string): (bool, string) {
    if t != [] && (t[0] == '+' || t[0] == '-') then (t[0] == '-', t[1..]) else (false, t)
  }

  /**
   * `int(s)` in base 10: white space around, an optional sign, and one
   * digit group; anything else is a `ValueError`.
   */
  function ParseInt(s: string): (r: Result<int>)
    ensures r.Err? ==> r.error == ValueError
  {
    SignedGroup(Sign(StripBy(s, IsNumberSpace)))
  }

  /** A sign and a digit group, as `int()` reads them. */
  function SignedGroup(sb: (bool, string)): (r: Result<int>)
    ensures r.Err? ==> r.error == ValueError
  {
    if DigitGroup(sb.1) then Ok(if sb.0 then -(GroupValue(sb.1) as int) else GroupValue(sb.1))
    else Err(ValueError)
  }

  /** Spaces to the left of some text. */
  function Spaces(k: nat): (s: string)
    ensures |s| == k && forall i :: 0 <= i < k ==> s[i] == ' '
  {
    if k == 0 then [] else [' '] + Spaces(k - 1)
  }

  /** Stripping the padding of a right-aligned field gives the field back. */
  lemma {:induction false} StripPadded(k: nat, t: string)
    requires t != [] && !IsNumberSpace(t[0]) && !IsNumberSpace(t[|t| - 1])
    ensures StripBy(Spaces(k) + t, IsNumberSpace) == t
  {
    LStripPadded(k, t);
  }

  lemma {:induction false} LStripPadded(k: nat, t: string)
    requires t != [] && !IsNumberSpace(t[0])
    ensures LStripBy(Spaces(k) + t, IsNumberSpace) == t
  {
    if k > 0 {
      assert (Spaces(k) + t)[1..] == Spaces(k - 1) + t;
      LStripPadded(k - 1, t);
    }
  }

  /** The digits `str()` writes for a natural number form a group with that value. */
  lemma NatToStrGroup(m: nat)
    ensures DigitGroup(NatToStr(m)) && GroupValue(NatToStr(m)) == m
  {
    PlainDigits(NatToStr(m));
    DecimalOfNat(m);
  }

  /** `str(n)`: its sign and its digits, with no white space at either end. */
  lemma IntToStrParts(n: int)
    ensures Sign(IntToStr(n)) == (n < 0, NatToStr(if n < 0 then -n else n))
    ensures var t := IntToStr(n); t != [] && !IsNumberSpace(t[0]) && !IsNumberSpace(t[|t| - 1])
  {
    if n < 0 {
      assert IntToStr(n)[1..] == NatToStr(-n);
    }
  }

  /** `int()` on text that strips to a sign and a digit group. */
  lemma ParseIntOf(s: string, neg: bool, b: string)
    requires Sign(StripBy(s, IsNumberSpace)) == (neg, b) && DigitGroup(b)
    ensures ParseInt(s) == Ok(if neg then -(GroupValue(b) as int) else GroupValue(b))
  {
  }

  /** `int()` reads back what `str()` writes, also right-aligned in a wider field. */
  lemma ParseIntOfStr(n: int, k: nat)
    ensures ParseInt(Spaces(k) + IntToStr(n)) == Ok(n)
  {
    NatToStrGroup(if n < 0 then -n else n);
    IntToStrParts(n);
    StripPadded(k, IntToStr(n));
    var m := if n < 0 then -n else n;
    ParseIntOf(Spaces(k) + IntToStr(n), n < 0, NatToStr(m));
  }

  /** ASCII lower case. */
  function Lower(s: string): (r: string)
    ensures |r| == |s|
  {
    if s == [] then [] else [if 'A' <= s[0] <= 'Z' then (s[0] as int + 32) as char else s[0]] + Lower(s[1..])
  }

  /** A value `float()` can return. */
  datatype PyFloat = Finite(value: real) | Infinity(negative: bool) | NaN

  /** `10` to the power `e`. */
  function Pow10(e: nat): (r: real)
    ensures r >= 1.0
  {
    if e == 0 then 1.0 else 10.0 * Pow10(e - 1)
  }

  /** An optional digit group: empty, or a group. */
  predicate OptGroup(b: string) {
    b == [] || DigitGroup(b)
  }

  function OptValue(b: string): nat
    requires OptGroup(b)
  {
    if b == [] then 0 else GroupValue(b)
  }

  /**
   * The value of a decimal mantissa: digits, optionally a point and more
   * digits, with at least one digit; `None` when it is not one.
   */
  function Mantissa(m: string): (r: Option<real>)
  {
    var p := Find(m, '.');
    var (whole, frac) := if p == -1 then (m, []) else (m[..p], m[p + 1..]);
    if (whole != [] || frac != []) && OptGroup(whole) && OptGroup(frac) then
      Some(OptValue(whole) as real + OptValue(frac) as real / Pow10(|Digits(frac)|))
    else None
  }

  /** The first index of `e` or `E`, or -1. */
  function FindExponent(t: string): (r: int)
    ensures r == -1 || (0 <= r < |t| && (t[r] == 'e' || t[r] == 'E'))
  {
    var a, b := Find(t, 'e'), Find(t, 'E');
    if a == -1 then b else if b == -1 then a else if a < b then a else b
  }

  /** A finite decimal number without its sign: mantissa and optional exponent. */
  function Decimal(t: string): (r: Option<real>)
  {
    var x := FindExponent(t);
    if x == -1 then Mantissa(t)
    else
      var m := Mantissa(t[..x]);
      var (neg, e) := Sign(t[x + 1..]);
      if m.None? || !DigitGroup(e) then None
      else if neg then Some(m.value / Pow10(GroupValue(e)))
      else Some(m.value * Pow10(GroupValue(e)))
  }

  /**
   * `float(s)`: white space around, an optional sign, and either a decimal
   * number or `inf`, `infinity` or `nan` in any case; anything else is a
   * `ValueError`.
   */
  function ParseFloat(s: string): (r: Result<PyFloat>)
    ensures r.Err? ==> r.error == ValueError
  {
    SignedFloat(Sign(StripBy(s, IsNumberSpace)))
  }

  /** A sign and a decimal number or a special value, as `float()` reads them. */
  function SignedFloat(sb: (bool, string)): (r: Result<PyFloat>)
    ensures r.Err? ==> r.error == ValueError
  {
    var (neg, b) := sb;
    var lower := Lower(b);
    if lower == "inf" || lower == "infinity" then Ok(Infinity(neg))
    else if lower == "nan" then Ok(NaN)
    else
      var d := Decimal(b);
      if d.None? then Err(ValueError)
      else Ok(Finite(if neg then -d.value else d.value))
  }

  /** `float()` on text that strips to a sign and a decimal number. */
  lemma ParseFloatOf(s: string, neg: bool, b: string)
    requires Sign(StripBy(s, IsNumberSpace)) == (neg, b)
    requires Lower(b) != "inf" && Lower(b) != "infinity" && Lower(b) != "nan" && Decimal(b).Some?
    ensures ParseFloat(s) == Ok(Finite(if neg then -Decimal(b).value else Decimal(b).value))
  {
  }

  /** A character that is not a digit does not occur among digits. */
  lemma NotAmongDigits(ds: string, c: char)
    requires forall i :: 0 <= i < |ds| ==> IsDigit(ds[i])
    requires !IsDigit(c)
    ensures c !in ds
  {
  }

  /** A digit group without a point or an exponent is read as its value. */
  lemma DecimalOfDigits(ds: string)
    requires ds != [] && forall i :: 0 <= i < |ds| ==> IsDigit(ds[i])
    ensures Decimal(ds) == Some(GroupValue(ds) as real)
  {
    PlainDigits(ds);
    NotAmongDigits(ds, 'e');
    NotAmongDigits(ds, 'E');
    NotAmongDigits(ds, '.');
    assert FindExponent(ds) == -1;
    assert Mantissa(ds) == Some(GroupValue(ds) as real + 0 as real / Pow10(0));
  }

  /** Digits do not spell a special value. */
  lemma DigitsNotSpecial(ds: string)
    requires ds != [] && forall i :: 0 <= i < |ds| ==> IsDigit(ds[i])
    ensures Lower(ds) != "inf" && Lower(ds) != "infinity" && Lower(ds) != "nan"
  {
    LowerDigits(ds);
    assert !IsDigit('i') && !IsDigit('n');
  }

  /** `float()` reads an integer written by `str()` as that number, also right-aligned. */
  lemma ParseFloatOfStr(n: int, k: nat)
    ensures ParseFloat(Spaces(k) + IntToStr(n)) == Ok(Finite(n as real))
  {
    var m := if n < 0 then -n else n;
    var ds := NatToStr(m);
    var s := Spaces(k) + IntToStr(n);
    assert Sign(StripBy(s, IsNumberSpace)) == (n < 0, ds) by {
      IntToStrParts(n);
      StripPadded(k, IntToStr(n));
    }
    assert Decimal(ds) == Some(m as real) by {
      NatToStrGroup(m);
      DecimalOfDigits(ds);
    }
    assert Lower(ds) != "inf" && Lower(ds) != "infinity" && Lower(ds) != "nan" by {
      DigitsNotSpecial(ds);
    }
    ParseFloatOf(s, n < 0, ds);
    assert (if n < 0 then -Decimal(ds).value else Decimal(ds).value) == n as real;
  }

  /** Lower case leaves digits alone. */
  lemma LowerDigits(ds: string)
    requires forall i :: 0 <= i < |ds| ==> IsDigit(ds[i])
    ensures Lower(ds) == ds
  {
    if ds != [] {
      LowerDigits(ds[1..]);
    }
  }
}
