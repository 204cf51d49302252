/**
 * The JavaScript string built-ins the diagnostic pipeline relies on:
 * String.prototype.trim, String.prototype.split with a one-character
 * separator, Array.prototype.join and the global parseInt without a radix.
 */
module JsText {
  import opened Wrappers

  /** The characters `trim` removes: ECMAScript WhiteSpace and LineTerminator. */
  predicate IsSpace(c: char) {
    || c == ' ' || c == '\t' || c == '\n' || c == '\r' || c == '\U{000B}' || c == '\U{000C}'
    || c == '\U{00A0}' || c == '\U{1680}' || ('\U{2000}' <= c <= '\U{200A}')
    || c == '\U{2028}' || c == '\U{2029}' || c == '\U{202F}' || c == '\U{205F}'
    || c == '\U{3000}' || c == '\U{FEFF}'
  }

  /** No white space at either end: what `trim` leaves. */
  predicate IsTrimmed(s: string) {
    s == [] || (!IsSpace(s[0]) && !IsSpace(s[|s| - 1]))
  }

  /** The length of the longest all-white-space prefix. */
  function SpacesBefore(s: string): (n: nat)
    ensures n <= |s|
    ensures forall k :: 0 <= k < n ==> IsSpace(s[k])
    ensures n == |s| || !IsSpace(s[n])
  {
    if |s| > 0 && IsSpace(s[0]) then 1 + SpacesBefore(s[1..]) else 0
  }

  /** The length of the longest all-white-space suffix. */
  function SpacesAfter(s: string): (n: nat)
    ensures n <= |s|
    ensures forall k :: |s| - n <= k < |s| ==> IsSpace(s[k])
    ensures n == |s| || !IsSpace(s[|s| - n - 1])
  {
    if |s| > 0 && IsSpace(s[|s| - 1]) then 1 + SpacesAfter(s[..|s| - 1]) else 0
  }

  /** String.prototype.trimStart. */
  function TrimStart(s: string): string {
    s[SpacesBefore(s)..]
  }

  /** String.prototype.trimEnd. */
  function TrimEnd(s: string): string {
    s[..|s| - SpacesAfter(s)]
  }

  /** String.prototype.trim. */
  function Trim(s: string): (r: string)
    ensures IsTrimmed(r)
    ensures |r| <= |s|
  {
    TrimEnd(TrimStart(s))
  }

  /** How many times `x` occurs in `s`. */
  function Occurrences<T(==)>(s: seq<T>, x: T): (n: nat)
    ensures n <= |s|
    ensures n == 0 <==> x !in s
  {
    if |s| == 0 then 0 else (if s[0] == x then 1 else 0) + Occurrences(s[1..], x)
  }

  /** Array.prototype.join: the parts with `sep` between neighbours. */
  function Join(parts: seq<string>, sep: string): string {
    if |parts| == 0 then ""
    else if |parts| == 1 then parts[0]
    else parts[0] + sep + Join(parts[1..], sep)
  }

  /**
   * String.prototype.split with a one-character separator: the maximal
   * separator-free pieces, one more than there are separators, which
   * `Join` puts back together.
   */
  function Split(s: string, sep: char): (parts: seq<string>)
    ensures |parts| >= 1
    ensures forall i :: 0 <= i < |parts| ==> sep !in parts[i]
    decreases |s|
  {
    if |s| == 0 then [""]
    else
      var rest := Split(s[1..], sep);
      if s[0] == sep then [""] + rest
      else [[s[0]] + rest[0]] + rest[1..]
  }

  /** There is one more piece than there are separators. */
  lemma {:induction false} SplitCount(s: string, sep: char)
    ensures |Split(s, sep)| == Occurrences(s, sep) + 1
    decreases |s|
  {
    if |s| > 0 {
      SplitCount(s[1..], sep);
    }
  }

  /** Joining the pieces with the separator gives back the string. */
  lemma {:induction false} JoinOfSplit(s: string, sep: char)
    ensures Join(Split(s, sep), [sep]) == s
    decreases |s|
  {
    if |s| > 0 {
      JoinOfSplit(s[1..], sep);
      var rest := Split(s[1..], sep);
      if s[0] != sep && |rest| >= 2 {
        assert Join(rest, [sep]) == rest[0] + [sep] + Join(rest[1..], [sep]);
        assert Split(s, sep)[1..] == rest[1..];
      }
    }
  }

  /** Trim applied to every element (`.map(str => str.trim())`). */
  function TrimAll(parts: seq<string>): (r: seq<string>)
    ensures |r| == |parts|
    ensures forall i :: 0 <= i < |parts| ==> r[i] == Trim(parts[i])
  {
    seq(|parts|, i requires 0 <= i < |parts| => Trim(parts[i]))
  }

  /** The digit a character stands for in radix 36, as parseInt reads it. */
  function DigitValue(c: char): (d: Option<nat>)
    ensures d.Some? ==> d.value < 36
    ensures ('0' <= c <= '9') <==> (d.Some? && d.value < 10)
  {
    if '0' <= c <= '9' then Some(c as int - '0' as int)
    else if 'a' <= c <= 'z' then Some(c as int - 'a' as int + 10)
    else if 'A' <= c <= 'Z' then Some(c as int - 'A' as int + 10)
    else None
  }

  predicate IsDigitIn(c: char, radix: nat) {
    DigitValue(c).Some? && DigitValue(c).value < radix
  }

  /** A non-empty run of decimal digits. */
  predicate IsDecimal(s: string) {
    |s| > 0 && forall k :: 0 <= k < |s| ==> '0' <= s[k] <= '9'
  }

  /** The longest prefix of `s` made of digits of the radix. */
  function DigitPrefix(s: string, radix: nat): (p: string)
    ensures |p| <= |s| && p == s[..|p|]
    ensures forall k :: 0 <= k < |p| ==> IsDigitIn(p[k], radix)
    ensures |p| == |s| || !IsDigitIn(s[|p|], radix)
  {
    if |s| > 0 && IsDigitIn(s[0], radix) then [s[0]] + DigitPrefix(s[1..], radix) else []
  }

  /** The value of a digit string, most significant digit first. */
  function ValueIn(digits: string, radix: nat): nat
    requires forall k :: 0 <= k < |digits| ==> IsDigitIn(digits[k], radix)
  {
    if |digits| == 0 then 0
    else
      var last := digits[|digits| - 1];
      assert IsDigitIn(last, radix);
      ValueIn(digits[..|digits| - 1], radix) * radix + DigitValue(last).value
  }

  /**
   * The global parseInt with no radix; `None` is NaN. Leading white space is
   * skipped, one sign is read, a `0x`/`0X` prefix selects radix 16, and the
   * longest run of digits that follows is the number: what comes after the
   * run is ignored, and an empty run is NaN.
   */
  function ParseInt(s: string): (n: Option<int>)
    ensures (|s| == 0 || !(IsSpace(s[0]) || s[0] == '+' || s[0] == '-' || '0' <= s[0] <= '9')) ==> n.None?
  {
    var t := TrimStart(s);
    var negative := |t| > 0 && t[0] == '-';
    var u := if |t| > 0 && (t[0] == '-' || t[0] == '+') then t[1..] else t;
    var hex := |u| >= 2 && u[0] == '0' && (u[1] == 'x' || u[1] == 'X');
    var radix := if hex then 16 else 10;
    var digits := DigitPrefix(if hex then u[2..] else u, radix);
    if |digits| == 0 then None
    else
      var magnitude: int := ValueIn(digits, radix);
      Some(if negative then -magnitude else magnitude)
  }

  function DigitChar(d: nat): (c: char)
    requires d < 10
    ensures DigitValue(c) == Some(d)
  {
    ['0', '1', '2', '3', '4', '5', '6', '7', '8', '9'][d]
  }

  /** Decimal rendering of a natural number, without leading zeros. */
  function NatToString(n: nat): (s: string)
    ensures IsDecimal(s)
    ensures |s| > 1 ==> s[0] != '0'
  {
    if n < 10 then [DigitChar(n)] else NatToString(n / 10) + [DigitChar(n % 10)]
  }

  // ---------------------------------------------------------------- trim

  /** A string with no white space at its ends is left alone by trim. */
  lemma TrimOfTrimmed(s: string)
    requires IsTrimmed(s)
    ensures Trim(s) == s
  {
    if s != [] {
      assert SpacesBefore(s) == 0;
      assert TrimStart(s) == s;
      assert SpacesAfter(s) == 0;
    }
  }

  lemma {:induction false} SpacesBeforePadded(pre: string, x: string)
    requires forall k :: 0 <= k < |pre| ==> IsSpace(pre[k])
    requires x == [] || !IsSpace(x[0])
    ensures SpacesBefore(pre + x) == |pre|
  {
    if |pre| > 0 {
      assert (pre + x)[1..] == pre[1..] + x;
      SpacesBeforePadded(pre[1..], x);
    } else {
      assert pre + x == x;
    }
  }

  lemma {:induction false} SpacesAfterPadded(x: string, post: string)
    requires forall k :: 0 <= k < |post| ==> IsSpace(post[k])
    requires x == [] || !IsSpace(x[|x| - 1])
    ensures SpacesAfter(x + post) == |post|
  {
    if |post| > 0 {
      assert (x + post)[..|x + post| - 1] == x + post[..|post| - 1];
      SpacesAfterPadded(x, post[..|post| - 1]);
    } else {
      assert x + post == x;
    }
  }

  lemma TrimStartPadded(pre: string, x: string)
    requires forall k :: 0 <= k < |pre| ==> IsSpace(pre[k])
    requires x == [] || !IsSpace(x[0])
    ensures TrimStart(pre + x) == x
  {
    SpacesBeforePadded(pre, x);
    assert (pre + x)[|pre|..] == x;
  }

  lemma TrimEndPadded(x: string, post: string)
    requires forall k :: 0 <= k < |post| ==> IsSpace(post[k])
    requires x == [] || !IsSpace(x[|x| - 1])
    ensures TrimEnd(x + post) == x
  {
    SpacesAfterPadded(x, post);
    assert (x + post)[..|x|] == x;
  }

  /** Trim removes exactly the white space around a trimmed core. */
  lemma TrimPadded(pre: string, core: string, post: string)
    requires forall k :: 0 <= k < |pre| ==> IsSpace(pre[k])
    requires forall k :: 0 <= k < |post| ==> IsSpace(post[k])
    requires IsTrimmed(core)
    ensures Trim(pre + core + post) == core
  {
    assert pre + core + post == pre + (core + post);
    if core == [] {
      assert core + post == post;
      TrimStartPadded(pre + post, []);
      assert pre + post + [] == pre + post;
    } else {
      TrimStartPadded(pre, core + post);
      TrimEndPadded(core, post);
    }
  }

  // --------------------------------------------------------------- split

  /** A string without the separator splits into itself. */
  lemma {:induction false} SplitNoSep(s: string, sep: char)
    requires sep !in s
    ensures Split(s, sep) == [s]
  {
    if |s| > 0 {
      SplitNoSep(s[1..], sep);
      assert [s[0]] + s[1..] == s;
    }
  }

  /** A separator between two strings separates their pieces. */
  lemma {:induction false} SplitConcat(a: string, b: string, sep: char)
    ensures Split(a + [sep] + b, sep) == Split(a, sep) + Split(b, sep)
  {
    var s := a + [sep] + b;
    if |a| == 0 {
      assert s == [sep] + b;
      assert s[1..] == b;
    } else {
      assert s[1..] == a[1..] + [sep] + b;
      SplitConcat(a[1..], b, sep);
    }
  }

  /** A separator-free prefix is the first piece. */
  lemma SplitFirst(a: string, b: string, sep: char)
    requires sep !in a
    ensures Split(a + [sep] + b, sep) == [a] + Split(b, sep)
  {
    SplitConcat(a, b, sep);
    SplitNoSep(a, sep);
  }

  /** The first piece is everything before the first separator. */
  lemma {:induction false} SplitHead(s: string, sep: char, i: nat)
    requires i <= |s| && sep !in s[..i]
    requires i == |s| || s[i] == sep
    ensures Split(s, sep)[0] == s[..i]
  {
    if i == |s| {
      assert s[..i] == s;
      SplitNoSep(s, sep);
    } else {
      assert s == s[..i] + [sep] + s[i + 1..];
      SplitConcat(s[..i], s[i + 1..], sep);
      SplitNoSep(s[..i], sep);
    }
  }

  /** Joining one more part appends the separator and that part. */
  lemma {:induction false} JoinAppend(parts: seq<string>, x: string, sep: string)
    requires |parts| >= 1
    ensures Join(parts + [x], sep) == Join(parts, sep) + sep + x
    decreases |parts|
  {
    if |parts| > 1 {
      JoinAppend(parts[1..], x, sep);
      assert (parts + [x])[1..] == parts[1..] + [x];
    }
  }

  /** Split undoes Join when no part holds the separator. */
  lemma {:induction false} SplitOfJoin(parts: seq<string>, sep: char)
    requires |parts| >= 1
    requires forall i :: 0 <= i < |parts| ==> sep !in parts[i]
    ensures Split(Join(parts, [sep]), sep) == parts
  {
    SplitNoSep(parts[0], sep);
    if |parts| > 1 {
      SplitOfJoin(parts[1..], sep);
      SplitConcat(parts[0], Join(parts[1..], [sep]), sep);
      assert [parts[0]] + parts[1..] == parts;
    }
  }

  /** The concatenation of a sequence of sequences. */
  function Flatten(xss: seq<seq<string>>): (r: seq<string>)
    ensures |xss| == 1 ==> r == xss[0]
  {
    if |xss| == 0 then [] else xss[0] + Flatten(xss[1..])
  }

  lemma {:induction false} FlattenAppend(a: seq<seq<string>>, b: seq<seq<string>>)
    ensures Flatten(a + b) == Flatten(a) + Flatten(b)
  {
    if |a| > 0 {
      assert (a + b)[1..] == a[1..] + b;
      FlattenAppend(a[1..], b);
    } else {
      assert a + b == b;
    }
  }

  /** The pieces of each part, in order. */
  function SplitEach(parts: seq<string>, sep: char): (r: seq<seq<string>>)
    ensures |r| == |parts|
    ensures forall i :: 0 <= i < |parts| ==> r[i] == Split(parts[i], sep)
  {
    seq(|parts|, i requires 0 <= i < |parts| => Split(parts[i], sep))
  }

  /** Splitting joined parts splits each part in place, separators or not. */
  lemma {:induction false} SplitOfJoinAny(parts: seq<string>, sep: char)
    requires |parts| >= 1
    ensures Split(Join(parts, [sep]), sep) == Flatten(SplitEach(parts, sep))
  {
    if |parts| > 1 {
      SplitOfJoinAny(parts[1..], sep);
      SplitConcat(parts[0], Join(parts[1..], [sep]), sep);
      assert SplitEach(parts, sep) == [Split(parts[0], sep)] + SplitEach(parts[1..], sep);
    }
  }

  /** Trimming each piece is the identity when every piece is trimmed. */
  lemma TrimAllOfTrimmed(parts: seq<string>)
    requires forall i :: 0 <= i < |parts| ==> IsTrimmed(parts[i])
    ensures TrimAll(parts) == parts
  {
    forall i | 0 <= i < |parts| ensures TrimAll(parts)[i] == parts[i] {
      TrimOfTrimmed(parts[i]);
    }
  }

  lemma {:induction false} TrimAllAppend(a: seq<string>, b: seq<string>)
    ensures TrimAll(a + b) == TrimAll(a) + TrimAll(b)
  {
    assert forall i :: 0 <= i < |a| ==> (a + b)[i] == a[i];
    assert forall i :: 0 <= i < |b| ==> (a + b)[|a| + i] == b[i];
  }

  // ------------------------------------------------------------ parseInt

  lemma {:induction false} DigitPrefixOfDigits(s: string, rest: string, radix: nat)
    requires forall k :: 0 <= k < |s| ==> IsDigitIn(s[k], radix)
    requires rest == [] || !IsDigitIn(rest[0], radix)
    ensures DigitPrefix(s + rest, radix) == s
  {
    if |s| > 0 {
      assert (s + rest)[1..] == s[1..] + rest;
      DigitPrefixOfDigits(s[1..], rest, radix);
    } else {
      assert s + rest == rest;
    }
  }

  /**
   * A decimal numeral followed by anything that does not continue it
   * parses to the numeral's value: "12abc" reads as 12.
   */
  lemma ParseIntDecimalPrefix(d: string, rest: string)
    requires IsDecimal(d)
    requires rest == [] || !('0' <= rest[0] <= '9')
    requires !(d == "0" && |rest| > 0 && (rest[0] == 'x' || rest[0] == 'X'))
    ensures ParseInt(d + rest) == Some(ValueIn(d, 10))
  {
    var s := d + rest;
    assert s[0] == d[0];
    assert TrimStart(s) == s;
    if |s| >= 2 {
      assert s[1] == if |d| >= 2 then d[1] else rest[0];
    }
    DigitPrefixOfDigits(d, rest, 10);
  }

  /** A decimal numeral parses to its value. */
  lemma ParseIntDecimal(d: string)
    requires IsDecimal(d)
    ensures ParseInt(d) == Some(ValueIn(d, 10))
  {
    ParseIntDecimalPrefix(d, []);
    assert d + [] == d;
  }

  lemma {:induction false} ValueOfNatToString(n: nat)
    ensures ValueIn(NatToString(n), 10) == n
  {
    if n >= 10 {
      var s := NatToString(n);
      assert s[..|s| - 1] == NatToString(n / 10);
      ValueOfNatToString(n / 10);
    }
  }

  /** parseInt reads back the decimal rendering of every natural number. */
  lemma ParseIntOfNatToString(n: nat)
    ensures ParseInt(NatToString(n)) == Some(n)
  {
    ParseIntDecimal(NatToString(n));
    ValueOfNatToString(n);
  }
}
