/**
  The pieces of Python's `str` that the modelled code relies on:
  `isspace`, `strip`, `split()` and `split(sep)`, `join`, `lower` (ASCII),
  `startswith`, decimal formatting of integers and `int()` parsing.
 */
module Text {
  import opened Wrappers
  import opened Seqs

  /** Python's `str.isspace` for a single character (the Unicode white space set). */
  predicate IsSpace(c: char) {
    var k := c as int;
    k == 0x20 || 0x09 <= k <= 0x0D || 0x1C <= k <= 0x1F || k == 0x85 || k == 0xA0
    || k == 0x1680 || 0x2000 <= k <= 0x200A || k == 0x2028 || k == 0x2029
    || k == 0x202F || k == 0x205F || k == 0x3000
  }

  /** A non-empty run of characters none of which is white space. */
  predicate IsToken(t: string) {
    t != [] && forall i :: 0 <= i < |t| ==> !IsSpace(t[i])
  }

  predicate StartsWith(s: string, prefix: string) {
    |prefix| <= |s| && s[..|prefix|] == prefix
  }

  // ---------------------------------------------------------------- strip

  /** Drops the leading white space of `s`. */
  function TrimLeft(s: string): string {
    if s != [] && IsSpace(s[0]) then TrimLeft(s[1..]) else s
  }

  /** Drops the trailing white space of `s`. */
  function TrimRight(s: string): string {
    if s != [] && IsSpace(s[|s| - 1]) then TrimRight(s[..|s| - 1]) else s
  }

  /**
    Python's `str.strip()`: the text between the leading and the trailing
    white space, which neither starts nor ends with white space.
   */
  function Strip(s: string): (r: string)
    ensures |r| <= |s|
    ensures r == [] || (!IsSpace(r[0]) && !IsSpace(r[|r| - 1]))
  {
    TrimLeftShape(s);
    TrimRightShape(TrimLeft(s));
    TrimRight(TrimLeft(s))
  }

  /** What `TrimLeft` drops is white space only, and what it keeps starts with a non-space. */
  lemma {:induction false} TrimLeftShape(s: string)
    ensures |TrimLeft(s)| <= |s| && TrimLeft(s) == s[|s| - |TrimLeft(s)|..]
    ensures TrimLeft(s) == [] || !IsSpace(TrimLeft(s)[0])
    ensures forall i :: 0 <= i < |s| - |TrimLeft(s)| ==> IsSpace(s[i])
    decreases |s|
  {
    if s != [] && IsSpace(s[0]) {
      TrimLeftShape(s[1..]);
      forall i | 0 <= i < |s| - |TrimLeft(s)| ensures IsSpace(s[i]) {
        if i > 0 { assert s[i] == s[1..][i - 1]; }
      }
    }
  }

  /** What `TrimRight` drops is white space only, and what it keeps ends with a non-space. */
  lemma {:induction false} TrimRightShape(s: string)
    ensures |TrimRight(s)| <= |s| && TrimRight(s) == s[..|TrimRight(s)|]
    ensures TrimRight(s) == [] || !IsSpace(TrimRight(s)[|TrimRight(s)| - 1])
    ensures forall i :: |TrimRight(s)| <= i < |s| ==> IsSpace(s[i])
    decreases |s|
  {
    if s != [] && IsSpace(s[|s| - 1]) {
      TrimRightShape(s[..|s| - 1]);
      forall i | |TrimRight(s)| <= i < |s| ensures IsSpace(s[i]) {
        if i < |s| - 1 { assert s[i] == s[..|s| - 1][i]; }
      }
    }
  }

  /**
    `strip()` keeps a contiguous part of `s` that neither starts nor ends
    with white space, and drops only white space around it.
   */
  lemma StripShape(s: string)
    ensures Strip(s) == [] || (!IsSpace(Strip(s)[0]) && !IsSpace(Strip(s)[|Strip(s)| - 1]))
    ensures var i := |s| - |TrimLeft(s)|;
            0 <= i <= i + |Strip(s)| <= |s| && Strip(s) == s[i..i + |Strip(s)|]
    ensures forall j :: 0 <= j < |s| - |TrimLeft(s)| ==> IsSpace(s[j])
    ensures forall j :: |s| - |TrimLeft(s)| + |Strip(s)| <= j < |s| ==> IsSpace(s[j])
  {
    var t := TrimLeft(s);
    TrimLeftShape(s);
    TrimRightShape(t);
    var r := TrimRight(t);
    var i := |s| - |t|;
    assert r == s[i..i + |r|];
    forall j | i + |r| <= j < |s| ensures IsSpace(s[j]) {
      assert s[j] == t[j - i];
    }
  }

  /** A string that neither starts nor ends with white space is its own strip. */
  lemma StripNoEdgeSpace(s: string)
    requires s != [] && !IsSpace(s[0]) && !IsSpace(s[|s| - 1])
    ensures Strip(s) == s
  {
    assert TrimLeft(s) == s;
  }

  // ---------------------------------------------------------------- join

  /** Python's `sep.join(parts)`. */
  function JoinWith(parts: seq<string>, sep: string): string
  {
    if |parts| == 0 then ""
    else if |parts| == 1 then parts[0]
    else JoinWith(parts[..|parts| - 1], sep) + sep + parts[|parts| - 1]
  }

  // ---------------------------------------------------------------- split()

  /**
    Python's `str.split()` with no argument: the maximal runs of
    non-white-space characters, in order.
   */
  function Words(s: string): (r: seq<string>)
    ensures s != [] && !IsSpace(s[|s| - 1]) ==> r != []
  {
    if s == [] then []
    else
      var init := s[..|s| - 1];
      var r := Words(init);
      var c := s[|s| - 1];
      if IsSpace(c) then r
      else if |s| >= 2 && !IsSpace(s[|s| - 2]) then
        r[..|r| - 1] + [r[|r| - 1] + [c]]
      else r + [[c]]
  }

  /** `split()` yields tokens only. */
  lemma {:induction false} WordsAreTokens(s: string)
    ensures forall k :: 0 <= k < |Words(s)| ==> IsToken(Words(s)[k])
    decreases |s|
  {
    if s != [] {
      var init := s[..|s| - 1];
      var c := s[|s| - 1];
      WordsAreTokens(init);
      var r := Words(init);
      if !IsSpace(c) && |s| >= 2 && !IsSpace(s[|s| - 2]) {
        var last := r[|r| - 1] + [c];
        assert IsToken(r[|r| - 1]);
        forall i | 0 <= i < |last| ensures !IsSpace(last[i]) {
          if i < |last| - 1 { assert last[i] == r[|r| - 1][i]; }
        }
      }
    }
  }

  /** A string that is one token splits into itself. */
  lemma {:induction false} WordsOfToken(s: string)
    requires IsToken(s)
    ensures Words(s) == [s]
    decreases |s|
  {
    var init := s[..|s| - 1];
    var c := s[|s| - 1];
    if |s| >= 2 {
      assert IsToken(init);
      WordsOfToken(init);
      assert init + [c] == s;
    } else {
      assert [c] == s;
    }
  }

  /** A space followed by one more token adds exactly that token. */
  lemma {:induction false} WordsAppendToken(x: string, t: string)
    requires IsToken(t)
    ensures Words(x + " " + t) == Words(x) + [t]
    decreases |t|
  {
    var y := x + " " + t;
    var c := t[|t| - 1];
    if |t| == 1 {
      assert y[..|y| - 1] == x + " ";
      assert (x + " ")[..|x|] == x;
      assert Words(x + " ") == Words(x);
      assert [c] == t;
    } else {
      var t' := t[..|t| - 1];
      assert IsToken(t');
      WordsAppendToken(x, t');
      assert y[..|y| - 1] == x + " " + t';
      assert y[|y| - 2] == t[|t| - 2];
      assert t' + [c] == t;
      var r := Words(x + " " + t');
      assert r[..|r| - 1] == Words(x);
    }
  }

  /** Joining one more token onto tokens that `split()` recovers keeps them recoverable. */
  lemma WordsOfJoinSnoc(init: seq<string>, last: string)
    requires init != [] && IsToken(last) && Words(JoinWith(init, " ")) == init
    ensures Words(JoinWith(init + [last], " ")) == init + [last]
  {
    var ts := init + [last];
    SnocParts(init, last);
    assert JoinWith(ts, " ") == JoinWith(init, " ") + " " + last;
    WordsAppendToken(JoinWith(init, " "), last);
  }

  /** `split()` undoes a single-space `join` of tokens. */
  lemma {:induction false} WordsOfJoin(ts: seq<string>)
    requires forall k :: 0 <= k < |ts| ==> IsToken(ts[k])
    ensures Words(JoinWith(ts, " ")) == ts
    decreases |ts|
  {
    if |ts| == 1 {
      WordsOfToken(ts[0]);
    } else if |ts| > 1 {
      var init := ts[..|ts| - 1];
      assert forall k :: 0 <= k < |init| ==> IsToken(init[k]) by {
        forall k | 0 <= k < |init| ensures IsToken(init[k]) { assert init[k] == ts[k]; }
      }
      WordsOfJoin(init);
      WordsOfJoinSnoc(init, ts[|ts| - 1]);
      InitLast(ts);
    }
  }

  // ---------------------------------------------------------------- split(sep)

  /**
    Python's `s.split(c)` for a one-character separator: the pieces
    between the occurrences of `c`, empty pieces included.
   */
  function SplitOn(s: string, c: char): (r: seq<string>)
    ensures |r| >= 1
    ensures forall k :: 0 <= k < |r| ==> c !in r[k]
    ensures JoinWith(r, [c]) == s
  {
    if s == [] then [""]
    else
      var r := SplitOn(s[..|s| - 1], c);
      var last := s[|s| - 1];
      assert s == s[..|s| - 1] + [last];
      if last == c then r + [""]
      else
        var r' := r[..|r| - 1] + [r[|r| - 1] + [last]];
        assert r'[..|r'| - 1] == r[..|r| - 1];
        r'
  }

  /** A string without the separator is a single piece. */
  lemma {:induction false} SplitOnNoSeparator(p: string, c: char)
    requires c !in p
    ensures SplitOn(p, c) == [p]
    decreases |p|
  {
    if p != [] {
      var init := p[..|p| - 1];
      assert p[|p| - 1] in p;
      assert c !in init by { forall x | x in init ensures x != c { assert x in p; } }
      SplitOnNoSeparator(init, c);
      assert init + [p[|p| - 1]] == p;
    }
  }

  /** A separator followed by a piece without separators adds exactly that piece. */
  lemma {:induction false} SplitOnAppendPiece(j: string, c: char, p: string)
    requires c !in p
    ensures SplitOn(j + [c] + p, c) == SplitOn(j, c) + [p]
    decreases |p|
  {
    var y := j + [c] + p;
    if p == [] {
      assert y == j + [c];
      assert y[..|y| - 1] == j;
    } else {
      var init := p[..|p| - 1];
      var x := p[|p| - 1];
      assert x in p;
      assert c !in init by { forall z | z in init ensures z != c { assert z in p; } }
      SplitOnAppendPiece(j, c, init);
      assert y[..|y| - 1] == j + [c] + init;
      assert init + [x] == p;
      var r := SplitOn(j + [c] + init, c);
      assert r[..|r| - 1] == SplitOn(j, c);
    }
  }

  /** `split(c)` undoes `join` with the same separator when no piece contains it. */
  lemma {:induction false} SplitOfJoin(parts: seq<string>, c: char)
    requires |parts| >= 1
    requires forall k :: 0 <= k < |parts| ==> c !in parts[k]
    ensures SplitOn(JoinWith(parts, [c]), c) == parts
    decreases |parts|
  {
    var last := parts[|parts| - 1];
    if |parts| == 1 {
      SplitOnNoSeparator(last, c);
    } else {
      var init := parts[..|parts| - 1];
      assert forall k :: 0 <= k < |init| ==> c !in init[k] by {
        forall k | 0 <= k < |init| ensures c !in init[k] { assert init[k] == parts[k]; }
      }
      SplitOfJoin(init, c);
      assert JoinWith(parts, [c]) == JoinWith(init, [c]) + [c] + last;
      SplitOnAppendPiece(JoinWith(init, [c]), c, last);
      assert init + [last] == parts;
    }
  }

  // ---------------------------------------------------------------- lower()

  /** Python's `str.lower()` restricted to ASCII letters. */
  function LowerChar(c: char): char {
    if 'A' <= c <= 'Z' then (c as int + 32) as char else c
  }

  function Lower(s: string): string
  {
    seq(|s|, i requires 0 <= i < |s| => LowerChar(s[i]))
  }

  /** A string without capitals is its own lower case. */
  lemma LowerOfLowercase(s: string)
    requires forall i :: 0 <= i < |s| ==> !('A' <= s[i] <= 'Z')
    ensures Lower(s) == s
  {
  }

  // ---------------------------------------------------------------- decimal

  predicate IsDigit(c: char) { '0' <= c <= '9' }

  predicate AllDigits(s: string) { forall i :: 0 <= i < |s| ==> IsDigit(s[i]) }

  function DigitChar(d: nat): (c: char)
    requires d < 10
    ensures IsDigit(c) && c as int - '0' as int == d
  {
    ('0' as int + d) as char
  }

  /** Python's `str(n)` for a non-negative integer: its decimal digits, no leading zeros. */
  function NatToString(n: nat): string
    decreases n
  {
    if n < 10 then [DigitChar(n)] else NatToString(n / 10) + [DigitChar(n % 10)]
  }

  /** `str(n)` is a non-empty run of digits without a leading zero. */
  lemma {:induction false} NatToStringDigits(n: nat)
    ensures NatToString(n) != [] && AllDigits(NatToString(n))
    ensures |NatToString(n)| > 1 ==> NatToString(n)[0] != '0'
    decreases n
  {
    if n >= 10 {
      NatToStringDigits(n / 10);
    }
  }

  /** Python's `str(i)` for any integer. */
  function IntToString(i: int): string {
    if i < 0 then "-" + NatToString(-i) else NatToString(i)
  }

  /** Digits hold no line break. */
  lemma DigitsOneLine(s: string)
    requires AllDigits(s)
    ensures '\n' !in s
  {
  }

  /** `str(i)` is one line. */
  lemma IntToStringOneLine(i: int)
    ensures '\n' !in IntToString(i)
  {
    NatToStringDigits(if i < 0 then -i else i);
    DigitsOneLine(NatToString(if i < 0 then -i else i));
  }

  /** The value of a string of decimal digits (leading zeros allowed). */
  function DigitsValue(s: string): nat
    requires AllDigits(s)
  {
    if s == [] then 0 else DigitsValue(s[..|s| - 1]) * 10 + (s[|s| - 1] as int - '0' as int)
  }

  lemma {:induction false} DigitsValueOfNatToString(n: nat)
    ensures AllDigits(NatToString(n)) && DigitsValue(NatToString(n)) == n
    decreases n
  {
    NatToStringDigits(n);
    if n >= 10 {
      DigitsValueOfNatToString(n / 10);
      var s := NatToString(n);
      assert s[..|s| - 1] == NatToString(n / 10);
    }
  }

  /** `s` left-padded with zeros to at least `width` characters, as `%0<width>d` does. */
  function ZeroPad(s: string, width: nat): string {
    var zeros := if |s| < width then width - |s| else 0;
    seq(zeros, _ => '0') + s
  }

  /** Padding only adds zeros in front, and only up to the width. */
  lemma ZeroPadShape(s: string, width: nat)
    ensures var r := ZeroPad(s, width);
            && |r| == (if |s| < width then width else |s|)
            && r[|r| - |s|..] == s
            && (forall i :: 0 <= i < |r| - |s| ==> r[i] == '0')
  {
  }

  /** Leading zeros do not change the value of a digit string. */
  lemma {:induction false} DigitsValueLeadingZeros(z: string, s: string)
    requires forall i :: 0 <= i < |z| ==> z[i] == '0'
    requires AllDigits(s)
    ensures AllDigits(z + s) && DigitsValue(z + s) == DigitsValue(s)
    decreases |s|
  {
    if s == [] {
      assert z + s == z;
      ZerosValue(z);
    } else {
      var s' := s[..|s| - 1];
      DigitsValueLeadingZeros(z, s');
      assert (z + s)[..|z + s| - 1] == z + s';
    }
  }

  lemma {:induction false} ZerosValue(z: string)
    requires forall i :: 0 <= i < |z| ==> z[i] == '0'
    ensures AllDigits(z) && DigitsValue(z) == 0
    decreases |z|
  {
    if z != [] {
      ZerosValue(z[..|z| - 1]);
    }
  }

  /** Zero-padding the decimal form of `n` keeps its value readable back. */
  lemma ZeroPadValue(n: nat, width: nat)
    ensures AllDigits(ZeroPad(NatToString(n), width))
    ensures DigitsValue(ZeroPad(NatToString(n), width)) == n
  {
    var s := NatToString(n);
    DigitsValueOfNatToString(n);
    var r := ZeroPad(s, width);
    ZeroPadShape(s, width);
    var z := r[..|r| - |s|];
    assert r == z + s;
    DigitsValueLeadingZeros(z, s);
  }

  // ---------------------------------------------------------------- int()

  /** Digits with single underscores between them, as Python's `int()` accepts. */
  predicate IsDigitGroups(s: string) {
    && s != [] && IsDigit(s[0]) && IsDigit(s[|s| - 1])
    && (forall i :: 0 <= i < |s| ==> IsDigit(s[i]) || s[i] == '_')
    && (forall i :: 0 <= i < |s| - 1 ==> s[i] == '_' ==> s[i + 1] != '_')
  }

  function RemoveUnderscores(s: string): (r: string)
    ensures (forall i :: 0 <= i < |s| ==> IsDigit(s[i]) || s[i] == '_') ==> AllDigits(r)
    ensures AllDigits(s) ==> r == s
  {
    if s == [] then []
    else (if s[0] == '_' then [] else [s[0]]) + RemoveUnderscores(s[1..])
  }

  /** The value of an unsigned decimal literal, or None when `s` is not one. */
  function ParseUnsigned(s: string): (r: Option<nat>)
    ensures r.Some? <==> IsDigitGroups(s)
  {
    if IsDigitGroups(s) then Some(DigitsValue(RemoveUnderscores(s))) else None
  }

  /**
    Python's `int(s)` in base 10: surrounding white space is ignored, one
    optional sign, then ASCII digits in groups separated by single
    underscores. `None` stands for the `ValueError` it raises otherwise:
    for white space alone, and for text that does not end with a digit.
   */
  function ParseInt(s: string): (r: Option<int>)
    ensures Strip(s) == [] ==> r.None?
    ensures r.Some? ==> IsDigit(Strip(s)[|Strip(s)| - 1])
    ensures r.Some? && r.value < 0 ==> Strip(s)[0] == '-'
  {
    var t := Strip(s);
    if t == [] then None
    else
      var signed := t[0] == '-' || t[0] == '+';
      var body := if signed then t[1..] else t;
      match ParseUnsigned(body)
      case None => None
      case Some(v) =>
        var n: int := if t[0] == '-' then -(v as int) else v;
        Some(n)
  }

  /** Decimal digits alone are an unsigned literal of their own value. */
  lemma ParseUnsignedOfNatToString(n: nat)
    ensures ParseUnsigned(NatToString(n)) == Some(n)
  {
    var d := NatToString(n);
    NatToStringDigits(n);
    DigitsValueOfNatToString(n);
    assert IsDigitGroups(d);
  }

  /** A literal with no white space at its ends parses as its sign and unsigned value. */
  lemma ParseIntOfTrimmed(t: string, v: nat)
    requires t != [] && !IsSpace(t[0]) && !IsSpace(t[|t| - 1])
    requires (t[0] == '-' && ParseUnsigned(t[1..]) == Some(v)) || (IsDigit(t[0]) && ParseUnsigned(t) == Some(v))
    ensures ParseInt(t) == Some(if t[0] == '-' then -(v as int) else v)
  {
    StripNoEdgeSpace(t);
  }

  /** A run of digits parses as its unsigned value, with or without a minus sign in front. */
  lemma ParseIntOfDigits(d: string, n: nat)
    requires d != [] && AllDigits(d) && ParseUnsigned(d) == Some(n)
    ensures ParseInt(d) == Some(n)
    ensures ParseInt("-" + d) == Some(-(n as int))
  {
    assert IsDigit(d[0]) && IsDigit(d[|d| - 1]);
    ParseIntOfTrimmed(d, n);
    assert ("-" + d)[1..] == d;
    ParseIntOfTrimmed("-" + d, n);
  }

  /** `int(str(i)) == i`. */
  lemma ParseIntOfIntToString(i: int)
    ensures ParseInt(IntToString(i)) == Some(i)
  {
    var n: nat := if i < 0 then -i else i;
    NatToStringDigits(n);
    ParseUnsignedOfNatToString(n);
    ParseIntOfDigits(NatToString(n), n);
  }
}
