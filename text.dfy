/**
  The string primitives of JavaScript that the planner's parsers rely on:
  `trim()`, `toLowerCase()`, `split()`, `includes()`, `String(n)`,
  `padStart(2, "0")` and `Number(s)` restricted to decimal integers.
 */
module Text {
  import opened Wrappers

  /** JavaScript white space and line terminators: what `trim()` strips and `\s` matches. */
  predicate IsSpace(c: char) {
    || c == ' ' || c == '\t' || c == '\n' || c == '\r' || c == '\U{B}' || c == '\U{C}'
    || c == '\U{A0}' || c == '\U{1680}' || ('\U{2000}' <= c <= '\U{200A}')
    || c == '\U{2028}' || c == '\U{2029}' || c == '\U{202F}' || c == '\U{205F}'
    || c == '\U{3000}' || c == '\U{FEFF}'
  }

  function TrimStart(s: string): (r: string)
    ensures |r| <= |s| && r == s[|s| - |r|..]
    ensures r == [] || !IsSpace(r[0])
    ensures forall i :: 0 <= i < |s| - |r| ==> IsSpace(s[i])
  {
    if s != [] && IsSpace(s[0]) then TrimStart(s[1..]) else s
  }

  function TrimEnd(s: string): (r: string)
    ensures |r| <= |s| && r == s[..|r|]
    ensures r == [] || !IsSpace(r[|r| - 1])
    ensures forall i :: |r| <= i < |s| ==> IsSpace(s[i])
  {
    if s != [] && IsSpace(s[|s| - 1]) then TrimEnd(s[..|s| - 1]) else s
  }

  /**
    `s.trim()`: `s` is some white space, then `r`, then some white space, and
    `r` neither starts nor ends with white space.
   */
  function Trim(s: string): (r: string)
    ensures r == [] || (!IsSpace(r[0]) && !IsSpace(r[|r| - 1]))
    ensures exists i ::
      && 0 <= i <= |s| - |r| && s[i..][..|r|] == r
      && (forall k :: 0 <= k < i ==> IsSpace(s[k]))
      && (forall k :: i + |r| <= k < |s| ==> IsSpace(s[k]))
  {
    var t := TrimStart(s);
    var r := TrimEnd(t);
    var i := |s| - |t|;
    assert s[i..][..|r|] == r;
    r
  }

  /** A string with no white space at either end is its own `trim()`. */
  lemma TrimOfTrimmed(s: string)
    requires s == [] || (!IsSpace(s[0]) && !IsSpace(s[|s| - 1]))
    ensures Trim(s) == s
  {
  }

  /** `toLowerCase()` of one character: the ASCII and Latin-1 capitals map to their small letters. */
  function LowerChar(c: char): (r: char)
    ensures 'a' <= r <= 'z' ==> r == c || r as int == c as int + 32
  {
    if 'A' <= c <= 'Z' || ('\U{C0}' <= c <= '\U{DE}' && c != '\U{D7}') then (c as int + 32) as char else c
  }

  function ToLower(s: string): (r: string)
    ensures |r| == |s| && forall i :: 0 <= i < |s| ==> r[i] == LowerChar(s[i])
  {
    if s == [] then [] else [LowerChar(s[0])] + ToLower(s[1..])
  }

  /** `s.replace(/\s+/g, "")`: the characters of `s` that are not white space, in order. */
  function RemoveSpaces(s: string): (r: string)
    ensures |r| <= |s|
    ensures forall i :: 0 <= i < |r| ==> !IsSpace(r[i])
    ensures (forall i :: 0 <= i < |s| ==> !IsSpace(s[i])) ==> r == s
    ensures |s| == 1 ==> r == (if IsSpace(s[0]) then [] else s)
  {
    if s == [] then [] else (if IsSpace(s[0]) then [] else [s[0]]) + RemoveSpaces(s[1..])
  }

  /** Removing white space works piece by piece: nothing else is dropped, and the order is kept. */
  lemma {:induction false} RemoveSpacesAppend(a: string, b: string)
    ensures RemoveSpaces(a + b) == RemoveSpaces(a) + RemoveSpaces(b)
  {
    if a == [] {
      assert a + b == b;
    } else {
      var head := if !IsSpace(a[0]) then [a[0]] else [];
      assert RemoveSpaces(a + b) == head + RemoveSpaces(a[1..] + b) by {
        assert (a + b)[0] == a[0] && (a + b)[1..] == a[1..] + b;
      }
      RemoveSpacesAppend(a[1..], b);
    }
  }

  /** `s.includes(t)` */
  predicate Contains(s: string, t: string) {
    |t| <= |s| && (s[..|t|] == t || Contains(s[1..], t))
  }

  /** `s.split(sep)` for a one-character separator: never empty, and joining the pieces gives `s` back. */
  function Split(s: string, sep: char): (parts: seq<string>)
    ensures |parts| >= 1
    ensures forall i, k :: 0 <= i < |parts| && 0 <= k < |parts[i]| ==> parts[i][k] != sep
  {
    if s == [] then [""]
    else if s[0] == sep then [""] + Split(s[1..], sep)
    else
      var rest := Split(s[1..], sep);
      [[s[0]] + rest[0]] + rest[1..]
  }

  /** `parts.join(sep)` */
  function Join(parts: seq<string>, sep: char): string
    requires |parts| >= 1
  {
    if |parts| == 1 then parts[0] else parts[0] + [sep] + Join(parts[1..], sep)
  }

  /** Joining one more part adds the separator and that part at the end. */
  lemma {:induction false} JoinSnoc(parts: seq<string>, p: string, sep: char)
    requires |parts| >= 1
    ensures Join(parts + [p], sep) == Join(parts, sep) + [sep] + p
  {
    if |parts| > 1 {
      assert (parts + [p])[1..] == parts[1..] + [p];
      JoinSnoc(parts[1..], p, sep);
    }
  }

  lemma {:induction false} SplitJoin(s: string, sep: char)
    ensures Join(Split(s, sep), sep) == s
  {
    if s == [] {
    } else if s[0] == sep {
      SplitJoin(s[1..], sep);
    } else {
      var rest := Split(s[1..], sep);
      SplitJoin(s[1..], sep);
      if |rest| == 1 {
      } else {
        assert ([[s[0]] + rest[0]] + rest[1..])[1..] == rest[1..];
      }
    }
  }

  /** Splitting pieces that hold no separator, once joined, gives those pieces back. */
  lemma {:induction false} JoinSplit(parts: seq<string>, sep: char)
    requires |parts| >= 1
    requires forall i, k :: 0 <= i < |parts| && 0 <= k < |parts[i]| ==> parts[i][k] != sep
    ensures Split(Join(parts, sep), sep) == parts
  {
    if |parts| == 1 {
      SplitNoSep(parts[0], sep);
    } else {
      JoinSplit(parts[1..], sep);
      SplitPrefix(parts[0], sep, Join(parts[1..], sep));
    }
  }

  lemma {:induction false} SplitNoSep(s: string, sep: char)
    requires forall k :: 0 <= k < |s| ==> s[k] != sep
    ensures Split(s, sep) == [s]
  {
    if s != [] {
      SplitNoSep(s[1..], sep);
      assert [s[0]] + s[1..] == s;
    }
  }

  lemma {:induction false} SplitPrefix(a: string, sep: char, b: string)
    requires forall k :: 0 <= k < |a| ==> a[k] != sep
    ensures Split(a + [sep] + b, sep) == [a] + Split(b, sep)
  {
    if a == [] {
      assert ([sep] + b)[1..] == b;
    } else {
      assert (a + [sep] + b)[1..] == a[1..] + [sep] + b;
      SplitPrefix(a[1..], sep, b);
      assert [a[0]] + a[1..] == a;
    }
  }

  // ----- decimal numbers -----

  predicate IsDigit(c: char) {
    '0' <= c <= '9'
  }

  function DigitChar(d: int): (c: char)
    requires 0 <= d < 10
    ensures IsDigit(c) && c as int - '0' as int == d
  {
    ('0' as int + d) as char
  }

  predicate AllDigits(s: string) {
    forall i :: 0 <= i < |s| ==> IsDigit(s[i])
  }

  /** The value of a string of decimal digits, most significant first. */
  function DigitsValue(s: string): (n: nat)
    requires AllDigits(s)
  {
    if s == [] then 0
    else
      assert IsDigit(s[|s| - 1]);
      DigitsValue(s[..|s| - 1]) * 10 + (s[|s| - 1] as int - '0' as int)
  }

  /** `String(n)` for a natural number: its decimal digits, with no leading zero. */
  function NatToString(n: nat): (s: string)
    ensures |s| >= 1 && AllDigits(s)
    ensures n < 10 <==> |s| == 1
    ensures 10 <= n < 100 <==> |s| == 2
  {
    if n < 10 then [DigitChar(n)] else NatToString(n / 10) + [DigitChar(n % 10)]
  }

  /** `String(n)` for an integer: a minus sign before the digits of a negative number. */
  function IntToString(n: int): (s: string)
    ensures |s| >= 1
  {
    if n < 0 then "-" + NatToString(-n) else NatToString(n)
  }

  /**
    `Number(s)` for the strings the planner reads: white space around the
    text is ignored, the empty text is 0, an optional sign followed by decimal
    digits is that integer, and everything else is `NaN` (here `None`).
   */
  function JsNumber(s: string): (n: Option<int>)
    ensures Trim(s) == [] ==> n == Some(0)
    ensures n.Some? ==> forall i :: 1 <= i < |Trim(s)| ==> IsDigit(Trim(s)[i])
    ensures n.Some? && Trim(s) != [] ==> IsDigit(Trim(s)[|Trim(s)| - 1])
  {
    NumberShape(Trim(s));
    NumberOfTrimmed(Trim(s))
  }

  /** What `Number()` accepts is empty, or a sign or digit followed by digits, ending in a digit. */
  lemma NumberShape(t: string)
    ensures t == [] ==> NumberOfTrimmed(t) == Some(0)
    ensures NumberOfTrimmed(t).Some? ==> forall i :: 1 <= i < |t| ==> IsDigit(t[i])
    ensures NumberOfTrimmed(t).Some? && t != [] ==> IsDigit(t[|t| - 1])
  {
    if NumberOfTrimmed(t).Some? && t != [] {
      if (t[0] == '-' || t[0] == '+') && |t| > 1 && AllDigits(t[1..]) {
        assert forall i :: 1 <= i < |t| ==> t[i] == t[1..][i - 1];
      } else {
        assert AllDigits(t);
      }
    }
  }

  function NumberOfTrimmed(t: string): Option<int> {
    if t == [] then Some(0)
    else if (t[0] == '-' || t[0] == '+') && |t| > 1 && AllDigits(t[1..]) then
      var v: int := DigitsValue(t[1..]);
      Some(if t[0] == '-' then -v else v)
    else if AllDigits(t) then Some(DigitsValue(t))
    else None
  }

  lemma {:induction false} DigitsOfNat(n: nat)
    ensures DigitsValue(NatToString(n)) == n
  {
    var s := NatToString(n);
    if n >= 10 {
      DigitsOfNat(n / 10);
      assert s[..|s| - 1] == NatToString(n / 10);
    }
  }

  /** Text with no white space at either end reaches the number parser unchanged. */
  lemma NumberOfUntrimmed(s: string)
    requires s == [] || (!IsSpace(s[0]) && !IsSpace(s[|s| - 1]))
    ensures JsNumber(s) == NumberOfTrimmed(s)
  {
    TrimOfTrimmed(s);
  }

  lemma NumberOfTrimmedDigits(digits: string)
    requires |digits| >= 1 && AllDigits(digits)
    ensures NumberOfTrimmed(digits) == Some(DigitsValue(digits))
  {
    assert IsDigit(digits[0]);
  }

  lemma NumberOfTrimmedNegated(digits: string)
    requires |digits| >= 1 && AllDigits(digits)
    ensures NumberOfTrimmed("-" + digits) == Some(-(DigitsValue(digits) as int))
  {
    assert ("-" + digits)[1..] == digits;
  }

  /** `Number()` reads an unsigned string of digits as its value. */
  lemma NumberOfDigits(digits: string)
    requires |digits| >= 1 && AllDigits(digits)
    ensures JsNumber(digits) == Some(DigitsValue(digits))
  {
    assert IsDigit(digits[0]) && IsDigit(digits[|digits| - 1]);
    NumberOfUntrimmed(digits);
    NumberOfTrimmedDigits(digits);
  }

  /** `Number()` reads a minus sign followed by digits as the negated value. */
  lemma NumberOfNegated(digits: string)
    requires |digits| >= 1 && AllDigits(digits)
    ensures JsNumber("-" + digits) == Some(-(DigitsValue(digits) as int))
  {
    assert IsDigit(digits[|digits| - 1]);
    NumberOfUntrimmed("-" + digits);
    NumberOfTrimmedNegated(digits);
  }

  /** Reading back what `String(n)` prints gives `n`. */
  lemma NumberOfString(n: int)
    ensures JsNumber(IntToString(n)) == Some(n)
  {
    if n < 0 {
      NumberOfNegativeString(-n);
    } else {
      DigitsOfNat(n);
      NumberOfDigits(NatToString(n));
    }
  }

  lemma NumberOfNegativeString(m: nat)
    requires m > 0
    ensures JsNumber(IntToString(-(m as int))) == Some(-(m as int))
  {
    var digits := NatToString(m);
    DigitsOfNat(m);
    NumberOfNegated(digits);
  }

  /** `String(n).padStart(2, "0")` */
  function Pad2(n: int): (s: string)
    ensures |s| >= 2
    ensures 0 <= n < 100 ==> s == [DigitChar(n / 10), DigitChar(n % 10)]
  {
    var t := IntToString(n);
    assert 10 <= n < 100 ==> NatToString(n / 10) == [DigitChar(n / 10)];
    if |t| >= 2 then t else "0" + t
  }

  /** The two digits of `Pad2(n)` have the value `n`. */
  lemma Pad2Digits(n: int)
    requires 0 <= n < 100
    ensures AllDigits(Pad2(n)) && DigitsValue(Pad2(n)) == n
  {
    var s := Pad2(n);
    assert AllDigits(s);
    assert s[..1][..0] == [];
    assert DigitsValue(s[..1]) == n / 10;
  }

  /** Padding with a leading zero does not change the number `Number()` reads back. */
  lemma NumberOfPad2(n: int)
    ensures JsNumber(Pad2(n)) == Some(n)
  {
    if 0 <= n < 100 {
      Pad2Digits(n);
      NumberOfDigits(Pad2(n));
    } else {
      NumberOfString(n);
    }
  }
}
