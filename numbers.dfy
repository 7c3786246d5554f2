/** Decimal numbers in text: the scanning that `atoi` and the `%d` / `%ld`
    conversions of `sscanf` do, and the `%d` formatting of `snprintf`. */
module Numbers {
  import opened ByteStrings

  const ZERO: byte := 48
  const PLUS: byte := 43
  const MINUS: byte := 45

  predicate IsDigit(b: byte) { ZERO <= b <= ZERO + 9 }

  /** `isspace` in the C locale: space, tab, LF, VT, FF and CR. */
  predicate IsSpace(b: byte) { b == SPACE || 9 <= b <= 13 }

  predicate AllDigits(d: seq<byte>) { forall i :: 0 <= i < |d| ==> IsDigit(d[i]) }

  predicate AllSpace(s: seq<byte>) { forall i :: 0 <= i < |s| ==> IsSpace(s[i]) }

  /** The length of the longest prefix of s whose bytes all satisfy p. */
  function Span(s: seq<byte>, p: byte -> bool): (n: nat)
    ensures n <= |s|
    ensures forall i :: 0 <= i < n ==> p(s[i])
    ensures n < |s| ==> !p(s[n])
  {
    if s != [] && p(s[0]) then 1 + Span(s[1..], p) else 0
  }

  /** A run of p-bytes followed by the end or by a byte that is not p has the
      run's length as its span. */
  lemma SpanOf(s: seq<byte>, p: byte -> bool, k: nat)
    requires k <= |s|
    requires forall i :: 0 <= i < k ==> p(s[i])
    requires k < |s| ==> !p(s[k])
    ensures Span(s, p) == k
  {
  }

  /** The value of a run of decimal digits, most significant first. */
  function DigitsValue(d: seq<byte>): nat
    requires AllDigits(d)
  {
    if d == [] then 0 else 10 * DigitsValue(d[..|d| - 1]) + (d[|d| - 1] - ZERO)
  }

  /** `%d` of a non-negative number: its digits without leading zeros. */
  function Decimal(n: nat): (r: seq<byte>)
    ensures |r| > 0 && AllDigits(r)
    ensures |r| > 1 ==> r[0] != ZERO
  {
    if n < 10 then [ZERO + n] else Decimal(n / 10) + [ZERO + n % 10]
  }

  /** Reading back the digits `Decimal` prints gives the number printed. */
  lemma {:induction false} DecimalValue(n: nat)
    ensures DigitsValue(Decimal(n)) == n
  {
    if n >= 10 {
      var d := Decimal(n);
      assert d[..|d| - 1] == Decimal(n / 10);
      DecimalValue(n / 10);
    }
  }

  /** A digit run is never worth less than its first digit. */
  lemma {:induction false} LeadingDigitBound(d: seq<byte>)
    requires |d| > 0 && AllDigits(d)
    ensures DigitsValue(d) >= d[0] - ZERO
  {
    if |d| > 1 {
      LeadingDigitBound(d[..|d| - 1]);
    }
  }

  /** Printing the value of a digit run without leading zeros gives back the run. */
  lemma {:induction false} DecimalOfDigits(d: seq<byte>)
    requires |d| > 0 && AllDigits(d)
    requires |d| > 1 ==> d[0] != ZERO
    ensures Decimal(DigitsValue(d)) == d
  {
    if |d| > 1 {
      var front := d[..|d| - 1];
      LeadingDigitBound(front);
      DecimalOfDigits(front);
      assert front + [d[|d| - 1]] == d;
    }
  }

  /** A leading run of digits and its value; None when s does not start with a digit. */
  function ScanDigits(s: seq<byte>): Option<nat>
  {
    var n := Span(s, IsDigit);
    if n == 0 then None else Some(DigitsValue(s[..n]))
  }

  /** A printed number followed by anything that is not a digit scans back
      to that number. */
  lemma ScanDigitsOfDecimal(n: nat, rest: seq<byte>)
    requires rest == [] || !IsDigit(rest[0])
    ensures ScanDigits(Decimal(n) + rest) == Some(n)
  {
    var d := Decimal(n);
    SpanOf(d + rest, IsDigit, |d|);
    assert (d + rest)[..|d|] == d;
    DecimalValue(n);
  }

  /** The conversion `atoi`, `%d` and `%ld` share: skip white space, then
      read a signed number; None when there is no digit. */
  function ScanInt(s: seq<byte>): Option<int>
  {
    ScanSigned(s[Span(s, IsSpace)..])
  }

  /** An optional sign, then one or more digits. */
  function ScanSigned(u: seq<byte>): Option<int>
  {
    if u != [] && (u[0] == PLUS || u[0] == MINUS) then
      match ScanDigits(u[1..])
      case None => None
      case Some(v) => if u[0] == MINUS then Some(-(v as int)) else Some(v as int)
    else
      match ScanDigits(u)
      case None => None
      case Some(v) => Some(v as int)
  }

  /** Empty text holds no number. */
  lemma NothingInEmpty()
    ensures ScanInt([]) == None
  {
    assert ScanSigned([]) == None;
  }

  /** `ScanInt` skips all the leading white space and reads a signed number
      from the first byte that is not white space. */
  lemma ScanIntSkipsSpace(space: seq<byte>, tail: seq<byte>)
    requires AllSpace(space)
    requires tail == [] || !IsSpace(tail[0])
    ensures ScanInt(space + tail) == ScanSigned(tail)
  {
    var s := space + tail;
    SpanOf(s, IsSpace, |space|);
    assert s[|space|..] == tail;
  }

  /** An optional sign before digits gives their value, negated after a minus sign. */
  lemma ScanSignOf(sign: seq<byte>, digits: seq<byte>, v: nat)
    requires sign == [] || sign == [PLUS] || sign == [MINUS]
    requires digits != [] && IsDigit(digits[0]) && ScanDigits(digits) == Some(v)
    ensures ScanSigned(sign + digits) == if sign == [MINUS] then Some(-(v as int)) else Some(v as int)
  {
    var s := sign + digits;
    if sign == [] {
      assert s == digits;
    } else {
      assert s[1..] == digits;
    }
  }

  /** A run of digits that the rest does not continue scans to its value. */
  lemma ScanDigitsOfRun(digits: seq<byte>, rest: seq<byte>)
    requires digits != [] && AllDigits(digits)
    requires rest == [] || !IsDigit(rest[0])
    ensures ScanDigits(digits + rest) == Some(DigitsValue(digits))
  {
    SpanOf(digits + rest, IsDigit, |digits|);
    assert (digits + rest)[..|digits|] == digits;
  }

  /** White space, an optional minus sign and a printed number, followed by
      anything that is not a digit, scan back to that number. */
  lemma ScanDecimal(space: seq<byte>, negative: bool, n: nat, rest: seq<byte>)
    requires AllSpace(space)
    requires rest == [] || !IsDigit(rest[0])
    ensures ScanInt(space + (if negative then [MINUS] else []) + Decimal(n) + rest)
         == if negative then Some(-(n as int)) else Some(n as int)
  {
    var sign: seq<byte> := if negative then [MINUS] else [];
    var d := Decimal(n);
    var tail := sign + (d + rest);
    assert space + sign + d + rest == space + tail;
    assert tail[0] == if negative then MINUS else d[0];
    ScanIntSkipsSpace(space, tail);
    ScanDigitsOfDecimal(n, rest);
    ScanSignOf(sign, d + rest, n);
  }

  /** Text `ScanInt` reads whole: white space, an optional sign, then a run
      of digits that the rest does not continue. */
  predicate IntText(ws: seq<byte>, sign: seq<byte>, digits: seq<byte>, rest: seq<byte>)
  {
    && AllSpace(ws)
    && (sign == [] || sign == [PLUS] || sign == [MINUS])
    && digits != [] && AllDigits(digits)
    && (rest == [] || !IsDigit(rest[0]))
  }

  /** The value of digits, negated after a minus sign. */
  function SignedValue(sign: seq<byte>, digits: seq<byte>): int
    requires AllDigits(digits)
  {
    if sign == [MINUS] then -(DigitsValue(digits) as int) else DigitsValue(digits) as int
  }

  /** Text of that shape converts to the signed value of its digits. */
  lemma ScanIntOfParts(ws: seq<byte>, sign: seq<byte>, digits: seq<byte>, rest: seq<byte>)
    requires IntText(ws, sign, digits, rest)
    ensures ScanInt(ws + (sign + (digits + rest))) == Some(SignedValue(sign, digits))
  {
    var number := digits + rest;
    var tail := sign + number;
    assert tail[0] == if sign == [] then digits[0] else sign[0];
    ScanIntSkipsSpace(ws, tail);
    ScanDigitsOfRun(digits, rest);
    ScanSignOf(sign, number, DigitsValue(digits));
  }

  /** A signed number that `ScanSigned` converts, split into its sign, its
      digits and the rest. */
  lemma SignedParts(u: seq<byte>) returns (sign: seq<byte>, digits: seq<byte>, rest: seq<byte>)
    requires ScanSigned(u).Some?
    ensures u == sign + (digits + rest) && IntText([], sign, digits, rest)
  {
    var j := if u != [] && (u[0] == PLUS || u[0] == MINUS) then 1 else 0;
    var t := u[j..];
    var n := Span(t, IsDigit);
    sign, digits, rest := u[..j], t[..n], t[n..];
    assert t == digits + rest;
    assert u == sign + t;
  }

  /** Everything `ScanInt` converts has the shape it reads, and the result is
      the signed value of its digits. */
  lemma ScanIntShape(s: seq<byte>)
    requires ScanInt(s).Some?
    ensures exists ws, sign, digits, rest {:trigger IntText(ws, sign, digits, rest)} ::
      s == ws + (sign + (digits + rest)) && IntText(ws, sign, digits, rest)
      && ScanInt(s) == Some(SignedValue(sign, digits))
  {
    var i := Span(s, IsSpace);
    var ws := s[..i];
    assert s == ws + s[i..];
    var sign, digits, rest := SignedParts(s[i..]);
    assert IntText(ws, sign, digits, rest);
    ScanIntOfParts(ws, sign, digits, rest);
  }
}
