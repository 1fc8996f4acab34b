/**
  `u8::from_str_radix(text, 16)` from Rust's standard library, the only
  number parser the MAC address code uses, together with a reference
  description of the texts it accepts and a lower-case formatter.
 */
module Hex {
  import opened Types
  import opened Text

  /** The kinds of `ParseIntError` that parsing an unsigned byte can give. */
  datatype IntErrorKind = Empty | InvalidDigit | PosOverflow

  /** The text `ParseIntError::to_string` produces for each kind. */
  function Message(kind: IntErrorKind): (m: string)
    ensures m != ""
  {
    match kind
    case Empty => "cannot parse integer from empty string"
    case InvalidDigit => "invalid digit found in string"
    case PosOverflow => "number too large to fit in target type"
  }

  predicate IsHexDigit(c: char)
  {
    '0' <= c <= '9' || 'a' <= c <= 'f' || 'A' <= c <= 'F'
  }

  /** `char::to_digit(16)`: both letter cases are digits. */
  function ToDigit(c: char): (d: Option<nat>)
    ensures d.Some? <==> IsHexDigit(c)
    ensures d.Some? ==> d.value < 16
  {
    if '0' <= c <= '9' then Some(c as nat - '0' as nat)
    else if 'a' <= c <= 'f' then Some(c as nat - 'a' as nat + 10)
    else if 'A' <= c <= 'F' then Some(c as nat - 'A' as nat + 10)
    else None
  }

  predicate AllHexDigits(ds: string)
  {
    forall i :: 0 <= i < |ds| ==> IsHexDigit(ds[i])
  }

  /** The value of a digit string read most significant digit first; it is zero exactly when every digit is `0`. */
  function HexValue(ds: string): (v: nat)
    requires AllHexDigits(ds)
    ensures v == 0 <==> forall i :: 0 <= i < |ds| ==> ds[i] == '0'
  {
    if |ds| == 0 then 0 else HexValue(ds[..|ds| - 1]) * 16 + ToDigit(ds[|ds| - 1]).value
  }

  /** The digits after an optional leading `+`. */
  function Digits(s: string): string
  {
    if |s| > 0 && s[0] == '+' then s[1..] else s
  }

  /**
    The texts the parser accepts, described without running it: an optional
    `+`, then one or more hex digits of either case whose value fits a byte
    (so any number of leading zeros is fine).
   */
  predicate IsByteText(s: string)
    ensures IsByteText(s) ==> s != "" && s != "+" && s[0] != '-'
  {
    var ds := Digits(s);
    |ds| > 0 && AllHexDigits(ds) && HexValue(ds) <= 255
  }

  /** `u8::from_str_radix(s, 16)`. */
  function FromStrRadix16(s: string): (r: Result<u8, IntErrorKind>)
    ensures r == Err(Empty) <==> s == ""
  {
    if |s| == 0 then Err(Empty)
    else if s == "+" || s == "-" then Err(InvalidDigit)
    else Accumulate(Digits(s), 0)
  }

  /**
    The checked digit loop: each character must be a digit (checked first),
    then `acc * 16 + digit` must still fit a byte.
   */
  function Accumulate(ds: string, acc: u8): (r: Result<u8, IntErrorKind>)
    ensures r != Err(Empty)
    decreases |ds|
  {
    if |ds| == 0 then Ok(acc)
    else
      match ToDigit(ds[0])
      case None => Err(InvalidDigit)
      case Some(d) =>
        if acc as int * 16 + d > 255 then Err(PosOverflow)
        else Accumulate(ds[1..], (acc as int * 16 + d) as u8)
  }

  lemma {:induction false} HexValueMonotone(a: string, b: string)
    requires AllHexDigits(a + b)
    ensures AllHexDigits(a) && HexValue(a) <= HexValue(a + b)
    decreases |b|
  {
    assert forall i :: 0 <= i < |a| ==> (a + b)[i] == a[i];
    if |b| > 0 {
      var ab := a + b;
      var b' := b[..|b| - 1];
      assert ab[..|ab| - 1] == a + b';
      assert forall i :: 0 <= i < |a + b'| ==> (a + b')[i] == ab[i];
      HexValueMonotone(a, b');
    } else {
      assert a + b == a;
    }
  }

  /** Appending a digit multiplies the value by 16 and adds the digit. */
  lemma AppendDigit(p: string, c: char)
    requires AllHexDigits(p) && IsHexDigit(c)
    ensures AllHexDigits(p + [c]) && HexValue(p + [c]) == HexValue(p) * 16 + ToDigit(c).value
  {
    var p' := p + [c];
    assert p'[..|p'| - 1] == p;
  }

  /** After reading the digits `p`, the loop over `q` agrees with the reference value of `p + q`. */
  lemma {:induction false} AccumulateMeansHexValue(p: string, q: string)
    requires AllHexDigits(p) && HexValue(p) <= 255
    ensures var r := Accumulate(q, HexValue(p) as u8);
      (r.Ok? <==> AllHexDigits(p + q) && HexValue(p + q) <= 255) &&
      (r.Ok? ==> AllHexDigits(p + q) && r.value as int == HexValue(p + q))
    decreases |q|
  {
    if |q| == 0 {
      assert p + q == p;
    } else {
      var c := q[0];
      assert (p + q)[|p|] == c;
      if IsHexDigit(c) {
        var d := ToDigit(c).value;
        var p' := p + [c];
        assert p'[..|p'| - 1] == p;
        assert AllHexDigits(p');
        assert HexValue(p') == HexValue(p) * 16 + d;
        assert p' + q[1..] == p + q;
        if HexValue(p) * 16 + d > 255 {
          if AllHexDigits(p + q) {
            HexValueMonotone(p', q[1..]);
          }
        } else {
          AccumulateMeansHexValue(p', q[1..]);
        }
      }
    }
  }

  /** The position of the first character that is not a hex digit, or `|ds|` when there is none. */
  function FirstNonDigit(ds: string): (k: nat)
    ensures k <= |ds| && AllHexDigits(ds[..k])
    ensures k < |ds| ==> !IsHexDigit(ds[k])
  {
    if |ds| == 0 || !IsHexDigit(ds[0]) then 0
    else
      var k := 1 + FirstNonDigit(ds[1..]);
      assert ds[..k] == [ds[0]] + ds[1..][..k - 1];
      k
  }

  /**
    How the digit loop fails after the digits `p`: it overflows exactly when
    the digits of `q` before its first non-digit take the value above 255, and
    it reports an invalid digit exactly when they do not and a non-digit
    follows them.
   */
  lemma {:induction false} AccumulateFailure(p: string, q: string)
    requires AllHexDigits(p) && HexValue(p) <= 255
    ensures var k := FirstNonDigit(q);
      AllHexDigits(p + q[..k]) &&
      (Accumulate(q, HexValue(p) as u8) == Err(PosOverflow) <==> HexValue(p + q[..k]) > 255) &&
      (Accumulate(q, HexValue(p) as u8) == Err(InvalidDigit) <==> k < |q| && HexValue(p + q[..k]) <= 255)
    decreases |q|
  {
    var k := FirstNonDigit(q);
    if |q| == 0 || !IsHexDigit(q[0]) {
      assert p + q[..k] == p;
    } else {
      var p' := p + [q[0]];
      AppendDigit(p, q[0]);
      assert p' + q[1..][..k - 1] == p + q[..k];
      if HexValue(p') > 255 {
        HexValueMonotone(p', q[1..][..k - 1]);
      } else {
        AccumulateFailure(p', q[1..]);
      }
    }
  }

  /**
    `u8::from_str_radix(s, 16)` overflows exactly when the digits before the
    first non-digit are worth more than 255, and reports an invalid digit
    exactly on a lone `+` or when a non-digit follows digits that fit — so a
    bad character is reported only if no overflow happened before it.
   */
  lemma FromStrRadix16Failure(s: string)
    ensures var ds := Digits(s); var k := FirstNonDigit(ds);
      (FromStrRadix16(s) == Err(PosOverflow) <==> HexValue(ds[..k]) > 255) &&
      (FromStrRadix16(s) == Err(InvalidDigit) <==> s == "+" || (k < |ds| && HexValue(ds[..k]) <= 255))
  {
    if |s| > 0 && s != "+" && s != "-" {
      assert AllHexDigits("") && HexValue("") == 0;
      AccumulateFailure("", Digits(s));
      var ds := Digits(s);
      assert "" + ds[..FirstNonDigit(ds)] == ds[..FirstNonDigit(ds)];
    } else if s == "-" {
      assert !IsHexDigit(Digits(s)[0]);
    }
  }

  /**
    `u8::from_str_radix(s, 16)` succeeds exactly on the texts `IsByteText`
    describes, and its value is the digits' value.
   */
  lemma FromStrRadix16Accepts(s: string)
    ensures FromStrRadix16(s).Ok? <==> IsByteText(s)
    ensures FromStrRadix16(s).Ok? ==> IsByteText(s) && FromStrRadix16(s).value as int == HexValue(Digits(s))
  {
    if |s| > 0 && s != "+" && s != "-" {
      assert AllHexDigits("") && HexValue("") == 0;
      AccumulateMeansHexValue("", Digits(s));
      assert "" + Digits(s) == Digits(s);
    } else if s == "-" {
      assert !IsHexDigit(Digits(s)[0]);
    }
  }

  /** Any two hex digits, of either case, parse to their value. */
  lemma TwoDigitsParse(s: string)
    requires |s| == 2 && IsHexDigit(s[0]) && IsHexDigit(s[1])
    ensures FromStrRadix16(s) == Ok((16 * ToDigit(s[0]).value + ToDigit(s[1]).value) as u8)
  {
    FromStrRadix16Accepts(s);
    assert Digits(s) == s;
    var first := s[..1];
    assert first[..0] == "" && first[0] == s[0];
    assert HexValue(first) == ToDigit(s[0]).value;
    assert s[..|s| - 1] == first;
    assert HexValue(s) == 16 * ToDigit(s[0]).value + ToDigit(s[1]).value;
  }

  predicate IsLowerHexDigit(c: char)
  {
    '0' <= c <= '9' || 'a' <= c <= 'f'
  }

  /** A lower-case hex digit. */
  function HexChar(d: nat): (c: char)
    requires d < 16
    ensures IsHexDigit(c) && ToDigit(c) == Some(d)
    ensures IsLowerHexDigit(c)
  {
    if d < 10 then ('0' as int + d) as char else ('a' as int + d - 10) as char
  }

  /** A byte as two lower-case hex digits. */
  function FormatOctet(b: u8): (t: string)
    ensures |t| == 2 && IsLowerHexDigit(t[0]) && IsLowerHexDigit(t[1])
  {
    [HexChar(b as nat / 16), HexChar(b as nat % 16)]
  }

  /** Formatting a byte and parsing it back gives the byte. */
  lemma FormatOctetRoundTrip(b: u8)
    ensures FromStrRadix16(FormatOctet(b)) == Ok(b)
  {
    TwoDigitsParse(FormatOctet(b));
  }

  /** Examples of the parser's edge cases. */
  lemma FromStrRadix16Examples()
    ensures FromStrRadix16("") == Err(Empty)
    ensures FromStrRadix16("+") == Err(InvalidDigit)
    ensures FromStrRadix16("+fF") == Ok(255)
    ensures FromStrRadix16("00ff") == Ok(255)
    ensures FromStrRadix16("100") == Err(PosOverflow)
    ensures FromStrRadix16("eg") == Err(InvalidDigit)
    ensures FromStrRadix16("-1") == Err(InvalidDigit)
  {
  }

  /** The three texts are pairwise different, so the error text identifies the error kind. */
  lemma MessagesDistinct(a: IntErrorKind, b: IntErrorKind)
    ensures Message(a) == Message(b) ==> a == b
  {
    if a != b {
      assert |Message(a)| != |Message(b)| || Message(a)[0] != Message(b)[0];
    }
  }

  /** A digit's value is the one whose lower-case digit is its lower-case form, so both cases read alike. */
  lemma DigitValueOfLower(c: char)
    requires IsHexDigit(c)
    ensures ToDigit(c).Some? && HexChar(ToDigit(c).value) == LowerChar(c)
    ensures ToDigit(LowerChar(c)) == ToDigit(c)
  {
  }

  /** Lower-casing a character never changes whether it is a digit or what it is worth. */
  lemma ToDigitIgnoresCase(c: char)
    ensures ToDigit(LowerChar(c)) == ToDigit(c)
  {
    if !IsHexDigit(c) {
      assert !IsHexDigit(LowerChar(c));
    }
  }

  /** The digit loop reads lower-cased text exactly as the original. */
  lemma {:induction false} AccumulateIgnoresCase(ds: string, acc: u8)
    ensures Accumulate(Lower(ds), acc) == Accumulate(ds, acc)
    decreases |ds|
  {
    if |ds| > 0 {
      ToDigitIgnoresCase(ds[0]);
      assert Lower(ds)[1..] == Lower(ds[1..]);
      var d := ToDigit(ds[0]);
      if d.Some? && acc as int * 16 + d.value <= 255 {
        AccumulateIgnoresCase(ds[1..], (acc as int * 16 + d.value) as u8);
      }
    }
  }

  /** `from_str_radix` is case-insensitive: lower-casing its text never changes the result. */
  lemma FromStrRadix16IgnoresCase(s: string)
    ensures FromStrRadix16(Lower(s)) == FromStrRadix16(s)
  {
    var l := Lower(s);
    if |s| > 0 {
      assert l[0] == '+' <==> s[0] == '+';
      assert l == "+" <==> s == "+";
      assert l == "-" <==> s == "-";
      assert Digits(l) == Lower(Digits(s));
      AccumulateIgnoresCase(Digits(s), 0);
    }
  }
}
