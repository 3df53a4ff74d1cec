/** The JavaScript built-ins the exporter and the formatters rely on:
    the `\s` whitespace class (also used by `String.prototype.trim`),
    `trim`, `split(/:/)`, `parseInt` without a radix, and the decimal
    rendering of an integral Number. Strings are sequences of characters. */
module JsText {
  import opened Wrappers

  /** JavaScript white space and line terminators. */
  predicate IsSpace(c: char)
  {
    c == '\t' || c == '\n' || c == '\U{000B}' || c == '\U{000C}' || c == '\r' || c == ' '
    || c == '\U{00A0}' || c == '\U{1680}' || ('\U{2000}' <= c <= '\U{200A}')
    || c == '\U{2028}' || c == '\U{2029}' || c == '\U{202F}' || c == '\U{205F}'
    || c == '\U{3000}' || c == '\U{FEFF}'
  }

  ghost predicate NoSpace(s: string)
  {
    forall i :: 0 <= i < |s| ==> !IsSpace(s[i])
  }

  /** Drops the leading white space. */
  function TrimStart(s: string): (r: string)
    ensures |r| <= |s| && r == s[|s| - |r|..]
    ensures forall i :: 0 <= i < |s| - |r| ==> IsSpace(s[i])
    ensures r == [] || !IsSpace(r[0])
  {
    if s != [] && IsSpace(s[0]) then TrimStart(s[1..]) else s
  }

  /** Drops the trailing white space. */
  function TrimEnd(s: string): (r: string)
    ensures |r| <= |s| && r == s[..|r|]
    ensures forall i :: |r| <= i < |s| ==> IsSpace(s[i])
    ensures r == [] || !IsSpace(r[|r| - 1])
  {
    if s != [] && IsSpace(s[|s| - 1]) then TrimEnd(s[..|s| - 1]) else s
  }

  /** `String.prototype.trim`. */
  function Trim(s: string): string
  {
    TrimEnd(TrimStart(s))
  }

  /** `s.replace(/\s.*\/g, '')`: every match starts at a white-space
      character and runs to the next line terminator, which is itself white
      space and starts the next match, so everything from the first white
      space on is removed. */
  function BeforeSpace(s: string): (r: string)
    ensures r <= s && NoSpace(r)
    ensures |r| < |s| ==> IsSpace(s[|r|])
  {
    if s == [] || IsSpace(s[0]) then [] else [s[0]] + BeforeSpace(s[1..])
  }

  // ---------------------------------------------------------------------
  // split(/:/) and its inverse

  /** Joins fields with ':' between them (`Array.prototype.join(':')`). */
  function Join(fields: seq<string>): string
    requires |fields| >= 1
  {
    if |fields| == 1 then fields[0] else fields[0] + ":" + Join(fields[1..])
  }

  /** `s.split(/:/)`: the fields between the colons, at least one. */
  function Split(s: string): (r: seq<string>)
    ensures |r| >= 1
    ensures forall i :: 0 <= i < |r| ==> ':' !in r[i]
  {
    if s == [] then [""]
    else
      var rest := Split(s[1..]);
      if s[0] == ':' then [""] + rest else [[s[0]] + rest[0]] + rest[1..]
  }

  /** Joining the fields of a split gives back the string. */
  lemma {:induction false} JoinSplit(s: string)
    ensures Join(Split(s)) == s
  {
    if s != [] {
      var rest := Split(s[1..]);
      JoinSplit(s[1..]);
      if s[0] == ':' {
        assert ([""] + rest)[1..] == rest;
      } else {
        var r := [[s[0]] + rest[0]] + rest[1..];
        assert r[1..] == rest[1..];
        assert s == [s[0]] + s[1..];
      }
    }
  }

  /** Splitting colon-free fields joined by ':' gives back the fields. */
  lemma {:induction false} SplitJoin(fields: seq<string>)
    requires |fields| >= 1 && forall i :: 0 <= i < |fields| ==> ':' !in fields[i]
    ensures Split(Join(fields)) == fields
  {
    if |fields| == 1 {
      SplitField(fields[0], []);
      assert fields[0] + [] == fields[0];
    } else {
      var tail := Join(fields[1..]);
      SplitJoin(fields[1..]);
      SplitField(fields[0], ":" + tail);
      assert fields[0] + ":" + tail == fields[0] + (":" + tail);
      assert Split(":" + tail) == [""] + fields[1..] by {
        assert (":" + tail)[1..] == tail;
      }
      assert fields[0] + "" == fields[0];
      assert fields == [fields[0]] + fields[1..];
    }
  }

  /** The fields of `field + tail` when `field` holds no colon. */
  function SplitWith(field: string, tail: string): seq<string>
  {
    var rest := Split(tail);
    [field + rest[0]] + rest[1..]
  }

  lemma {:induction false} SplitField(field: string, tail: string)
    requires ':' !in field
    ensures Split(field + tail) == SplitWith(field, tail)
  {
    if field != [] {
      assert field[0] in field && ':' !in field[1..];
      SplitField(field[1..], tail);
      var rest := Split(tail);
      assert (field + tail)[1..] == field[1..] + tail;
      assert Split(field + tail) == [[field[0]] + (field[1..] + rest[0])] + rest[1..];
      assert [field[0]] + (field[1..] + rest[0]) == field + rest[0];
    } else {
      assert field + tail == tail;
      var rest := Split(tail);
      assert field + rest[0] == rest[0];
      assert [rest[0]] + rest[1..] == rest;
    }
  }

  // ---------------------------------------------------------------------
  // parseInt and number rendering

  /** The value of `c` as a digit of radix 16 or below; 16 when `c` is no
      such digit. */
  function DigitValue(c: char): (r: nat)
    ensures r <= 16
  {
    if '0' <= c <= '9' then c as int - '0' as int
    else if 'a' <= c <= 'f' then c as int - 'a' as int + 10
    else if 'A' <= c <= 'F' then c as int - 'A' as int + 10
    else 16
  }

  predicate IsDigit(c: char, radix: nat)
  {
    DigitValue(c) < radix
  }

  /** The longest prefix of `s` made of digits of `radix`. */
  function DigitPrefix(s: string, radix: nat): (r: string)
    ensures r <= s
    ensures forall i :: 0 <= i < |r| ==> IsDigit(r[i], radix)
    ensures |r| < |s| ==> !IsDigit(s[|r|], radix)
  {
    if s != [] && IsDigit(s[0], radix) then [s[0]] + DigitPrefix(s[1..], radix) else []
  }

  /** The number the digits denote, most significant first. */
  function DigitsValue(digits: string, radix: nat): nat
  {
    if digits == [] then 0
    else DigitsValue(digits[..|digits| - 1], radix) * radix + DigitValue(digits[|digits| - 1])
  }

  /** The unsigned part of parseInt: a "0x"/"0X" prefix selects radix 16,
      otherwise radix 10; no digits at all is NaN. */
  function ParseMagnitude(s: string): Option<nat>
  {
    var hex := |s| >= 2 && s[0] == '0' && (s[1] == 'x' || s[1] == 'X');
    var radix := if hex then 16 else 10;
    var digits := DigitPrefix(if hex then s[2..] else s, radix);
    if digits == [] then None else Some(DigitsValue(digits, radix))
  }

  /** Drops one leading sign character. */
  function Unsigned(t: string): string
  {
    if t != [] && (t[0] == '-' || t[0] == '+') then t[1..] else t
  }

  /** `parseInt(s)` with no radix: leading white space, an optional sign,
      then the longest run of digits; None stands for NaN. */
  function ParseInt(s: string): (r: Option<int>)
    ensures TrimStart(s) == [] ==> r.None?
    ensures r.Some? && r.value < 0 ==> TrimStart(s) != [] && TrimStart(s)[0] == '-'
  {
    var t := TrimStart(s);
    match ParseMagnitude(Unsigned(t))
    case None => None
    case Some(n) => var v: int := n; Some(if t != [] && t[0] == '-' then -v else v)
  }

  function DigitChar(d: nat): (c: char)
    requires d < 10
    ensures DigitValue(c) == d
  {
    ('0' as int + d) as char
  }

  /** The decimal rendering of a natural number, without leading zeros. */
  function NatToString(n: nat): (r: string)
    ensures |r| >= 1
    ensures forall i :: 0 <= i < |r| ==> DigitValue(r[i]) < 10 && '0' <= r[i] <= '9'
  {
    if n < 10 then [DigitChar(n)] else NatToString(n / 10) + [DigitChar(n % 10)]
  }

  /** The rendering of an integral Number as `String(i)` gives it. */
  function IntToString(i: int): string
  {
    if i < 0 then "-" + NatToString(-i) else NatToString(i)
  }

  lemma {:induction false} NatToStringValue(n: nat)
    ensures DigitsValue(NatToString(n), 10) == n
  {
    var r := NatToString(n);
    if n >= 10 {
      NatToStringValue(n / 10);
      assert r[..|r| - 1] == NatToString(n / 10);
    }
  }

  lemma {:induction false} DigitPrefixOfDigits(s: string, radix: nat)
    requires forall i :: 0 <= i < |s| ==> IsDigit(s[i], radix)
    ensures DigitPrefix(s, radix) == s
  {
    if s != [] {
      assert IsDigit(s[0], radix);
      DigitPrefixOfDigits(s[1..], radix);
    }
  }

  /** A rendered natural number starts with a digit, not with white space,
      a sign or a hexadecimal prefix. */
  lemma PlainDigits(n: nat)
    ensures var s := NatToString(n);
      && !IsSpace(s[0]) && s[0] != '-' && s[0] != '+'
      && (|s| >= 2 ==> s[1] != 'x' && s[1] != 'X')
  {
    var s := NatToString(n);
    assert '0' <= s[0] <= '9';
    if |s| >= 2 {
      assert '0' <= s[1] <= '9';
    }
  }

  lemma MagnitudeOfNatToString(n: nat)
    ensures ParseMagnitude(NatToString(n)) == Some(n)
  {
    var s := NatToString(n);
    PlainDigits(n);
    DigitPrefixOfDigits(s, 10);
    NatToStringValue(n);
  }

  /** parseInt reads back every rendered natural number. */
  lemma ParseNatToString(n: nat)
    ensures ParseInt(NatToString(n)) == Some(n)
  {
    var s := NatToString(n);
    PlainDigits(n);
    assert TrimStart(s) == s;
    assert Unsigned(s) == s;
    MagnitudeOfNatToString(n);
  }

  lemma ParseNegative(s: string, n: nat)
    requires ParseMagnitude(s) == Some(n)
    ensures ParseInt("-" + s) == Some(-(n as int))
  {
    var t := "-" + s;
    assert t[0] == '-' && !IsSpace(t[0]);
    assert TrimStart(t) == t;
    assert Unsigned(t) == s by {
      assert t[1..] == s;
    }
  }

  lemma {:induction false} DigitPrefixStops(s: string, tail: string, radix: nat)
    requires forall i :: 0 <= i < |s| ==> IsDigit(s[i], radix)
    requires tail == [] || !IsDigit(tail[0], radix)
    ensures DigitPrefix(s + tail, radix) == s
  {
    if s != [] {
      DigitPrefixStops(s[1..], tail, radix);
      assert (s + tail)[1..] == s[1..] + tail;
    } else {
      assert s + tail == tail;
    }
  }

  /** The characters that end a decimal number without turning a leading
      "0" into a hexadecimal prefix. */
  predicate EndsNumber(tail: string)
  {
    tail == [] || (!IsDigit(tail[0], 10) && tail[0] != 'x' && tail[0] != 'X')
  }

  lemma MagnitudeStops(n: nat, tail: string)
    requires EndsNumber(tail)
    ensures ParseMagnitude(NatToString(n) + tail) == Some(n)
  {
    var s := NatToString(n);
    var u := s + tail;
    PlainDigits(n);
    assert !(|u| >= 2 && u[0] == '0' && (u[1] == 'x' || u[1] == 'X')) by {
      if |s| >= 2 {
        assert u[1] == s[1];
      } else if |u| >= 2 {
        assert u[1] == tail[0];
      }
    }
    forall i | 0 <= i < |s| ensures IsDigit(s[i], 10) {
      assert DigitValue(s[i]) < 10;
    }
    DigitPrefixStops(s, tail, 10);
    assert DigitPrefix(u, 10) == s;
    NatToStringValue(n);
  }

  /** parseInt stops at the first character that cannot continue the
      number: a rendered integer followed by such text reads as that
      integer. */
  lemma ParseIntStops(i: int, tail: string)
    requires EndsNumber(tail)
    ensures ParseInt(IntToString(i) + tail) == Some(i)
  {
    if i < 0 {
      ParseBelowZeroStops(i, tail);
    } else {
      ParseNatStops(i, tail);
      assert IntToString(i) == NatToString(i);
    }
  }

  lemma ParseBelowZeroStops(i: int, tail: string)
    requires i < 0 && EndsNumber(tail)
    ensures ParseInt(IntToString(i) + tail) == Some(i)
  {
    var n: nat := -i;
    var t := IntToString(i) + tail;
    NegativeText(i, tail);
    assert t[0] == '-';
    assert t[1..] == NatToString(n) + tail;
    assert TrimStart(t) == t by {
      assert !IsSpace(t[0]);
    }
    assert Unsigned(t) == NatToString(n) + tail;
    MagnitudeStops(n, tail);
  }

  lemma NegativeText(i: int, tail: string)
    requires i < 0
    ensures IntToString(i) + tail == "-" + (NatToString(-i) + tail)
  {
    assert IntToString(i) == "-" + NatToString(-i);
  }

  lemma ParseNatStops(n: nat, tail: string)
    requires EndsNumber(tail)
    ensures ParseInt(NatToString(n) + tail) == Some(n)
  {
    var t := NatToString(n) + tail;
    PlainDigits(n);
    assert t[0] == NatToString(n)[0];
    assert TrimStart(t) == t;
    assert Unsigned(t) == t;
    MagnitudeStops(n, tail);
  }

  /** parseInt reads back every rendered integer. */
  lemma ParseIntToString(i: int)
    ensures ParseInt(IntToString(i)) == Some(i)
  {
    if i < 0 {
      var n: nat := -i;
      var s := NatToString(n);
      assert IntToString(i) == "-" + s;
      MagnitudeOfNatToString(n);
      ParseNegative(s, n);
      assert -(n as int) == i;
    } else {
      ParseNatToString(i);
    }
  }
}
