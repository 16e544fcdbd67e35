/** `std::stoi` on the command-line values (base 10): it skips leading white
    space, reads an optional sign and then the longest run of decimal digits,
    ignores whatever follows, and throws when there is no digit or when the
    value does not fit an `int`. A throw ends the program. */
module Decimal {
  import opened Outcomes
  import opened MachineInt

  /** `invalid_argument` and `out_of_range`. */
  datatype StoiError = InvalidArgument | OutOfRange

  /** White space of the C locale. */
  predicate IsSpace(c: char) {
    c == ' ' || c == '\t' || c == '\n' || c == '\U{000B}' || c == '\U{000C}' || c == '\r'
  }

  predicate IsDigit(c: char) {
    '0' <= c <= '9'
  }

  predicate HasDigit(s: string) {
    exists i | 0 <= i < |s| :: IsDigit(s[i])
  }

  /** Number of leading characters of `s` that satisfy `p`. */
  function Span(s: string, p: char -> bool): (n: nat)
    ensures n <= |s|
    ensures forall i | 0 <= i < n :: p(s[i])
    ensures n < |s| ==> !p(s[n])
  {
    if |s| == 0 || !p(s[0]) then 0 else 1 + Span(s[1..], p)
  }

  function DigitValue(c: char): nat
    requires IsDigit(c)
  {
    (c as int) - ('0' as int)
  }

  /** The number a run of decimal digits stands for. */
  function DigitsValue(ds: string): nat
    requires forall i | 0 <= i < |ds| :: IsDigit(ds[i])
  {
    if |ds| == 0 then 0
    else DigitsValue(ds[..|ds| - 1]) * 10 + DigitValue(ds[|ds| - 1])
  }

  /** How far the conversion has got: in the leading white space, just past
      a sign, or inside the digit run with the value of the digits so far. */
  datatype Phase = Blank | Signed(negative: bool) | InDigits(negative: bool, acc: nat)

  function Negative(ph: Phase): bool {
    !ph.Blank? && ph.negative
  }

  function Acc(ph: Phase): nat {
    if ph.InDigits? then ph.acc else 0
  }

  /** The end of the digit run: the signed value, if it fits an `int`. */
  function Finish(negative: bool, magnitude: nat): (r: Result<Int32, StoiError>)
    ensures r.Ok? <==> (if negative then magnitude <= -MinInt32 else magnitude <= MaxInt32)
    ensures r.Ok? ==> r.value == (if negative then 0 - (magnitude as int) else magnitude)
    ensures r.Err? ==> r.error == OutOfRange
  {
    var n: int := if negative then 0 - (magnitude as int) else magnitude;
    if InRange32(n) then Ok(n) else Err(OutOfRange)
  }

  /** `std::stoi`'s scan from position `i` in phase `ph`, one character at a
      time. */
  function Scan(s: string, i: nat, ph: Phase): (r: Result<Int32, StoiError>)
    requires i <= |s|
    ensures r.Ok? ==> ph.InDigits? || exists j | i <= j < |s| :: IsDigit(s[j])
    decreases |s| - i
  {
    if i < |s| && ph.Blank? && IsSpace(s[i]) then Scan(s, i + 1, Blank)
    else if i < |s| && ph.Blank? && (s[i] == '-' || s[i] == '+') then Scan(s, i + 1, Signed(s[i] == '-'))
    else if i < |s| && IsDigit(s[i]) then Scan(s, i + 1, InDigits(Negative(ph), Acc(ph) * 10 + DigitValue(s[i])))
    else if ph.InDigits? then Finish(ph.negative, ph.acc)
    else Err(InvalidArgument)
  }

  /** `std::stoi(s)`, with its two exceptions as errors. A result is produced
      only for a token holding a digit. */
  function Stoi(s: string): (r: Result<Int32, StoiError>)
    ensures r.Ok? ==> HasDigit(s)
  {
    Scan(s, 0, Blank)
  }

  /** The same conversion stated on the parts of the token: the white space,
      the sign, the longest digit run after it. */
  function StoiSpec(s: string): Result<Int32, StoiError> {
    var rest := s[Span(s, IsSpace)..];
    var signed := |rest| > 0 && (rest[0] == '-' || rest[0] == '+');
    var body := if signed then rest[1..] else rest;
    var d := Span(body, IsDigit);
    if d == 0 then Err(InvalidArgument)
    else Finish(signed && rest[0] == '-', DigitsValue(body[..d]))
  }

  /** The scan computes what the reference definition says. */
  lemma {:induction false} StoiMatchesSpec(s: string)
    ensures Stoi(s) == StoiSpec(s)
  {
    assert s[0..] == s;
    ScanBlank(s, 0);
  }

  lemma {:induction false} ScanBlank(s: string, i: nat)
    requires i <= |s|
    ensures Scan(s, i, Blank) == StoiSpec(s[i..])
    decreases |s| - i
  {
    var t := s[i..];
    if i < |s| && IsSpace(s[i]) {
      ScanBlank(s, i + 1);
      SpecSkipsSpace(s, i);
    } else if i < |s| && (s[i] == '-' || s[i] == '+') {
      assert Scan(s, i, Blank) == Scan(s, i + 1, Signed(s[i] == '-'));
      ScanSigned(s, i + 1, s[i] == '-');
      SpecSigned(s, i);
    } else {
      assert Scan(s, i, Blank) == Scan(s, i, Signed(false));
      ScanSigned(s, i, false);
      SpecUnsigned(t);
    }
  }

  lemma SpecSkipsSpace(s: string, i: nat)
    requires i < |s| && IsSpace(s[i])
    ensures StoiSpec(s[i..]) == StoiSpec(s[i + 1..])
  {
    var t := s[i..];
    assert t[1..] == s[i + 1..];
    assert t[Span(t, IsSpace)..] == s[i + 1..][Span(s[i + 1..], IsSpace)..];
  }

  /** The reference definition on a token that starts with a sign. */
  lemma SpecSigned(s: string, i: nat)
    requires i < |s| && (s[i] == '-' || s[i] == '+')
    ensures var d := Span(s[i + 1..], IsDigit);
            StoiSpec(s[i..]) == if d == 0 then Err(InvalidArgument) else Finish(s[i] == '-', DigitsValue(s[i + 1..][..d]))
  {
    var t := s[i..];
    assert Span(t, IsSpace) == 0 && t[0..] == t;
    assert t[1..] == s[i + 1..];
  }

  /** The reference definition on a token that starts with neither white
      space nor a sign. */
  lemma SpecUnsigned(t: string)
    requires |t| == 0 || !(IsSpace(t[0]) || t[0] == '-' || t[0] == '+')
    ensures var d := Span(t, IsDigit);
            StoiSpec(t) == if d == 0 then Err(InvalidArgument) else Finish(false, DigitsValue(t[..d]))
  {
    assert Span(t, IsSpace) == 0 && t[0..] == t;
  }

  /** Just past a sign, the scan reads the longest digit run and finishes with
      its value; without a digit it fails. */
  lemma ScanSigned(s: string, i: nat, negative: bool)
    requires i <= |s|
    ensures var d := Span(s[i..], IsDigit);
            Scan(s, i, Signed(negative)) == if d == 0 then Err(InvalidArgument) else Finish(negative, DigitsValue(s[i..][..d]))
  {
    if i < |s| && IsDigit(s[i]) {
      ScanFirstDigit(s, i, negative);
      RunFromDigit(s, i);
    } else {
      SpanStops(s, i);
    }
  }

  lemma ScanFirstDigit(s: string, i: nat, negative: bool)
    requires i < |s| && IsDigit(s[i])
    ensures Scan(s, i, Signed(negative))
            == Finish(negative, DigitsValue([s[i]] + s[i + 1..][..Span(s[i + 1..], IsDigit)]))
  {
    var c := s[i];
    assert DigitsValue([c]) == DigitValue(c) by {
      assert [c][..0] == [];
    }
    assert Scan(s, i, Signed(negative)) == Scan(s, i + 1, InDigits(negative, DigitsValue([c])));
    ScanRun(s, i + 1, negative, [c]);
  }

  /** Inside the digit run, with the digits `p` read so far, the scan reads
      the rest of the run and finishes with the value of all of it. */
  lemma {:induction false} ScanRun(s: string, i: nat, negative: bool, p: string)
    requires i <= |s|
    requires forall k | 0 <= k < |p| :: IsDigit(p[k])
    ensures var d := Span(s[i..], IsDigit);
            Scan(s, i, InDigits(negative, DigitsValue(p))) == Finish(negative, DigitsValue(p + s[i..][..d]))
    decreases |s| - i
  {
    if i < |s| && IsDigit(s[i]) {
      var q := p + [s[i]];
      assert q[..|q| - 1] == p;
      assert Scan(s, i, InDigits(negative, DigitsValue(p))) == Scan(s, i + 1, InDigits(negative, DigitsValue(q)));
      ScanRun(s, i + 1, negative, q);
      RunAfterDigit(s, i, p);
    } else {
      SpanStops(s, i);
      assert p + s[i..][..0] == p;
    }
  }

  lemma SpanStops(s: string, i: nat)
    requires i <= |s| && !(i < |s| && IsDigit(s[i]))
    ensures Span(s[i..], IsDigit) == 0
  {
  }

  lemma RunFromDigit(s: string, i: nat)
    requires i < |s| && IsDigit(s[i])
    ensures var d := Span(s[i..], IsDigit);
            d == 1 + Span(s[i + 1..], IsDigit) && [s[i]] + s[i + 1..][..d - 1] == s[i..][..d]
  {
    assert s[i..][1..] == s[i + 1..];
  }

  lemma RunAfterDigit(s: string, i: nat, p: string)
    requires i < |s| && IsDigit(s[i])
    ensures var d := Span(s[i..], IsDigit);
            d == 1 + Span(s[i + 1..], IsDigit) && (p + [s[i]]) + s[i + 1..][..d - 1] == p + s[i..][..d]
  {
    assert s[i..][1..] == s[i + 1..];
  }

  /** Decimal digits of a natural number, most significant first. */
  function ShowNat(n: nat): (s: string)
    ensures |s| > 0 && forall i | 0 <= i < |s| :: IsDigit(s[i])
  {
    var last := ['0' + ((n % 10) as char)];
    if n < 10 then last else ShowNat(n / 10) + last
  }

  /** The usual decimal form of an `int`. */
  function Show(n: int): string {
    if n < 0 then "-" + ShowNat(-n) else ShowNat(n)
  }

  lemma {:induction false} DigitsValueShowNat(n: nat)
    ensures DigitsValue(ShowNat(n)) == n
  {
    var s := ShowNat(n);
    if n >= 10 {
      assert s[..|s| - 1] == ShowNat(n / 10);
      DigitsValueShowNat(n / 10);
    }
  }

  /** `stoi` reads back every `int` written in decimal. */
  lemma StoiShow(n: Int32)
    ensures Stoi(Show(n)) == Ok(n)
  {
    StoiMatchesSpec(Show(n));
    if n < 0 {
      StoiSigned(0 - (n as int));
    } else {
      StoiDigits(n);
    }
  }

  /** The digits alone: no space is skipped, there is no sign, all of the
      token is read. */
  lemma StoiDigits(m: nat)
    requires m <= MaxInt32
    ensures StoiSpec(ShowNat(m)) == Ok(m)
  {
    var s := ShowNat(m);
    assert Span(s, IsSpace) == 0 by { assert !IsSpace(s[0]); }
    assert s[0..] == s;
    SpanAll(s, IsDigit);
    assert s[..|s|] == s;
    DigitsValueShowNat(m);
  }

  /** A minus sign and the digits of the magnitude. */
  lemma StoiSigned(m: nat)
    requires 0 < m <= -MinInt32
    ensures StoiSpec("-" + ShowNat(m)) == Ok(0 - (m as int))
  {
    var digits := ShowNat(m);
    var s := "-" + digits;
    assert Span(s, IsSpace) == 0 by { assert !IsSpace(s[0]); }
    assert s[0..] == s;
    assert s[1..] == digits;
    SpanAll(digits, IsDigit);
    assert digits[..|digits|] == digits;
    DigitsValueShowNat(m);
  }

  lemma {:induction false} SpanAll(s: string, p: char -> bool)
    requires forall i | 0 <= i < |s| :: p(s[i])
    ensures Span(s, p) == |s|
  {
    if |s| > 0 {
      SpanAll(s[1..], p);
    }
  }

  lemma StoiDigitsExample()
    ensures Stoi("6000") == Ok(6000)
  {
    assert ShowNat(6000) == "6000";
    StoiDigits(6000);
    StoiMatchesSpec("6000");
  }
}
