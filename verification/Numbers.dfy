/** Python's str(int) and int(str), over ASCII digits. */
module Numbers {
  import opened Wrappers

  function Digit(d: nat): char
    requires d < 10
  {
    "0123456789"[d]
  }

  predicate IsDigit(c: char) { '0' <= c <= '9' }

  function DigitValue(c: char): nat
    requires IsDigit(c)
  {
    (c - '0') as nat
  }

  function NatToString(n: nat): (r: string)
    ensures r != "" && forall i :: 0 <= i < |r| ==> IsDigit(r[i])
  {
    if n < 10 then [Digit(n)] else NatToString(n / 10) + [Digit(n % 10)]
  }

  function IntToString(n: int): (r: string)
    ensures r != "" && forall i :: 0 <= i < |r| ==> IsDigit(r[i]) || r[i] == '-'
  {
    if n < 0 then "-" + NatToString(-n) else NatToString(n)
  }

  /** Digits, with single underscores allowed between them. */
  function ParseNat(s: string): Option<nat> {
    if s == "" || !IsDigit(s[|s| - 1]) then None
    else
      var d, rest := DigitValue(s[|s| - 1]), s[..|s| - 1];
      if rest == "" then Some(d)
      else
        match ParseNat(if rest[|rest| - 1] == '_' then rest[..|rest| - 1] else rest)
        case None => None
        case Some(n) => Some(10 * n + d)
  }

  /** int(s) for a stripped s; None stands for ValueError. */
  function ParseInt(s: string): Option<int> {
    if s != "" && (s[0] == '-' || s[0] == '+') then
      match ParseNat(s[1..])
      case None => None
      case Some(n) => Some(if s[0] == '-' then 0 - n else n)
    else
      match ParseNat(s)
      case None => None
      case Some(n) => Some(n)
  }

  lemma {:induction false} NatRoundTrip(n: nat)
    ensures ParseNat(NatToString(n)) == Some(n)
  {
    var s := NatToString(n);
    assert DigitValue(Digit(n % 10)) == n % 10;
    if n >= 10 {
      NatRoundTrip(n / 10);
      assert s[..|s| - 1] == NatToString(n / 10);
    } else {
      assert s[..0] == "";
    }
  }

  lemma IntRoundTrip(n: int)
    ensures ParseInt(IntToString(n)) == Some(n)
  {
    NatRoundTrip(if n < 0 then -n else n);
    var s := IntToString(n);
    if n < 0 { assert s[1..] == NatToString(-n); }
  }

  // ----- What int(s) accepts, and the number it stands for, position by position

  predicate DigitCode(c: char) {
    48 <= c as int <= 57
  }

  /** Digits, with single underscores between them and nowhere else. */
  predicate Numeral(s: string) {
    && s != "" && DigitCode(s[0]) && DigitCode(s[|s| - 1])
    && forall i :: 0 <= i < |s| && !DigitCode(s[i]) ==> s[i] == '_' && 0 < i < |s| - 1 && DigitCode(s[i - 1]) && DigitCode(s[i + 1])
  }

  function Pow10(n: nat): nat {
    if n == 0 then 1 else 10 * Pow10(n - 1)
  }

  function DigitCount(s: string): nat {
    if s == "" then 0 else (if DigitCode(s[0]) then 1 else 0) + DigitCount(s[1..])
  }

  function Times(d: nat, p: nat): nat { d * p }

  /** Each digit, times ten to the power of the number of digits after it. */
  function Positional(s: string): nat {
    if s == "" then 0
    else (if DigitCode(s[0]) then Times(s[0] as int - 48, Pow10(DigitCount(s[1..]))) else 0) + Positional(s[1..])
  }

  lemma {:induction false} CountAppend(s: string, c: char)
    ensures DigitCount(s + [c]) == DigitCount(s) + if DigitCode(c) then 1 else 0
  {
    if s == "" {
      assert "" + [c] == [c] && [c][1..] == "";
    } else {
      assert (s + [c])[1..] == s[1..] + [c];
      CountAppend(s[1..], c);
    }
  }

  lemma {:induction false} PositionalAppend(s: string, c: char)
    ensures Positional(s + [c]) == if DigitCode(c) then 10 * Positional(s) + (c as int - 48) else Positional(s)
  {
    if s == "" {
      assert "" + [c] == [c] && [c][1..] == "";
    } else {
      assert (s + [c])[1..] == s[1..] + [c];
      PositionalAppend(s[1..], c);
      CountAppend(s[1..], c);
      if DigitCode(s[0]) && DigitCode(c) {
        TenTimes(s[0] as int - 48, Pow10(DigitCount(s[1..])));
      }
    }
  }

  lemma TenTimes(d: nat, p: nat)
    ensures Times(d, 10 * p) == 10 * Times(d, p)
  {
  }

  lemma {:induction false} NatReads(s: string)
    ensures ParseNat(s).Some? <==> Numeral(s)
    ensures Numeral(s) ==> ParseNat(s).value == Positional(s)
    decreases |s|
  {
    if s != "" && DigitCode(s[|s| - 1]) {
      var rest, c := s[..|s| - 1], s[|s| - 1];
      assert s == rest + [c];
      PositionalAppend(rest, c);
      if rest != "" {
        var head := if rest[|rest| - 1] == '_' then rest[..|rest| - 1] else rest;
        NatReads(head);
        if head != rest {
          assert rest == head + ['_'];
          PositionalAppend(head, '_');
        }
        NumeralStep(s, rest, head);
      }
    }
  }

  lemma NumeralStep(s: string, rest: string, head: string)
    requires |s| >= 2 && rest == s[..|s| - 1] && DigitCode(s[|s| - 1])
    requires head == if rest[|rest| - 1] == '_' then rest[..|rest| - 1] else rest
    ensures Numeral(s) <==> Numeral(head)
  {
    assert forall i :: 0 <= i < |head| ==> head[i] == s[i];
    if Numeral(head) {
      assert DigitCode(s[|head| - 1]);
      forall i | 0 <= i < |s| && !DigitCode(s[i]) ensures s[i] == '_' && 0 < i < |s| - 1 && DigitCode(s[i - 1]) && DigitCode(s[i + 1]) {
        if i < |head| { assert head[i] == s[i]; }
      }
    }
    if Numeral(s) {
      assert head != "" by { assert DigitCode(s[0]); }
      assert DigitCode(head[|head| - 1]);
    }
  }

  /** int(s) for a stripped s: an optional sign and a numeral, and no other text, read as the number it
      writes; leading zeros count for nothing. */
  lemma IntReads(s: string)
    ensures var signed := s != "" && (s[0] == '-' || s[0] == '+');
            var body := if signed then s[1..] else s;
            && (ParseInt(s).Some? <==> Numeral(body))
            && (Numeral(body) ==> ParseInt(s).value == if signed && s[0] == '-' then 0 - Positional(body) else Positional(body))
  {
    NatReads(s);
    if s != "" { NatReads(s[1..]); }
  }

  /** str(n): a minus sign exactly for a negative number, then digits without a leading zero. */
  lemma WritesCanonically(n: int)
    ensures var s := IntToString(n);
            && (s[0] == '-' <==> n < 0)
            && var body := if n < 0 then s[1..] else s;
               body != "" && (forall i :: 0 <= i < |body| ==> DigitCode(body[i])) && (body[0] == '0' ==> body == "0" && n == 0)
  {
    NoLeadingZero(if n < 0 then -n else n);
    if n < 0 { assert IntToString(n)[1..] == NatToString(-n); }
  }

  lemma {:induction false} NoLeadingZero(n: nat)
    ensures NatToString(n)[0] == '0' ==> n == 0 && NatToString(n) == "0"
  {
    if n >= 10 {
      NoLeadingZero(n / 10);
      assert NatToString(n)[0] == NatToString(n / 10)[0];
    }
  }
}
