// Decimal numbers as lib.c reads and writes them.
module Decimal {
  import opened Bytes

  const ZERO: u8 := 48
  const MINUS: u8 := 45

  // The canonical spelling: no leading zero, `0` for zero.
  function Digits(n: nat): (s: Bytes)
    ensures |s| >= 1
    ensures forall i :: 0 <= i < |s| ==> IsDigit(s[i])
    ensures s[0] == ZERO <==> n == 0
    ensures n < 10 <==> |s| == 1
  {
    if n < 10 then [ZERO + n] else Digits(n / 10) + [ZERO + n % 10]
  }

  function Value(s: Bytes): (n: int)
    requires forall i :: 0 <= i < |s| ==> IsDigit(s[i])
    ensures n >= 0
  {
    if s == [] then 0
    else
      assert IsDigit(s[|s| - 1]);
      Value(s[..|s| - 1]) * 10 + (s[|s| - 1] as int - 48)
  }

  // How many digits `s` starts with.
  function DigitRun(s: Bytes): (k: nat)
    ensures k <= |s|
    ensures forall i :: 0 <= i < k ==> IsDigit(s[i])
    ensures k < |s| ==> !IsDigit(s[k])
  {
    if s == [] || !IsDigit(s[0]) then 0 else 1 + DigitRun(s[1..])
  }

  // What a run of digits at the front of `s` means. Too wide for 64 bits is
  // `Range`, whatever follows it; no digit, a leading zero, or nothing behind
  // the last digit is `InvalidData`.
  function ParseDigits(s: Bytes): (r: Parse<u64>)
    ensures r.Parsed? ==> |r.rest| < |s|
  {
    var k := DigitRun(s);
    if k == 0 || (k > 1 && s[0] == ZERO) then Failed(InvalidData)
    else if Value(s[..k]) >= U64_LIMIT then Failed(Range)
    else if k == |s| then Failed(InvalidData)
    else Parsed(Value(s[..k]), s[k..])
  }

  lemma {:induction false} ValueOfDigits(n: nat)
    ensures Value(Digits(n)) == n
  {
    if n >= 10 {
      ValueOfDigits(n / 10);
      var s := Digits(n);
      assert s[..|s| - 1] == Digits(n / 10);
    } else {
      assert Digits(n)[..0] == [];
    }
  }

  lemma {:induction false} DigitsOfValue(s: Bytes)
    requires |s| >= 1 && (s[0] == ZERO ==> |s| == 1)
    requires forall i :: 0 <= i < |s| ==> IsDigit(s[i])
    ensures Digits(Value(s)) == s
  {
    var init, d := s[..|s| - 1], s[|s| - 1] - ZERO;
    if init == [] {
      assert Value(init) == 0;
    } else {
      DigitsOfValue(init);
      assert Value(s) / 10 == Value(init) && Value(s) % 10 == d;
      assert Value(s) >= 10 by { assert Value(init) > 0; }
    }
  }

  lemma {:induction false} DigitRunIs(s: Bytes, k: nat)
    requires k <= |s| && (k < |s| ==> !IsDigit(s[k]))
    requires forall i :: 0 <= i < k ==> IsDigit(s[i])
    ensures DigitRun(s) == k
  {
  }

  // A number is read exactly where its one canonical spelling stands in front
  // of something that is not a digit.
  lemma {:induction false} ParseDigitsInverse(s: Bytes, n: u64, rest: Bytes)
    ensures ParseDigits(s) == Parsed(n, rest)
       <==> s == Digits(n) + rest && rest != [] && !IsDigit(rest[0])
  {
    if s == Digits(n) + rest && rest != [] && !IsDigit(rest[0]) {
      var k := |Digits(n)|;
      DigitRunIs(s, k);
      assert s[..k] == Digits(n) && s[k..] == rest;
      ValueOfDigits(n);
    }
    var k := DigitRun(s);
    if ParseDigits(s) == Parsed(n, rest) {
      DigitsOfValue(s[..k]);
      assert s == s[..k] + s[k..];
    }
  }

  lemma {:induction false} ValueBelowPrefix(s: Bytes, k: nat)
    requires forall i :: 0 <= i < |s| ==> IsDigit(s[i])
    requires k <= |s|
    ensures Value(s[..k]) <= Value(s)
  {
    if k < |s| {
      ValueBelowPrefix(s[..|s| - 1], k);
      assert s[..|s| - 1][..k] == s[..k];
    } else {
      assert s[..k] == s;
    }
  }

  function Pow10(k: nat): nat {
    if k == 0 then 1 else 10 * Pow10(k - 1)
  }

  // A run that does not start with a zero is at least as large as its width
  // says: this is what bounds the digits of a 64 bit number.
  lemma {:induction false} ValueAtLeastWidth(s: Bytes)
    requires |s| >= 1 && s[0] != ZERO
    requires forall i :: 0 <= i < |s| ==> IsDigit(s[i])
    ensures Value(s) >= Pow10(|s| - 1)
  {
    if |s| > 1 {
      ValueAtLeastWidth(s[..|s| - 1]);
    } else {
      assert s[..0] == [];
    }
  }

  lemma {:induction false} Pow10Of20()
    ensures Pow10(20) == 100_000_000_000_000_000_000
  {
    assert Pow10(4) == 10_000;
    assert Pow10(8) == 100_000_000;
    assert Pow10(12) == 1_000_000_000_000;
    assert Pow10(16) == 10_000_000_000_000_000;
  }

  const MAX_LEN: nat := 30

  lemma {:induction false} AtMostTwentyDigits(s: Bytes)
    requires |s| >= 1 && s[0] != ZERO
    requires forall i :: 0 <= i < |s| ==> IsDigit(s[i])
    requires Value(s) < U64_LIMIT
    ensures |s| <= 20
  {
    if |s| > 20 {
      ValueAtLeastWidth(s);
      Pow10Monotone(20, |s| - 1);
      Pow10Of20();
      assert false;
    }
  }

  // The digit loop. It never runs out of its 30 rounds: the 21st digit of a
  // number without a leading zero already overflows.
  method AsciiNumParse(data: Bytes) returns (r: Parse<u64>)
    ensures r == ParseDigits(data)
  {
    var remaining := data;
    var num: u64 := 0;
    var hasLeadingZero := false;
    assert data[..0] == [];
    for consumed := 0 to MAX_LEN
      invariant consumed <= |data| && remaining == data[consumed..]
      invariant forall i :: 0 <= i < consumed ==> IsDigit(data[i])
      invariant consumed <= 20 && num == Value(data[..consumed])
      invariant hasLeadingZero <==> consumed > 0 && data[0] == ZERO
      invariant hasLeadingZero ==> consumed <= 1
    {
      if remaining == [] {
        DigitRunIs(data, consumed);
        assert data[..consumed] == data;
        return Failed(InvalidData);
      }
      var current := remaining[0];
      assert current == data[consumed];
      if !IsDigit(current) {
        DigitRunIs(data, consumed);
        if consumed == 0 {
          return Failed(InvalidData);
        }
        return Parsed(num, remaining);
      }
      RunCovers(data, consumed + 1);
      if current == ZERO && consumed == 0 {
        hasLeadingZero := true;
      }
      if consumed > 0 && hasLeadingZero {
        return Failed(InvalidData);
      }
      var digit := current - ZERO;
      assert data[..consumed + 1][..consumed] == data[..consumed];
      assert Value(data[..consumed + 1]) == num * 10 + digit;
      if num * 10 + digit >= U64_LIMIT {
        ValueBelowPrefix(data[..DigitRun(data)], consumed + 1);
        assert data[..DigitRun(data)][..consumed + 1] == data[..consumed + 1];
        return Failed(Range);
      }
      num := num * 10 + digit;
      if consumed > 0 {
        AtMostTwentyDigits(data[..consumed + 1]);
      }
      remaining := remaining[1..];
    }
    assert false;
  }

  lemma {:induction false} RunCovers(s: Bytes, k: nat)
    requires k <= |s| && forall i :: 0 <= i < k ==> IsDigit(s[i])
    ensures DigitRun(s) >= k
  {
  }

  lemma {:induction false} Pow10Monotone(a: nat, b: nat)
    requires a <= b
    ensures 1 <= Pow10(a) <= Pow10(b)
  {
    if a < b {
      Pow10Monotone(a, b - 1);
    } else if a > 0 {
      Pow10Monotone(a - 1, a - 1);
    }
  }

  method UsizeDigitsBase10(n: u64) returns (digits: nat)
    ensures digits == |Digits(n)|
  {
    digits := 1;
    var m := n;
    while m >= 10
      invariant m >= 0
      invariant digits + |Digits(m)| == |Digits(n)| + 1
    {
      m := m / 10;
      digits := digits + 1;
    }
  }

  // The digits of `n` at the front of `dst[at..]`, everything else untouched.
  method EncodeUsizeBase10(n: u64, dst: array<u8>, at: nat) returns (digits: nat)
    requires at + |Digits(n)| <= dst.Length
    modifies dst
    ensures digits == |Digits(n)|
    ensures Wrote(dst[..], old(dst[..]), at, Digits(n))
  {
    digits := UsizeDigitsBase10(n);
    var end := at + digits;
    var m: int := n;
    ghost var before := dst[..];
    ghost var tail: Bytes := [];
    var first := true;
    while first || m > 0
      invariant at <= end <= at + digits <= dst.Length
      invariant m >= 0 && (first ==> m == n && tail == [])
      invariant m == 0 && !first ==> end == at && Digits(n) == tail
      invariant m > 0 || first ==> Digits(n) == Digits(m) + tail && end == at + |Digits(m)|
      invariant |tail| == at + digits - end
      invariant Wrote(dst[..], before, end, tail)
      decreases first, m
    {
      first := false;
      var digit := m % 10;
      end := end - 1;
      ghost var was := dst[..];
      dst[end] := digit + ZERO;
      tail := [digit + ZERO] + tail;
      assert dst[..] == was[end := dst[end]];
      m := m / 10;
    }
    assert end == at;
  }

  // `-ISIZE_MIN` is not an `isize`; its magnitude is taken modulo 2^64.
  function IsizeMagnitude(n: int): (m: u64)
    requires ISIZE_MIN <= n <= ISIZE_MAX
    ensures m == if n < 0 then -n else n
  {
    if n < 0 then (0 - n % U64_LIMIT) % U64_LIMIT else n
  }

  function SignedDigits(n: int): (s: Bytes)
  {
    if n < 0 then [MINUS] + Digits(-n) else Digits(n)
  }

  // The two checked conversions: negative is `0 - magnitude`, otherwise
  // `magnitude + 0`, and either fails when it does not fit an `isize`.
  function IsizeFromUsize(magnitude: u64, negative: bool): (r: Parse<int>)
    ensures r.Parsed? <==> magnitude <= if negative then ISIZE_MAX + 1 else ISIZE_MAX
    ensures r.Parsed? ==> r.value == (if negative then -(magnitude as int) else magnitude)
    ensures r.Failed? ==> r.error == Range
  {
    var wide := if negative then 0 - magnitude else magnitude + 0;
    if ISIZE_MIN <= wide <= ISIZE_MAX then Parsed(wide, []) else Failed(Range)
  }

  method EncodeIsizeBase10(n: int, dst: array<u8>, at: nat) returns (written: nat)
    requires ISIZE_MIN <= n <= ISIZE_MAX
    requires at + |SignedDigits(n)| <= dst.Length
    modifies dst
    ensures written == |SignedDigits(n)|
    ensures Wrote(dst[..], old(dst[..]), at, SignedDigits(n))
  {
    hide Digits;
    var magnitude := IsizeMagnitude(n);
    if n >= 0 {
      written := EncodeUsizeBase10(magnitude, dst, at);
      return;
    }
    ghost var before := dst[..];
    assert SignedDigits(n) == [MINUS] + Digits(magnitude);
    dst[at] := MINUS;
    ghost var signed := dst[..];
    WroteOne(before, signed, at, MINUS);
    hide Wrote, SignedDigits;
    var digits := EncodeUsizeBase10(magnitude, dst, at + 1);
    WroteBoth(before, signed, dst[..], at, [MINUS], Digits(magnitude));
    return 1 + digits;
  }

  lemma {:induction false} WroteOne(was: Bytes, now: Bytes, at: nat, b: u8)
    requires at < |was| && now == was[at := b]
    ensures Wrote(now, was, at, [b])
  {
  }
}
