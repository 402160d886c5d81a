// The byte, word and error vocabulary of the unity build (lib.c).
module Bytes {
  type u8 = b: int | 0 <= b < 0x100
  type Bytes = seq<u8>

  const U32_LIMIT: nat := 0x1_0000_0000
  const U64_LIMIT: nat := 0x1_0000_0000_0000_0000
  const ISIZE_MAX: int := 0x7FFF_FFFF_FFFF_FFFF
  const ISIZE_MIN: int := -0x8000_0000_0000_0000

  type u32 = w: int | 0 <= w < 0x1_0000_0000
  type u64 = w: int | 0 <= w < 0x1_0000_0000_0000_0000

  // The kinds of `Error` the modelled code answers with.
  datatype ErrorKind = OOM | InvalidData | Range | Again | Unsupported

  datatype Option<+T> = None | Some(value: T)

  // What a parser answers: a value and the bytes behind it, or an error and
  // nothing consumed.
  datatype Parse<+T> = Parsed(value: T, rest: Bytes) | Failed(error: ErrorKind)

  // `now` is `was` with `s` written at `at`, and nothing else touched.
  ghost predicate Wrote(now: Bytes, was: Bytes, at: nat, s: Bytes) {
    && |now| == |was| && at + |s| <= |was|
    && forall i :: 0 <= i < |now| ==> now[i] == if at <= i < at + |s| then s[i - at] else was[i]
  }

  lemma {:induction false} WroteBoth(a: Bytes, b: Bytes, c: Bytes, at: nat, s: Bytes, t: Bytes)
    requires Wrote(b, a, at, s) && Wrote(c, b, at + |s|, t)
    ensures Wrote(c, a, at, s + t)
  {
  }

  lemma {:induction false} Associate(a: Bytes, b: Bytes, c: Bytes)
    ensures a + b + c == a + (b + c)
  {
  }

  function Joined(chunks: seq<Bytes>): Bytes {
    if chunks == [] then [] else Joined(chunks[..|chunks| - 1]) + chunks[|chunks| - 1]
  }

  // The bytes of a text of single-byte characters.
  function Ascii(text: string): (s: Bytes)
    requires forall i :: 0 <= i < |text| ==> text[i] < 128 as char
    ensures |s| == |text| && forall i :: 0 <= i < |s| ==> s[i] == text[i] as int
  {
    seq(|text|, i requires 0 <= i < |text| => text[i] as int)
  }

  predicate IsDigit(c: u8) {
    48 <= c <= 57
  }

  function Zeros(n: nat): (z: Bytes)
    ensures |z| == n && forall i :: 0 <= i < n ==> z[i] == 0
  {
    seq(n, _ => 0)
  }

  // Most significant byte first.
  function U32Bytes(w: u32): (s: Bytes)
    ensures |s| == 4
  {
    [w / 0x1000000, w / 0x10000 % 0x100, w / 0x100 % 0x100, w % 0x100]
  }

  function U32FromBytes(s: Bytes): (w: u32)
    requires |s| >= 4
  {
    s[0] as int * 0x1000000 + s[1] as int * 0x10000 + s[2] as int * 0x100 + s[3] as int
  }

  // What a byte of it weighs.
  lemma {:induction false} U32Weights(w: u32)
    ensures var s := U32Bytes(w); s[3] == w % 256 && (w < 0x1_00_00_00 <==> s[0] == 0)
    ensures U32Bytes(1) == [0, 0, 0, 1] && U32Bytes(0x01020304) == [1, 2, 3, 4]
  {
  }

  lemma {:induction false} U32RoundTrip(w: u32, rest: Bytes)
    ensures U32FromBytes(U32Bytes(w) + rest) == w
  {
    var s := U32Bytes(w);
    assert (s + rest)[..4] == s;
    assert w == w / 0x100 * 0x100 + w % 0x100;
    assert w / 0x100 == w / 0x10000 * 0x100 + w / 0x100 % 0x100;
    assert w / 0x10000 == w / 0x1000000 * 0x100 + w / 0x10000 % 0x100;
  }

  lemma {:induction false} U32BytesOfParsed(s: Bytes)
    requires |s| >= 4
    ensures U32Bytes(U32FromBytes(s)) == s[..4]
  {
    var w := U32FromBytes(s);
    assert w / 0x100 == s[0] as int * 0x10000 + s[1] as int * 0x100 + s[2] as int;
    assert w / 0x10000 == s[0] as int * 0x100 + s[1] as int;
    assert w / 0x1000000 == s[0];
  }
}
