// HTTP/1.1 requests built (http.c), and read back.
module HttpBuilder {
  import opened Bytes
  import opened Http
  import opened ArenaAllocator

  // ---------- Building a request ----------

  function FieldLine(h: Header): Bytes {
    h.key + [COLON, SP] + h.value
  }

  // Field lines, each on a line of its own, and the empty line behind them.
  function FieldLines(hs: seq<Header>): Bytes {
    if hs == [] then CRLF else FieldLine(hs[0]) + CRLF + FieldLines(hs[1..])
  }

  const VERSION_1_1: Bytes := HTTP + [SLASH, 49, 46, 49]

  function Build(verb: Method, url: Bytes, hs: seq<Header>): Bytes {
    Name(verb) + [SP] + (url + [SP] + (VERSION_1_1 + CRLF + FieldLines(hs)))
  }

  // The bytes set aside for it.
  function Room(url: Bytes, hs: seq<Header>): nat {
    |url| + 32 + HeadersRoom(hs) + 4
  }

  function HeadersRoom(hs: seq<Header>): nat {
    if hs == [] then 0 else |hs[0].key| + 4 + |hs[0].value| + HeadersRoom(hs[1..])
  }

  lemma {:induction false} FieldLinesLength(hs: seq<Header>)
    ensures |FieldLines(hs)| == HeadersRoom(hs) + 2
  {
    if hs == [] {
    } else {
      FieldLinesLength(hs[1..]);
    }
  }

  // A buffer of fixed capacity that is appended to.
  class BytesBuffer {
    const container: array<u8>
    var len: nat

    ghost predicate Valid()
      reads this
    {
      len <= container.Length
    }

    ghost function Contents(): Bytes
      requires Valid()
      reads this, container
    {
      container[..len]
    }

    constructor (cap: nat)
      ensures Valid() && Contents() == [] && container.Length == cap && fresh(container)
    {
      container := new u8[cap](_ => 0);
      len := 0;
    }

    // All of `s` or none of it.
    method Extend(s: Bytes) returns (ok: bool)
      requires Valid()
      modifies this`len, container
      ensures Valid() && ok == (|old(Contents())| + |s| <= container.Length)
      ensures Contents() == old(Contents()) + if ok then s else []
    {
      if |s| == 0 {
        return true;
      }
      if container.Length - len < |s| {
        return false;
      }
      var at := len;
      for k := 0 to |s|
        invariant forall j :: 0 <= j < at ==> container[j] == old(container[j])
        invariant forall j :: 0 <= j < k ==> container[at + j] == s[j]
      {
        container[at + k] := s[k];
      }
      len := at + |s|;
      assert Contents() == old(Contents()) + s;
      return true;
    }
  }

  // What has to fit, put where it does.
  method Put(sb: BytesBuffer, s: Bytes)
    requires sb.Valid() && |sb.Contents()| + |s| <= sb.container.Length
    modifies sb`len, sb.container
    ensures sb.Valid() && sb.Contents() == old(sb.Contents()) + s
  {
    var ok := sb.Extend(s);
    assert ok;
  }

  method SizeFor(url: Bytes, hs: seq<Header>) returns (size: nat)
    ensures size == Room(url, hs)
  {
    size := |url| + 32;
    for i := 0 to |hs|
      invariant size + HeadersRoom(hs[i..]) == |url| + 32 + HeadersRoom(hs)
    {
      assert hs[i..][1..] == hs[i + 1..];
      size := size + |hs[i].key| + 4 + |hs[i].value|;
    }
    size := size + 4;
  }

  method PutFieldLine(sb: BytesBuffer, h: Header, ghost rest: Bytes)
    requires sb.Valid() && |sb.Contents() + (FieldLine(h) + CRLF + rest)| <= sb.container.Length
    modifies sb`len, sb.container
    ensures sb.Valid() && sb.Contents() + rest == old(sb.Contents()) + (FieldLine(h) + CRLF + rest)
  {
    Pieces(sb.Contents(), h, rest);
    Put(sb, h.key);
    Put(sb, [COLON, SP]);
    Put(sb, h.value);
    Put(sb, CRLF);
  }

  method PutFieldLines(sb: BytesBuffer, hs: seq<Header>)
    requires sb.Valid() && |sb.Contents() + FieldLines(hs)| <= sb.container.Length
    modifies sb`len, sb.container
    ensures sb.Valid() && sb.Contents() == old(sb.Contents()) + FieldLines(hs)
  {
    hide FieldLine;
    ghost var whole := sb.Contents() + FieldLines(hs);
    assert hs[0..] == hs;
    for i := 0 to |hs|
      invariant sb.Valid() && sb.Contents() + FieldLines(hs[i..]) == whole
    {
      assert hs[i..][1..] == hs[i + 1..];
      PutFieldLine(sb, hs[i], FieldLines(hs[i + 1..]));
    }
    Put(sb, CRLF);
  }

  // The request built, piece by piece, in a buffer sized beforehand: no piece is
  // ever one too many. Nothing when the arena has no room for the buffer.
  method BuildRequest(verb: Method, url: Bytes, hs: seq<Header>, arena: Arena)
    returns (dst: Option<Bytes>, left: Arena)
    ensures match AllocBytes(arena, Room(url, hs))
            case None => dst == None && left == arena
            case Some(after) => dst == Some(Build(verb, url, hs)) && left == after
  {
    hide Name, VERSION_1_1;
    BuildLength(verb, url, hs);
    BuildPieces(verb, url, hs);
    var size := SizeFor(url, hs);
    var taken := AllocBytes(arena, size);
    if taken.None? {
      return None, arena;
    }
    var sb := new BytesBuffer(size);
    Put(sb, Name(verb));
    Put(sb, [SP]);
    Put(sb, url);
    Put(sb, [SP] + VERSION_1_1 + CRLF);
    PutFieldLines(sb, hs);
    return Some(sb.container[..sb.len]), taken.value;
  }

  lemma {:induction false} BuildPieces(verb: Method, url: Bytes, hs: seq<Header>)
    ensures Build(verb, url, hs) == [] + Name(verb) + [SP] + url + ([SP] + VERSION_1_1 + CRLF) + FieldLines(hs)
  {
    hide Name, FieldLines, VERSION_1_1;
  }

  lemma {:induction false} Pieces(before: Bytes, h: Header, rest: Bytes)
    ensures before + (FieldLine(h) + CRLF + rest) == before + h.key + [COLON, SP] + h.value + CRLF + rest
  {
  }

  lemma {:induction false} BuildLength(verb: Method, url: Bytes, hs: seq<Header>)
    ensures |Build(verb, url, hs)| == |Name(verb)| + |url| + |FieldLines(hs)| + 12 <= Room(url, hs)
  {
    FieldLinesLength(hs);
  }

  // ---------- Reading it back ----------

  predicate AllLegal(hs: seq<Header>) {
    forall i :: 0 <= i < |hs| ==> IsLegal(hs[i])
  }

  ghost predicate Contains(h: Bytes, n: Bytes) {
    exists i: nat :: At(h, n, i)
  }

  predicate Breaks(c: u8) {
    c == CR || c == LF
  }

  lemma {:induction false} Blocked(h: Bytes, j: nat, k: nat)
    requires k < 4 && j + k < |h| && h[j + k] != BLANK_LINE[k]
    ensures !At(h, BLANK_LINE, j)
  {
    ByteAt(h, BLANK_LINE, j, k);
  }

  lemma {:induction false} Shift(a: Bytes, b: Bytes, n: Bytes, j: nat)
    ensures At(a + b, n, |a| + j) <==> At(b, n, j)
  {
    if j + |n| <= |b| {
      assert (a + b)[|a| + j..|a| + j + |n|] == b[j..j + |n|];
    }
  }

  // `u` seen through `b`, `off` bytes in.
  lemma {:induction false} Window(b: Bytes, u: Bytes, off: nat, i: nat)
    requires off + |u| <= |b| && forall k :: 0 <= k < |u| ==> b[off + k] == u[k]
    ensures At(u, BLANK_LINE, i) ==> At(b, BLANK_LINE, off + i)
    ensures i + 4 <= |u| && At(b, BLANK_LINE, off + i) ==> At(u, BLANK_LINE, i)
  {
    if i + 4 <= |u| {
      assert b[off + i..off + i + 4] == u[i..i + 4];
    }
  }

  lemma {:induction false} NoBreakIn(c: u8)
    ensures IsTchar(c) ==> !Breaks(c)
    ensures IsFieldVchar(c) || IsOws(c) ==> !Breaks(c)
  {
  }

  lemma {:induction false} LineNoBreaks(h: Header, i: nat)
    requires IsLegal(h) && i < |FieldLine(h)|
    ensures !Breaks(FieldLine(h)[i])
  {
    hide IsTchar, IsFieldVchar, IsOws, Breaks;
    var line, k := FieldLine(h), |h.key|;
    if i < k {
      assert line[i] == h.key[i];
      NoBreakIn(h.key[i]);
    } else if i < k + 2 {
      ColonOrSpace(line[i]);
    } else {
      assert line[i] == h.value[i - k - 2];
      NoBreakIn(h.value[i - k - 2]);
    }
  }

  lemma {:induction false} ColonOrSpace(c: u8)
    ensures c == COLON || c == SP ==> !Breaks(c)
  {
  }

  lemma {:induction false} LegalLine(h: Header)
    requires IsLegal(h)
    ensures FieldLine(h) != [] && forall i :: 0 <= i < |FieldLine(h)| ==> !Breaks(FieldLine(h)[i])
  {
    hide FieldLine, IsLegal, Breaks;
    forall i | 0 <= i < |FieldLine(h)| ensures !Breaks(FieldLine(h)[i]) {
      LineNoBreaks(h, i);
    }
    LineLength(h);
  }

  lemma {:induction false} LineLength(h: Header)
    ensures |FieldLine(h)| == |h.key| + 2 + |h.value|
  {
  }

  lemma {:induction false} LineParses(h: Header)
    requires IsLegal(h)
    ensures ParseFieldLine(FieldLine(h)) == Some(h)
  {
    hide IsLegal, ParseFieldLine;
    var line := FieldLine(h);
    assert Spells(line, h, [SP], []);
    SpelledParses(line, h, [SP], []);
  }

  // What ends the start line, and then the field lines: its one blank line is at
  // its end.
  lemma {:induction false} TailBlank(hs: seq<Header>)
    requires AllLegal(hs)
    ensures var t := CRLF + FieldLines(hs);
            At(t, BLANK_LINE, |t| - 4) && forall j: nat :: j < |t| - 4 ==> !At(t, BLANK_LINE, j)
  {
    hide FieldLine, IsLegal, At;
    var t := CRLF + FieldLines(hs);
    if hs == [] {
      AtStart();
    } else {
      var line, rest := FieldLine(hs[0]), CRLF + FieldLines(hs[1..]);
      LegalLine(hs[0]);
      TailBlank(hs[1..]);
      assert t == CRLF + line + rest;
      Shift(CRLF + line, rest, BLANK_LINE, |rest| - 4);
      forall j: nat | j < |t| - 4 ensures !At(t, BLANK_LINE, j) {
        if j < 2 + |line| {
          NotInLine(line, rest, j);
        } else {
          Shift(CRLF + line, rest, BLANK_LINE, j - 2 - |line|);
        }
      }
    }
  }

  lemma {:induction false} AtStart()
    ensures At(CRLF + CRLF, BLANK_LINE, 0)
  {
    assert CRLF + CRLF == BLANK_LINE;
  }

  lemma {:induction false} NotInLine(line: Bytes, rest: Bytes, j: nat)
    requires line != [] && (forall i :: 0 <= i < |line| ==> !Breaks(line[i])) && j < 2 + |line| && |rest| >= 4
    ensures !At(CRLF + line + rest, BLANK_LINE, j)
  {
    hide At;
    var t := CRLF + line + rest;
    if j == 0 {
      assert t[2] == line[0];
      Blocked(t, 0, 2);
    } else if j == 1 {
      Blocked(t, 1, 0);
    } else {
      assert t[j] == line[j - 2];
      Blocked(t, j, 0);
    }
  }

  lemma {:induction false} BuildBytes(verb: Method, url: Bytes, hs: seq<Header>)
    ensures var b, n, m := Build(verb, url, hs), |Name(verb)|, |url|;
            && |b| > n + m + 10
            && (forall i :: 0 <= i < n ==> b[i] == Name(verb)[i])
            && b[n] == SP && b[n + 1 + m] == SP
            && (forall i :: 0 <= i < m ==> b[n + 1 + i] == url[i])
            && (forall i :: 0 <= i < 8 ==> b[n + m + 2 + i] == VERSION_1_1[i])
            && b[n + m + 10..] == CRLF + FieldLines(hs)
  {
    hide Name, VERSION_1_1, FieldLines;
    var b, n, m := Build(verb, url, hs), |Name(verb)|, |url|;
    var tail := VERSION_1_1 + CRLF + FieldLines(hs);
    VersionIs();
    var rest := url + [SP] + tail;
    assert b == Name(verb) + [SP] + rest;
    assert b[n + 1..] == rest;
    assert rest[m + 1..] == tail;
    assert b[n + m + 2..] == tail;
    assert tail[8..] == CRLF + FieldLines(hs);
    assert b[n + m + 10..] == b[n + m + 2..][8..];
  }

  lemma {:induction false} VersionIs()
    ensures |VERSION_1_1| == 8 && (forall i :: 0 <= i < 8 ==> !Breaks(VERSION_1_1[i])) && CR !in VERSION_1_1
    ensures Version(VERSION_1_1) == Some((1, 1))
  {
    assert VERSION_1_1 == HTTP + [SLASH] + [49, 46, 49];
    CutFirst(HTTP, [SLASH], [49, 46, 49]);
  }

  // A blank line before the end is one in the URL, and the other way round.
  lemma {:induction false} BlankInUrl(verb: Method, url: Bytes, hs: seq<Header>, j: nat)
    ensures var n := |Name(verb)|;
            && (At(url, BLANK_LINE, j) ==> At(Build(verb, url, hs), BLANK_LINE, n + 1 + j))
            && (j < n + |url| + 10 && At(Build(verb, url, hs), BLANK_LINE, j)
                ==> n < j && At(url, BLANK_LINE, j - n - 1))
  {
    hide Build, VERSION_1_1, FieldLines, At;
    var b, n, m := Build(verb, url, hs), |Name(verb)|, |url|;
    BuildBytes(verb, url, hs);
    Window(b, url, n + 1, j);
    if n < j && j - n - 1 + 4 <= m {
      Window(b, url, n + 1, j - n - 1);
    } else if j < n + m + 10 {
      OutsideUrl(verb, url, hs, j);
    }
  }

  lemma {:induction false} OutsideUrl(verb: Method, url: Bytes, hs: seq<Header>, j: nat)
    requires j < |Name(verb)| + |url| + 10 && (|Name(verb)| < j ==> j - |Name(verb)| + 3 > |url|)
    ensures !At(Build(verb, url, hs), BLANK_LINE, j)
  {
    hide Build, VERSION_1_1, FieldLines, At, Name;
    var b, n, m := Build(verb, url, hs), |Name(verb)|, |url|;
    BuildBytes(verb, url, hs);
    VersionIs();
    if j < n {
      NameNoBreak(verb, j);
      Blocked(b, j, 0);
    } else if j == n {
      Blocked(b, j, 0);
    } else if j <= n + 1 + m {
      Blocked(b, j, n + 1 + m - j);
    } else {
      assert b[n + m + 2 + (j - n - m - 2)] == VERSION_1_1[j - n - m - 2];
      Blocked(b, j, 0);
    }
  }

  lemma {:induction false} NameNoBreak(verb: Method, j: nat)
    requires j < |Name(verb)|
    ensures !Breaks(Name(verb)[j])
  {
    assert Name(verb)[j] in Name(verb);
  }

  lemma {:induction false} FirstBlank(verb: Method, url: Bytes, hs: seq<Header>)
    requires AllLegal(hs) && !Contains(url, BLANK_LINE)
    ensures var b := Build(verb, url, hs); |b| >= 4 && FindFrom(b, BLANK_LINE, 0) == Some(|b| - 4)
  {
    hide Build, FieldLines, AllLegal, At, Name;
    var b, at := Build(verb, url, hs), |Name(verb)| + |url| + 10;
    BuildBytes(verb, url, hs);
    TailBlank(hs);
    FieldLinesLength(hs);
    var tail := CRLF + FieldLines(hs);
    assert b == b[..at] + tail;
    Shift(b[..at], tail, BLANK_LINE, |tail| - 4);
    forall j: nat | j < |b| - 4 ensures !At(b, BLANK_LINE, j) {
      if j >= at {
        Shift(b[..at], tail, BLANK_LINE, j - at);
      } else {
        BlankInUrl(verb, url, hs, j);
      }
    }
    FirstAt(b, BLANK_LINE, |b| - 4);
  }

  lemma {:induction false} StartLineOf(verb: Method, url: Bytes, hs: seq<Header>)
    requires url != [] && SP !in url
    ensures StartLine(Build(verb, url, hs)) == Some((StatusLine(verb, url, 1, 1), FieldLines(hs)))
  {
    hide Name, VerbOf, Version, VERSION_1_1, FieldLines, Cut;
    var tail := VERSION_1_1 + CRLF + FieldLines(hs);
    VersionIs();
    VerbOfName(verb);
    CutFirst(Name(verb), [SP], url + [SP] + tail);
    CutFirst(url, [SP], tail);
    CutFirst(VERSION_1_1, CRLF, FieldLines(hs));
  }

  lemma {:induction false} HeadersBack(hs: seq<Header>, cap: nat)
    requires AllLegal(hs) && |hs| <= cap
    ensures HeadersOf(FieldLines(hs), cap) == Good(hs)
  {
    hide FieldLine, Cut, ParseFieldLine, IsLegal;
    if hs == [] {
      CutFirst([], CRLF, []);
      assert FieldLines(hs) == [] + CRLF + [];
    } else {
      LegalLine(hs[0]);
      LineParses(hs[0]);
      CutFirst(FieldLine(hs[0]), CRLF, FieldLines(hs[1..]));
      HeadersBack(hs[1..], cap - 1);
    }
  }

  lemma {:induction false} HeadersOverflow(hs: seq<Header>, cap: nat)
    requires AllLegal(hs) && |hs| > cap
    ensures HeadersOf(FieldLines(hs), cap) == Bad(OOM)
  {
    hide FieldLine, Cut, ParseFieldLine, IsLegal;
    LegalLine(hs[0]);
    LineParses(hs[0]);
    CutFirst(FieldLine(hs[0]), CRLF, FieldLines(hs[1..]));
    if cap == 0 {
    } else {
      HeadersOverflow(hs[1..], cap - 1);
    }
  }

  // Headers that do not fit are refused for that.
  lemma {:induction false} BuildOverflows(verb: Method, url: Bytes, hs: seq<Header>, body: Bytes, cap: nat)
    requires ReadsBack(url, hs, |hs|) && |hs| > cap
    ensures RequestOf(Build(verb, url, hs) + body, cap) == Refused(OOM)
  {
    hide Build, StartLine, HeadersOf, IsLegal, FindFrom, At;
    var b := Build(verb, url, hs);
    FirstBlank(verb, url, hs);
    StartLineOf(verb, url, hs);
    HeadersOverflow(hs, cap);
    assert b[..|b|] == b;
    RequestStable(b, body, cap);
  }

  // What a request has to be for it to read back as itself, whatever its body.
  ghost predicate ReadsBack(url: Bytes, hs: seq<Header>, cap: nat) {
    url != [] && SP !in url && !Contains(url, BLANK_LINE) && AllLegal(hs) && |hs| <= cap
  }

  lemma {:induction false} BuildThenParse(verb: Method, url: Bytes, hs: seq<Header>, body: Bytes, cap: nat)
    ensures var b := Build(verb, url, hs);
            RequestOf(b + body, cap) == Whole(StatusLine(verb, url, 1, 1), hs, |b|) <==> ReadsBack(url, hs, cap)
  {
    hide RequestOf, Build, ReadsBack;
    var b := Build(verb, url, hs);
    if ReadsBack(url, hs, cap) {
      ParsesBack(verb, url, hs, cap);
      RequestStable(b, body, cap);
    }
    if RequestOf(b + body, cap) == Whole(StatusLine(verb, url, 1, 1), hs, |b|) {
      WasReadBack(verb, url, hs, body, cap);
    }
  }

  lemma {:induction false} ParsesBack(verb: Method, url: Bytes, hs: seq<Header>, cap: nat)
    requires ReadsBack(url, hs, cap)
    ensures var b := Build(verb, url, hs); RequestOf(b, cap) == Whole(StatusLine(verb, url, 1, 1), hs, |b|)
  {
    hide Build, StartLine, HeadersOf, IsLegal, FindFrom, At;
    var b := Build(verb, url, hs);
    FirstBlank(verb, url, hs);
    StartLineOf(verb, url, hs);
    HeadersBack(hs, cap);
    assert b[..|b|] == b;
  }

  lemma {:induction false} WasReadBack(verb: Method, url: Bytes, hs: seq<Header>, body: Bytes, cap: nat)
    requires var b := Build(verb, url, hs); RequestOf(b + body, cap) == Whole(StatusLine(verb, url, 1, 1), hs, |b|)
    ensures ReadsBack(url, hs, cap)
  {
    hide Build, StartLine, HeadersOf, IsLegal, At;
    var b, n := Build(verb, url, hs), |Name(verb)|;
    assert FindFrom(b + body, BLANK_LINE, 0) == Some(|b| - 4);
    forall i: nat ensures !At(url, BLANK_LINE, i) {
      BlankInUrl(verb, url, hs, i);
      NotLater(b, body, n + 1 + i);
      UrlEndsEarly(verb, url, hs, i);
    }
    forall i | 0 <= i < |hs| ensures IsLegal(hs[i]) {
      assert hs[i] in hs;
    }
  }

  lemma {:induction false} UrlEndsEarly(verb: Method, url: Bytes, hs: seq<Header>, i: nat)
    ensures At(url, BLANK_LINE, i) ==> |Name(verb)| + 1 + i < |Build(verb, url, hs)| - 4
  {
    BuildLength(verb, url, hs);
  }

  lemma {:induction false} NotLater(b: Bytes, body: Bytes, j: nat)
    ensures At(b, BLANK_LINE, j) ==> At(b + body, BLANK_LINE, j)
  {
    if At(b, BLANK_LINE, j) {
      assert (b + body)[j..j + 4] == b[j..j + 4];
    }
  }
}
