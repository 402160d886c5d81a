// HTTP/1.1 requests as http.c reads and builds them: sections 2.1, 2.3 and 5 of
// RFC 9112, sections 5.5, 5.6.2 and 5.6.3 of RFC 9110.
module Http {
  import opened Bytes

  datatype Header = Header(key: Bytes, value: Bytes)

  datatype Method = OPTIONS | GET | HEAD | POST | PUT | DELETE | TRACE | CONNECT

  datatype StatusLine = StatusLine(verb: Method, url: Bytes, major: nat, minor: nat)

  // What is made of a request: not all there yet, refused, or its start line, its
  // headers and where its body starts.
  datatype Request = Incomplete | Refused(error: ErrorKind) | Whole(line: StatusLine, headers: seq<Header>, body: nat)

  datatype Headers = Bad(error: ErrorKind) | Good(headers: seq<Header>)

  const CR: u8 := 13
  const LF: u8 := 10
  const SP: u8 := 32
  const TAB: u8 := 9
  const COLON: u8 := 58
  const SLASH: u8 := 47
  const CRLF: Bytes := [13, 10]
  const BLANK_LINE: Bytes := [13, 10, 13, 10]
  const HTTP: Bytes := [72, 84, 84, 80]

  // ---------- Finding and cutting ----------

  predicate At(h: Bytes, n: Bytes, i: nat) {
    i + |n| <= |h| && h[i..i + |n|] == n
  }

  function FindFrom(h: Bytes, n: Bytes, i: nat): (r: Option<nat>)
    ensures r.Some? ==> i <= r.value && At(h, n, r.value) && forall j :: i <= j < r.value ==> !At(h, n, j)
    ensures r.None? ==> forall j :: i <= j ==> !At(h, n, j)
    decreases |h| - i
  {
    if i + |n| > |h| then None
    else if h[i..i + |n|] == n then Some(i)
    else FindFrom(h, n, i + 1)
  }

  // The first `n` in `h`.
  method Find(h: Bytes, n: Bytes) returns (r: Option<nat>)
    ensures r == FindFrom(h, n, 0)
  {
    if |n| > |h| {
      return None;
    }
    if |n| == 0 {
      return Some(0);
    }
    for i := 0 to |h| - |n| + 1
      invariant FindFrom(h, n, 0) == FindFrom(h, n, i)
    {
      if h[i..i + |n|] == n {
        return Some(i);
      }
    }
    return None;
  }

  lemma {:induction false} FirstAt(h: Bytes, n: Bytes, i: nat)
    requires At(h, n, i) && forall j: nat :: j < i ==> !At(h, n, j)
    ensures FindFrom(h, n, 0) == Some(i)
  {
  }

  // `h` around the first `n` in it.
  function Cut(h: Bytes, n: Bytes): (r: Option<(Bytes, Bytes)>)
    ensures r.Some? ==> h == r.value.0 + n + r.value.1
    ensures r.Some? ==> forall j: nat :: j < |r.value.0| ==> !At(h, n, j)
    ensures r.None? ==> forall j: nat :: !At(h, n, j)
  {
    var at := FindFrom(h, n, 0);
    if at.None? then None
    else
      var i := at.value;
      assert h == h[..i] + h[i..i + |n|] + h[i + |n|..];
      Some((h[..i], h[i + |n|..]))
  }

  lemma {:induction false} ByteAt(h: Bytes, n: Bytes, i: nat, k: nat)
    requires k < |n|
    ensures At(h, n, i) ==> h[i + k] == n[k]
  {
    if At(h, n, i) {
      assert h[i..i + |n|][k] == h[i + k];
    }
  }

  lemma {:induction false} CutFirst(left: Bytes, n: Bytes, right: Bytes)
    requires n != [] && n[0] !in left
    ensures Cut(left + n + right, n) == Some((left, right))
  {
    var h := left + n + right;
    assert At(h, n, |left|);
    forall j: nat | j < |left| ensures !At(h, n, j) {
      assert h[j] == left[j];
      ByteAt(h, n, j, 0);
    }
    FirstAt(h, n, |left|);
  }

  lemma {:induction false} CutByte(h: Bytes, c: u8)
    ensures var r := Cut(h, [c]); if r.Some? then c !in r.value.0 else c !in h
  {
    var r := Cut(h, [c]);
    var left := if r.Some? then r.value.0 else h;
    forall j: nat | j < |left| ensures left[j] != c {
      assert !At(h, [c], j);
      assert h[j] == left[j];
      assert h[j..j + 1] == [h[j]];
    }
  }

  // ---------- A field line ----------

  predicate IsTchar(c: u8) {
    || 97 <= c <= 122 || 65 <= c <= 90 || 48 <= c <= 57
    || c in [33, 35, 36, 37, 38, 39, 42, 43, 45, 46, 94, 95, 96, 124, 126]
  }

  // The tables of section 5.6.2 of RFC 9110, and of its section 5.5, by character.
  lemma {:induction false} CharactersExact(c: u8)
    ensures var ch := c as char;
            IsTchar(c) <==> 'a' <= ch <= 'z' || 'A' <= ch <= 'Z' || '0' <= ch <= '9' || ch in "!#$%&'*+-.^_`|~"
    ensures IsOws(c) <==> c as char == ' ' || c as char == '\t'
    ensures IsFieldVchar(c) <==> '!' <= c as char <= '~' || c >= 128
  {
    var marks := "!#$%&'*+-.^_`|~";
    var codes: Bytes := [33, 35, 36, 37, 38, 39, 42, 43, 45, 46, 94, 95, 96, 124, 126];
    assert |marks| == |codes| && forall i :: 0 <= i < |codes| ==> codes[i] == marks[i] as int;
    if c as char in marks {
      var i :| 0 <= i < |marks| && marks[i] == c as char;
      assert codes[i] == c;
    }
    if c in codes {
      var i :| 0 <= i < |codes| && codes[i] == c;
      assert marks[i] == c as char;
    }
  }

  predicate IsOws(c: u8) {
    c == SP || c == TAB
  }

  predicate IsFieldVchar(c: u8) {
    0x21 <= c <= 0x7e || 0x80 <= c
  }

  predicate IsToken(s: Bytes) {
    s != [] && forall i :: 0 <= i < |s| ==> IsTchar(s[i])
  }

  predicate AllOws(s: Bytes) {
    forall i :: 0 <= i < |s| ==> IsOws(s[i])
  }

  predicate AllText(s: Bytes) {
    forall i :: 0 <= i < |s| ==> IsFieldVchar(s[i]) || IsOws(s[i])
  }

  predicate IsTrimmed(s: Bytes) {
    s == [] || (!IsOws(s[0]) && !IsOws(s[|s| - 1]))
  }

  predicate IsLegal(h: Header) {
    IsToken(h.key) && AllText(h.value) && IsTrimmed(h.value)
  }

  // How much white space `s` starts with, and how much is left once what it ends
  // with is gone.
  function Leading(s: Bytes): (k: nat)
    ensures k <= |s| && AllOws(s[..k]) && (k < |s| ==> !IsOws(s[k]))
  {
    if s == [] || !IsOws(s[0]) then 0 else
      var k := 1 + Leading(s[1..]);
      assert forall i :: 0 < i < k ==> s[i] == s[1..][i - 1];
      k
  }

  function Unpadded(s: Bytes): (k: nat)
    ensures k <= |s| && AllOws(s[k..]) && (k > 0 ==> !IsOws(s[k - 1]))
  {
    if s == [] || !IsOws(s[|s| - 1]) then |s| else Unpadded(s[..|s| - 1])
  }

  function Trim(s: Bytes): Bytes {
    var left := s[Leading(s)..];
    left[..Unpadded(left)]
  }

  lemma {:induction false} LeadingIs(s: Bytes, k: nat)
    requires k <= |s| && AllOws(s[..k]) && (k < |s| ==> !IsOws(s[k]))
    ensures Leading(s) == k
  {
    if k == 0 {
    } else {
      assert s[..k][0] == s[0];
      assert s[1..][..k - 1] == s[..k][1..];
      LeadingIs(s[1..], k - 1);
    }
  }

  lemma {:induction false} UnpaddedIs(s: Bytes, k: nat)
    requires k <= |s| && AllOws(s[k..]) && (k > 0 ==> !IsOws(s[k - 1]))
    ensures Unpadded(s) == k
  {
    if k == |s| {
    } else {
      var init := s[..|s| - 1];
      assert s[k..][|s| - 1 - k] == s[|s| - 1];
      assert init[k..] == s[k..][..|s| - 1 - k];
      UnpaddedIs(init, k);
    }
  }

  lemma {:induction false} TrimUnique(a: Bytes, value: Bytes, b: Bytes)
    requires AllOws(a) && AllOws(b) && IsTrimmed(value)
    ensures Trim(a + value + b) == value
  {
    var s := a + value + b;
    if value == [] {
      assert s == a + b;
      LeadingIs(s, |s|);
      UnpaddedIs([], 0);
    } else {
      assert s[..|a|] == a && s[|a|] == value[0];
      LeadingIs(s, |a|);
      var left := s[|a|..];
      assert left == value + b && left[|value|..] == b;
      UnpaddedIs(left, |value|);
      assert left[..|value|] == value;
    }
  }

  lemma {:induction false} TrimSplits(s: Bytes) returns (a: Bytes, b: Bytes)
    ensures s == a + Trim(s) + b && AllOws(a) && AllOws(b) && IsTrimmed(Trim(s))
  {
    hide Leading, Unpadded, AllOws, IsOws;
    var k := Leading(s);
    var left := s[k..];
    var u := Unpadded(left);
    a, b := s[..k], left[u..];
    SplitTwice(s, k, u);
    TrimmedEnds(s, k, left, u, left[..u]);
  }

  lemma {:induction false} SplitTwice(s: Bytes, k: nat, u: nat)
    requires k + u <= |s|
    ensures s == s[..k] + s[k..][..u] + s[k..][u..]
  {
  }

  lemma {:induction false} TrimmedEnds(s: Bytes, k: nat, left: Bytes, u: nat, mid: Bytes)
    requires k <= |s| && left == s[k..] && u <= |left| && mid == left[..u]
    requires k < |s| ==> !IsOws(s[k])
    requires u > 0 ==> !IsOws(left[u - 1])
    ensures IsTrimmed(mid)
  {
  }

  // `field-line = field-name ":" OWS field-value OWS`
  function ParseFieldLine(line: Bytes): Option<Header> {
    var cut := Cut(line, [COLON]);
    if cut.None? || !IsToken(cut.value.0) then None
    else
      var value := Trim(cut.value.1);
      if AllText(value) then Some(Header(cut.value.0, value)) else None
  }

  // The same, by walking a cursor in from both ends of the value.
  method ReadFieldLine(line: Bytes) returns (header: Option<Header>)
    ensures header == ParseFieldLine(line)
  {
    hide Cut, IsTchar, IsFieldVchar;
    var cut := Cut(line, [COLON]);
    if cut.None? {
      return None;
    }
    var key := cut.value.0;
    if |key| == 0 {
      return None;
    }
    for i := 0 to |key|
      invariant forall j :: 0 <= j < i ==> IsTchar(key[j])
    {
      if !IsTchar(key[i]) {
        return None;
      }
    }
    var right := cut.value.1;
    var value := TrimEnds(right);
    for i := 0 to |value|
      invariant forall j :: 0 <= j < i ==> IsFieldVchar(value[j]) || IsOws(value[j])
    {
      if !IsFieldVchar(value[i]) && !IsOws(value[i]) {
        return None;
      }
    }
    return Some(Header(key, value));
  }

  lemma {:induction false} OwsAfter(s: Bytes, k: nat)
    requires k < |s| && AllOws(s[..k]) && IsOws(s[k])
    ensures AllOws(s[..k + 1])
  {
    assert s[..k + 1] == s[..k] + [s[k]];
  }

  lemma {:induction false} OwsBefore(s: Bytes, k: nat)
    requires k < |s| && AllOws(s[k + 1..]) && IsOws(s[k])
    ensures AllOws(s[k..])
  {
    assert s[k..] == [s[k]] + s[k + 1..];
  }

  method TrimEnds(s: Bytes) returns (value: Bytes)
    ensures value == Trim(s)
  {
    hide AllOws, IsOws, Leading, Unpadded;
    var from := 0;
    NoOws();
    assert s[..0] == [];
    for i := 0 to |s|
      invariant from == i && AllOws(s[..from])
    {
      if !IsOws(s[from]) {
        break;
      }
      OwsAfter(s, from);
      from := from + 1;
    }
    LeadingIs(s, from);
    value := s[from..];
    ghost var left := value;
    assert left[|left|..] == [];
    for i := 0 to |s|
      invariant i <= |left| && |value| == |left| - i
      invariant value == left[..|value|] && AllOws(left[|value|..])
    {
      if |value| == 0 || !IsOws(value[|value| - 1]) {
        break;
      }
      OwsBefore(left, |value| - 1);
      value := value[..|value| - 1];
    }
    UnpaddedIs(left, |value|);
  }

  lemma {:induction false} NoOws()
    ensures AllOws([])
  {
  }

  predicate Spells(line: Bytes, h: Header, a: Bytes, b: Bytes) {
    AllOws(a) && AllOws(b) && line == h.key + [COLON] + (a + h.value + b)
  }

  // Exactly the field lines of the grammar are taken, each as the one header it
  // spells.
  lemma {:induction false} ParseFieldLineExact(line: Bytes, h: Header)
    ensures ParseFieldLine(line) == Some(h) <==> IsLegal(h) && exists a, b :: Spells(line, h, a, b)
  {
    hide Cut, Trim;
    var cut := Cut(line, [COLON]);
    if ParseFieldLine(line) == Some(h) {
      var a, b := TrimSplits(cut.value.1);
      CutParts(line, [COLON]);
      assert Spells(line, h, a, b);
    }
    if IsLegal(h) && exists a, b :: Spells(line, h, a, b) {
      var a, b :| Spells(line, h, a, b);
      SpelledParses(line, h, a, b);
    }
  }

  lemma {:induction false} CutParts(h: Bytes, n: Bytes)
    ensures Cut(h, n).Some? ==> h == Cut(h, n).value.0 + n + Cut(h, n).value.1
  {
  }

  lemma {:induction false} SpelledParses(line: Bytes, h: Header, a: Bytes, b: Bytes)
    requires IsLegal(h) && Spells(line, h, a, b)
    ensures ParseFieldLine(line) == Some(h)
  {
    hide Cut, Trim;
    assert COLON !in h.key by {
      assert !IsTchar(COLON);
    }
    CutFirst(h.key, [COLON], a + h.value + b);
    TrimUnique(a, h.value, b);
  }

  // ---------- The headers ----------

  function Ahead(h: Header, rest: Headers): Headers {
    if rest.Good? then Good([h] + rest.headers) else rest
  }

  // Field lines up to and with the empty line that ends them, at most `cap`.
  function HeadersOf(src: Bytes, cap: nat): (r: Headers)
    ensures r.Good? ==> |r.headers| <= cap && forall h | h in r.headers :: IsLegal(h)
    decreases |src|
  {
    var cut := Cut(src, CRLF);
    if cut.None? then Bad(InvalidData)
    else if cut.value.0 == [] then Good([])
    else if cap == 0 then Bad(OOM)
    else
      var h := ParseFieldLine(cut.value.0);
      if h.None? then Bad(InvalidData)
      else
        LegalWhenParsed(cut.value.0, h.value);
        Ahead(h.value, HeadersOf(cut.value.1, cap - 1))
  }

  lemma {:induction false} LegalWhenParsed(line: Bytes, h: Header)
    requires ParseFieldLine(line) == Some(h)
    ensures IsLegal(h)
  {
    hide ParseFieldLine;
    ParseFieldLineExact(line, h);
  }

  // What the whole parse comes to once `done` headers are in the array.
  function After(done: seq<Header>, rest: Headers): Headers {
    if rest.Good? then Good(done + rest.headers) else rest
  }

  lemma {:induction false} AfterAhead(done: seq<Header>, h: Header, rest: Headers)
    ensures After(done, Ahead(h, rest)) == After(done + [h], rest)
  {
    if rest.Good? {
      assert done + ([h] + rest.headers) == done + [h] + rest.headers;
    }
  }

  // Fills `headers` from the front. The bound on the lines is never what ends
  // the loop.
  method ParseHeaders(src: Bytes, headers: array<Header>) returns (error: Option<ErrorKind>, len: nat)
    modifies headers
    ensures len <= headers.Length
    ensures HeadersOf(src, headers.Length) == if error.Some? then Bad(error.value) else Good(headers[..len])
  {
    hide Cut, ParseFieldLine, CRLF;
    var remaining := src;
    len := 0;
    assert After([], HeadersOf(src, headers.Length)) == HeadersOf(src, headers.Length);
    for i := 0 to |src| / 2 + 1
      invariant len <= headers.Length && len <= i
      invariant |remaining| + 2 * i <= |src|
      invariant HeadersOf(src, headers.Length) == After(headers[..len], HeadersOf(remaining, headers.Length - len))
    {
      var line := Cut(remaining, CRLF);
      if line.None? {
        return Some(InvalidData), len;
      }
      CutShorter(remaining);
      if line.value.0 == [] {
        return None, len;
      }
      if len == headers.Length {
        return Some(OOM), len;
      }
      var header := ReadFieldLine(line.value.0);
      if header.None? {
        return Some(InvalidData), len;
      }
      AfterAhead(headers[..len], header.value, HeadersOf(line.value.1, headers.Length - len - 1));
      remaining := line.value.1;
      headers[len] := header.value;
      len := len + 1;
      assert headers[..len] == headers[..len - 1] + [header.value];
    }
    assert false;
  }

  lemma {:induction false} CutShorter(s: Bytes)
    ensures Cut(s, CRLF).Some? ==> |Cut(s, CRLF).value.1| + 2 <= |s|
  {
  }

  // ---------- The start line ----------

  function Name(verb: Method): (s: Bytes)
    ensures 3 <= |s| <= 7 && forall c | c in s :: 65 <= c <= 90
  {
    match verb
    case OPTIONS => [79, 80, 84, 73, 79, 78, 83]
    case GET => [71, 69, 84]
    case HEAD => [72, 69, 65, 68]
    case POST => [80, 79, 83, 84]
    case PUT => [80, 85, 84]
    case DELETE => [68, 69, 76, 69, 84, 69]
    case TRACE => [84, 82, 65, 67, 69]
    case CONNECT => [67, 79, 78, 78, 69, 67, 84]
  }

  function VerbOf(s: Bytes): (r: Option<Method>)
    ensures r.Some? ==> Name(r.value) == s
  {
    if s == Name(OPTIONS) then Some(OPTIONS)
    else if s == Name(GET) then Some(GET)
    else if s == Name(HEAD) then Some(HEAD)
    else if s == Name(POST) then Some(POST)
    else if s == Name(PUT) then Some(PUT)
    else if s == Name(DELETE) then Some(DELETE)
    else if s == Name(TRACE) then Some(TRACE)
    else if s == Name(CONNECT) then Some(CONNECT)
    else None
  }

  lemma {:induction false} VerbOfName(verb: Method)
    ensures VerbOf(Name(verb)) == Some(verb)
  {
  }

  // `"HTTP/" DIGIT "." DIGIT`
  function Version(s: Bytes): Option<(nat, nat)> {
    var cut := Cut(s, [SLASH]);
    if cut.None? || cut.value.0 != HTTP then None
    else
      var v := cut.value.1;
      if |v| == 3 && IsDigit(v[0]) && v[1] == 46 && IsDigit(v[2])
      then Some((v[0] as nat - 48, v[2] as nat - 48)) else None
  }

  // A start line off the front of `src`, and what is behind it.
  function StartLine(src: Bytes): (r: Option<(StatusLine, Bytes)>)
    ensures r.Some? ==> r.value.0.url != [] && SP !in r.value.0.url
  {
    var first := Cut(src, [SP]);
    if first.None? || VerbOf(first.value.0).None? then None
    else
      var second := Cut(first.value.1, [SP]);
      CutByte(first.value.1, SP);
      if second.None? || second.value.0 == [] then None
      else
        var third := Cut(second.value.1, CRLF);
        if third.None? || third.value.0 == [] then None
        else
          var version := Version(third.value.0);
          if version.None? then None
          else
            var line := StatusLine(VerbOf(first.value.0).value, second.value.0, version.value.0, version.value.1);
            Some((line, third.value.1))
  }

  function Spelling(verb: Method): string {
    match verb
    case OPTIONS => "OPTIONS"
    case GET => "GET"
    case HEAD => "HEAD"
    case POST => "POST"
    case PUT => "PUT"
    case DELETE => "DELETE"
    case TRACE => "TRACE"
    case CONNECT => "CONNECT"
  }

  lemma {:induction false} NameSpelled(verb: Method)
    ensures forall i :: 0 <= i < |Spelling(verb)| ==> Spelling(verb)[i] < 128 as char
    ensures Name(verb) == Ascii(Spelling(verb))
  {
  }

  // The format of section 2.3 of RFC 9112, of any two digits.
  function VersionText(major: nat, minor: nat): Bytes
    requires major <= 9 && minor <= 9
  {
    Ascii("HTTP/") + [48 + major] + Ascii(".") + [48 + minor]
  }

  lemma {:induction false} VersionExact(s: Bytes, major: nat, minor: nat)
    ensures Version(s) == Some((major, minor)) <==> major <= 9 && minor <= 9 && s == VersionText(major, minor)
  {
    hide Cut;
    assert Ascii("HTTP/") == HTTP + [SLASH] && Ascii(".") == [46];
    if major <= 9 && minor <= 9 && s == VersionText(major, minor) {
      var v := [48 + major, 46, 48 + minor];
      CutFirst(HTTP, [SLASH], v);
      assert s == HTTP + [SLASH] + v;
    }
    if Version(s) == Some((major, minor)) {
      CutParts(s, [SLASH]);
      var v := Cut(s, [SLASH]).value.1;
      assert v == [48 + major, 46, 48 + minor];
    }
  }

  // The start line of section 3 of RFC 9112 is read exactly where it stands.
  lemma {:induction false} StartLineExact(src: Bytes, line: StatusLine, rest: Bytes)
    ensures StartLine(src) == Some((line, rest))
       <==> && line.url != [] && SP !in line.url && line.major <= 9 && line.minor <= 9
            && src == Name(line.verb) + [SP] + (line.url + [SP] + (VersionText(line.major, line.minor) + CRLF + rest))
  {
    hide Cut, Name, Version, VerbOf;
    if StartLine(src) == Some((line, rest)) {
      StartLineParts(src, line, rest);
    }
    if line.url != [] && SP !in line.url && line.major <= 9 && line.minor <= 9 {
      StartLineReads(line, rest);
    }
  }

  lemma {:induction false} StartLineParts(src: Bytes, line: StatusLine, rest: Bytes)
    requires StartLine(src) == Some((line, rest))
    ensures line.url != [] && SP !in line.url && line.major <= 9 && line.minor <= 9
    ensures src == Name(line.verb) + [SP] + (line.url + [SP] + (VersionText(line.major, line.minor) + CRLF + rest))
  {
    hide Cut, Name, Version, VerbOf, VersionText;
    CutParts(src, [SP]);
    var first := Cut(src, [SP]).value;
    CutParts(first.1, [SP]);
    CutByte(first.1, SP);
    var second := Cut(first.1, [SP]).value;
    CutParts(second.1, CRLF);
    var third := Cut(second.1, CRLF).value;
    VersionExact(third.0, line.major, line.minor);
    VerbOfParsed(first.0);
  }

  lemma {:induction false} VerbOfParsed(s: Bytes)
    ensures VerbOf(s).Some? ==> Name(VerbOf(s).value) == s
  {
  }

  lemma {:induction false} StartLineReads(line: StatusLine, rest: Bytes)
    requires line.url != [] && SP !in line.url && line.major <= 9 && line.minor <= 9
    ensures StartLine(Name(line.verb) + [SP] + (line.url + [SP] + (VersionText(line.major, line.minor) + CRLF + rest)))
         == Some((line, rest))
  {
    hide Cut, Name, Version, VerbOf;
    var version := VersionText(line.major, line.minor);
    NameNoSpace(line.verb);
    VersionExact(version, line.major, line.minor);
    VersionNoCr(line.major, line.minor);
    VerbOfName(line.verb);
    hide VersionText;
    CutFirst(Name(line.verb), [SP], line.url + [SP] + (version + CRLF + rest));
    CutFirst(line.url, [SP], version + CRLF + rest);
    CutFirst(version, CRLF, rest);
  }

  lemma {:induction false} NameNoSpace(verb: Method)
    ensures SP !in Name(verb)
  {
  }

  lemma {:induction false} VersionNoCr(major: nat, minor: nat)
    requires major <= 9 && minor <= 9
    ensures VersionText(major, minor) != [] && CR !in VersionText(major, minor)
  {
    assert Ascii("HTTP/") == HTTP + [SLASH] && Ascii(".") == [46];
  }

  // ---------- The request ----------

  function RequestOf(src: Bytes, cap: nat): Request {
    var blank := FindFrom(src, BLANK_LINE, 0);
    if blank.None? then Incomplete
    else
      var end := blank.value + 4;
      var start := StartLine(src[..end]);
      if start.None? then Refused(InvalidData)
      else
        match HeadersOf(start.value.1, cap)
        case Bad(error) => Refused(error)
        case Good(headers) => Whole(start.value.0, headers, end)
  }

  method ParseRequest(src: Bytes, headers: array<Header>)
    returns (error: Option<ErrorKind>, line: StatusLine, len: nat, body: nat)
    modifies headers
    ensures len <= headers.Length
    ensures RequestOf(src, headers.Length)
         == if error.Some? then (if error.value.Again? then Incomplete else Refused(error.value))
            else Whole(line, headers[..len], body)
  {
    hide StartLine, HeadersOf;
    line, len, body := StatusLine(GET, [], 0, 0), 0, 0;
    var blank := Find(src, BLANK_LINE);
    if blank.None? {
      return Some(Again), line, len, body;
    }
    var end := blank.value + 4;
    var start := StartLine(src[..end]);
    if start.None? {
      return Some(InvalidData), line, len, body;
    }
    NeverAgain(start.value.1, headers.Length);
    error, len := ParseHeaders(start.value.1, headers);
    return error, start.value.0, len, end;
  }

  lemma {:induction false} NeverAgain(src: Bytes, cap: nat)
    ensures HeadersOf(src, cap) != Bad(Again)
    decreases |src|
  {
    hide Cut, ParseFieldLine;
    var cut := Cut(src, CRLF);
    if cut.None? || cut.value.0 == [] || cap == 0 {
    } else {
      CutShorter(src);
      NeverAgain(cut.value.1, cap - 1);
    }
  }

  // Any answer but that it is not all there stays, whatever more arrives.
  lemma {:induction false} RequestStable(a: Bytes, more: Bytes, cap: nat)
    requires RequestOf(a, cap) != Incomplete
    ensures RequestOf(a + more, cap) == RequestOf(a, cap)
  {
    hide StartLine, HeadersOf;
    var i := FindFrom(a, BLANK_LINE, 0).value;
    assert (a + more)[..i + 4] == a[..i + 4];
    assert (a + more)[i..i + 4] == a[i..i + 4];
    forall j: nat | j < i ensures !At(a + more, BLANK_LINE, j) {
      assert (a + more)[j..j + 4] == a[j..j + 4];
      assert !At(a, BLANK_LINE, j);
    }
    FirstAt(a + more, BLANK_LINE, i);
  }
}
