/** What the local proxy makes of a client's first bytes
    (src/core/local_proxy/socks.rs and http.rs). Decoding of text and of URLs
    is a parameter. */
module ProxySteps {
  import opened Bytes
  import opened Wrappers

  datatype ProxyError =
    | GeneralFailure | HostUnreachable | ConnectionRefused | GatewayTimeout
    | CommandNotSupported | AddressNotSupported | BadRequest

  datatype HttpMode = ByConnect | ByForward

  datatype State = SocksGreeting | SocksRequest | HttpHead | Resolving | Connecting | Established | Closing

  datatype Target = Address(ip: seq<byte>) | Text(name: seq<byte>)

  datatype Step =
    | Wait
    | Reply(bytes: seq<byte>, consumed: nat, next: State)
    | Open(target: Target, port: u16, consumed: nat, mode: Option<HttpMode>, rewritten: Option<seq<byte>>)
    | Fail(error: ProxyError)

  datatype Url = Url(scheme: seq<byte>, host: Option<seq<byte>>, port: Option<u16>, path: seq<byte>,
                     query: Option<seq<byte>>)

  /** Library code: is this UTF-8, what URL is it, what host and port does it
      name, what IPv4 address is it. */
  datatype Library = Library(
    utf8: seq<byte> -> bool,
    url: seq<byte> -> Option<Url>,
    hostPort: seq<byte> -> Option<(seq<byte>, u16)>,
    ipv4: seq<byte> -> Option<seq<byte>>)

  // ------------------------------------------------------------------ SOCKS

  function Greeting(input: seq<byte>): Step {
    if |input| < 2 then Wait
    else
      var methods: int := input[1];
      if |input| < 2 + methods then Wait
      else if input[0] != 5 || 0 !in input[2..2 + methods] then Reply([5, 0xFF], 0, Closing)
      else Reply([5, 0], 2 + methods, SocksRequest)
  }

  function SocksConnect(lib: Library, input: seq<byte>): Step {
    if |input| < 4 then Wait
    else if input[0] != 5 || input[1] != 1 then Fail(CommandNotSupported)
    else if input[3] == 1 then
      if |input| < 10 then Wait
      else Open(Address(input[4..8]), FromBE16(input[8..]), 10, None, None)
    else if input[3] == 3 then
      if |input| < 5 then Wait
      else
        var len: int := input[4];
        if len == 0 || |input| < len + 7 then Wait
        else if !lib.utf8(input[5..5 + len]) then Fail(HostUnreachable)
        else Open(Text(input[5..5 + len]), FromBE16(input[5 + len..]), len + 7, None, None)
    else Fail(AddressNotSupported)
  }

  /** A decision on a greeting does not depend on what else has arrived. */
  lemma GreetingStable(input: seq<byte>, more: seq<byte>)
    requires Greeting(input) != Wait
    ensures Greeting(input + more) == Greeting(input)
    ensures Greeting(input).Reply? && Greeting(input).consumed <= |input|
  {
    assert (input + more)[2..2 + (input[1] as int)] == input[2..2 + (input[1] as int)];
  }

  /** Nor does a decision on a request. */
  lemma SocksConnectStable(lib: Library, input: seq<byte>, more: seq<byte>)
    requires SocksConnect(lib, input) != Wait
    ensures SocksConnect(lib, input + more) == SocksConnect(lib, input)
    ensures SocksConnect(lib, input).Open? ==> SocksConnect(lib, input).consumed <= |input|
  {
    var all := input + more;
    if input[0] == 5 && input[1] == 1 && input[3] == 1 {
      assert all[4..8] == input[4..8] && all[8..][..2] == input[8..][..2];
    } else if input[0] == 5 && input[1] == 1 && input[3] == 3 {
      var len: int := input[4];
      assert all[5..5 + len] == input[5..5 + len] && all[5 + len..][..2] == input[5 + len..][..2];
    }
  }

  /** A greeting as section 3 of RFC 1928 lays it out is used up exactly,
      whatever follows it. */
  lemma GreetingUsedUp(methods: seq<byte>, rest: seq<byte>)
    requires |methods| <= 255
    ensures Greeting([5, |methods|] + methods + rest)
            == if 0 in methods then Reply([5, 0], 2 + |methods|, SocksRequest) else Reply([5, 0xFF], 0, Closing)
  {
    var input := [5, |methods|] + methods + rest;
    assert input[2..2 + |methods|] == methods;
  }

  /** A CONNECT request as section 4 of RFC 1928 lays it out, for an IPv4
      address or a domain name. */
  function SocksEncoded(reserved: byte, target: Target, port: u16): seq<byte>
    requires SocksTarget(target)
  {
    match target
    case Address(ip) => [5, 1, reserved, 1] + ip + BE16(port)
    case Text(name) => [5, 1, reserved, 3, |name|] + name + BE16(port)
  }

  predicate SocksTarget(target: Target) {
    match target
    case Address(ip) => |ip| == 4
    case Text(name) => 1 <= |name| <= 255
  }

  lemma SocksUsedUp(lib: Library, reserved: byte, target: Target, port: u16, rest: seq<byte>)
    requires SocksTarget(target) && (target.Text? ==> lib.utf8(target.name))
    ensures var request := SocksEncoded(reserved, target, port);
            SocksConnect(lib, request + rest) == Open(target, port, |request|, None, None)
  {
    var request := SocksEncoded(reserved, target, port);
    var input := request + rest;
    BE16RoundTrip(port, rest);
    match target {
      case Address(ip) =>
        assert input[4..8] == ip && input[8..] == BE16(port) + rest;
      case Text(name) =>
        assert input[5..5 + |name|] == name && input[5 + |name|..] == BE16(port) + rest;
    }
  }

  /** A connection is asked for exactly when the input starts with a request
      for it, and exactly that request is used up. */
  lemma SocksConnectIff(lib: Library, input: seq<byte>, target: Target, port: u16, n: nat)
    ensures SocksConnect(lib, input) == Open(target, port, n, None, None)
       <==> SocksTarget(target) && (target.Text? ==> lib.utf8(target.name))
            && |input| >= 3 && n <= |input| && input[..n] == SocksEncoded(input[2], target, port)
  {
    if SocksConnect(lib, input) == Open(target, port, n, None, None) {
      SocksAsked(lib, input, target, port, n);
    }
    if SocksTarget(target) && (target.Text? ==> lib.utf8(target.name))
       && |input| >= 3 && n <= |input| && input[..n] == SocksEncoded(input[2], target, port) {
      hide SocksConnect, SocksEncoded;
      SocksUsedUp(lib, input[2], target, port, input[n..]);
      assert input == input[..n] + input[n..];
    }
  }

  lemma SocksAsked(lib: Library, input: seq<byte>, target: Target, port: u16, n: nat)
    requires SocksConnect(lib, input) == Open(target, port, n, None, None)
    ensures SocksTarget(target) && (target.Text? ==> lib.utf8(target.name))
    ensures 3 <= n <= |input| && input[..n] == SocksEncoded(input[2], target, port)
  {
    hide FromBE16, BE16;
    match target {
      case Address(ip) =>
        PortBytes(input, 8);
        assert input[..n] == input[..4] + input[4..8] + input[8..10];
      case Text(name) =>
        PortBytes(input, 5 + |name|);
        assert input[..n] == input[..5] + input[5..5 + |name|] + input[5 + |name|..7 + |name|];
    }
  }

  lemma PortBytes(s: seq<byte>, k: nat)
    requires k + 2 <= |s|
    ensures BE16(FromBE16(s[k..])) == s[k..k + 2]
  {
  }

  // ------------------------------------------------------------------- HTTP

  const CR: byte := 0x0D
  const LF: byte := 0x0A
  const SPACE: byte := 0x20
  const COLON: byte := 0x3A
  const QUESTION: byte := 0x3F
  const SLASH: byte := 0x2F
  const MAX_HTTP_HEAD: nat := 65536

  predicate EndsHead(s: seq<byte>, i: nat) {
    i + 4 <= |s| && s[i] == CR && s[i + 1] == LF && s[i + 2] == CR && s[i + 3] == LF
  }

  /** Where the first blank line starts, from position i on. */
  function HeadEndFrom(s: seq<byte>, i: nat): (r: Option<nat>)
    ensures match r
            case Some(e) => i <= e && EndsHead(s, e) && forall j | i <= j < e :: !EndsHead(s, j)
            case None => forall j | i <= j :: !EndsHead(s, j)
    decreases |s| - i
  {
    if i + 4 > |s| then None
    else if EndsHead(s, i) then Some(i)
    else HeadEndFrom(s, i + 1)
  }

  function FindHeaderEnd(s: seq<byte>): (r: Option<nat>) {
    HeadEndFrom(s, 0)
  }

  /** The first blank line stays the first when bytes are appended. */
  lemma HeadEndStable(s: seq<byte>, more: seq<byte>)
    requires FindHeaderEnd(s).Some?
    ensures FindHeaderEnd(s + more) == FindHeaderEnd(s)
  {
    var e := FindHeaderEnd(s).value;
    var all := s + more;
    assert EndsHead(all, e);
    forall j | 0 <= j < e ensures !EndsHead(all, j) {
      assert !EndsHead(s, j);
    }
  }

  /** The position of the first CR LF from i on, or the length. */
  function LineEnd(s: seq<byte>, i: nat): (e: nat)
    requires i <= |s|
    ensures i <= e <= |s|
    ensures e < |s| ==> e + 2 <= |s| && s[e] == CR && s[e + 1] == LF
    ensures forall j | i <= j < e && j + 1 < |s| :: !(s[j] == CR && s[j + 1] == LF)
    decreases |s| - i
  {
    if i + 2 > |s| then |s|
    else if s[i] == CR && s[i + 1] == LF then i
    else LineEnd(s, i + 1)
  }

  function Lines(s: seq<byte>): (lines: seq<seq<byte>>)
    ensures lines != []
    decreases |s|
  {
    var e := LineEnd(s, 0);
    if e == |s| then [s] else [s[..e]] + Lines(s[e + 2..])
  }

  predicate IsSpace(b: byte) {
    9 <= b <= 13 || b == SPACE
  }

  function SkipSpace(s: seq<byte>): (r: seq<byte>)
    ensures |r| <= |s| && (r != [] ==> !IsSpace(r[0]))
  {
    if s != [] && IsSpace(s[0]) then SkipSpace(s[1..]) else s
  }

  function WordLength(s: seq<byte>): (n: nat)
    ensures n <= |s| && (forall i | 0 <= i < n :: !IsSpace(s[i])) && (s != [] && !IsSpace(s[0]) ==> n > 0)
  {
    if s == [] || IsSpace(s[0]) then 0 else 1 + WordLength(s[1..])
  }

  /** The words between white space. */
  function Words(s: seq<byte>): (words: seq<seq<byte>>)
    ensures forall w | w in words :: forall i | 0 <= i < |w| :: !IsSpace(w[i])
    decreases |s|
  {
    var t := SkipSpace(s);
    if t == [] then []
    else
      var n := WordLength(t);
      [t[..n]] + Words(t[n..])
  }

  function Lower(b: byte): byte {
    if 0x41 <= b <= 0x5A then (b as int) + 0x20 else b
  }

  predicate SameText(a: seq<byte>, b: seq<byte>) {
    |a| == |b| && forall i | 0 <= i < |a| :: Lower(a[i]) == Lower(b[i])
  }

  function TrimEnd(s: seq<byte>): seq<byte> {
    if s != [] && IsSpace(s[|s| - 1]) then TrimEnd(s[..|s| - 1]) else s
  }

  function BeforeColon(s: seq<byte>): seq<byte> {
    if s == [] || s[0] == COLON then [] else [s[0]] + BeforeColon(s[1..])
  }

  function FieldName(line: seq<byte>): seq<byte> {
    TrimEnd(SkipSpace(BeforeColon(line)))
  }

  /** Headers that concern the connection to the proxy alone. */
  predicate HopByHop(line: seq<byte>) {
    var name := FieldName(line);
    SameText(name, Ascii("Proxy-Connection")) || SameText(name, Ascii("Proxy-Authorization"))
    || SameText(name, Ascii("Connection")) || SameText(name, Ascii("Keep-Alive"))
  }

  /** The header lines passed on, in order. */
  function Kept(lines: seq<seq<byte>>): (kept: seq<seq<byte>>) {
    if lines == [] then []
    else
      var l := lines[|lines| - 1];
      Kept(lines[..|lines| - 1]) + (if l == [] || HopByHop(l) then [] else [l])
  }

  function JoinLines(lines: seq<seq<byte>>): seq<byte> {
    if lines == [] then [] else JoinLines(lines[..|lines| - 1]) + lines[|lines| - 1] + [CR, LF]
  }

  function PathOf(u: Url): seq<byte> {
    (if u.path == [] then [SLASH] else u.path) + (if u.query.Some? then [QUESTION] + u.query.value else [])
  }

  /** The lines of the head sent on: the request line with the path alone, the
      kept headers, and the connection closed after the answer. */
  function ForwardLines(request: seq<seq<byte>>, u: Url, headers: seq<seq<byte>>): seq<seq<byte>>
    requires |request| >= 3
  {
    [request[0] + [SPACE] + PathOf(u) + [SPACE] + request[2]] + Kept(headers) + [Ascii("Connection: close")]
  }

  datatype Head = ConnectTo(host: seq<byte>, port: u16) | ForwardTo(host: seq<byte>, port: u16, rewritten: seq<byte>)
    | BadHead(error: ProxyError)

  function ParseHead(lib: Library, head: seq<byte>): Head {
    if !lib.utf8(head) then BadHead(BadRequest)
    else
      var lines := Lines(head);
      var words := Words(lines[0]);
      if |words| < 3 || !(Ascii("HTTP/") <= words[2]) then BadHead(BadRequest)
      else if SameText(words[0], Ascii("CONNECT")) then
        match lib.hostPort(words[1])
        case None => BadHead(BadRequest)
        case Some(target) => ConnectTo(target.0, target.1)
      else
        match lib.url(words[1])
        case None => BadHead(BadRequest)
        case Some(u) =>
          if u.scheme != Ascii("http") then BadHead(CommandNotSupported)
          else if u.host.None? || u.port.None? then BadHead(BadRequest)
          else ForwardTo(u.host.value, u.port.value, JoinLines(ForwardLines(words, u, lines[1..])) + [CR, LF])
  }

  function HeadStep(h: Head, consumed: nat): Step {
    match h
    case BadHead(error) => Fail(error)
    case ConnectTo(host, port) => Open(Text(host), port, consumed, Some(ByConnect), None)
    case ForwardTo(host, port, rewritten) => Open(Text(host), port, consumed, Some(ByForward), Some(rewritten))
  }

  function HttpRequest(lib: Library, input: seq<byte>): Step {
    match FindHeaderEnd(input)
    case None => if |input| > MAX_HTTP_HEAD then Fail(BadRequest) else Wait
    case Some(end) => HeadStep(ParseHead(lib, input[..end]), end + 4)
  }

  method ParseHttpRequest(lib: Library, input: seq<byte>) returns (step: Step)
    ensures step == HttpRequest(lib, input)
  {
    hide Lines, Words, SameText, HopByHop, Ascii, FindHeaderEnd;
    var found := FindHeaderEnd(input);
    if found.None? {
      return if |input| > MAX_HTTP_HEAD then Fail(BadRequest) else Wait;
    }
    assert EndsHead(input, found.value) by { HeadEndIn(input); }
    var end := found.value;
    var consumed := end + 4;
    var head := input[..end];
    if !lib.utf8(head) {
      return Fail(BadRequest);
    }
    var lines := Lines(head);
    var words := Words(lines[0]);
    if |words| < 3 || !(Ascii("HTTP/") <= words[2]) {
      return Fail(BadRequest);
    }
    if SameText(words[0], Ascii("CONNECT")) {
      var target := lib.hostPort(words[1]);
      return if target.None? then Fail(BadRequest)
             else Open(Text(target.value.0), target.value.1, consumed, Some(ByConnect), None);
    }
    var url := lib.url(words[1]);
    if url.None? {
      return Fail(BadRequest);
    }
    var u := url.value;
    if u.scheme != Ascii("http") {
      return Fail(CommandNotSupported);
    }
    if u.host.None? || u.port.None? {
      return Fail(BadRequest);
    }
    var rewritten := Rewrite(words, u, lines[1..]);
    step := Open(Text(u.host.value), u.port.value, consumed, Some(ByForward), Some(rewritten));
  }

  lemma HeadEndIn(s: seq<byte>)
    ensures FindHeaderEnd(s).Some? ==> EndsHead(s, FindHeaderEnd(s).value)
  {
  }

  method Rewrite(request: seq<seq<byte>>, u: Url, headers: seq<seq<byte>>) returns (rewritten: seq<byte>)
    requires |request| >= 3
    ensures rewritten == JoinLines(ForwardLines(request, u, headers)) + [CR, LF]
  {
    hide HopByHop, Ascii;
    var path := u.path;
    if path == [] {
      path := path + [SLASH];
    }
    if u.query.Some? {
      path := path + [QUESTION] + u.query.value;
    }
    var first := request[0] + [SPACE] + path + [SPACE] + request[2];
    assert path == PathOf(u);
    rewritten := first + [CR, LF];
    ghost var sent := [first];
    assert [first][..0] == sent[..0] && sent[..0] == [];
    assert JoinLines([first]) == JoinLines([]) + first + [CR, LF];
    for i := 0 to |headers|
      invariant sent == [first] + Kept(headers[..i])
      invariant rewritten == JoinLines(sent)
    {
      var line := headers[i];
      assert headers[..i + 1][..i] == headers[..i];
      if line == [] || HopByHop(line) {
        continue;
      }
      assert (sent + [line])[..|sent|] == sent;
      sent := sent + [line];
      rewritten := rewritten + line + [CR, LF];
    }
    assert headers[..|headers|] == headers;
    var last := Ascii("Connection: close");
    assert (sent + [last])[..|sent|] == sent;
    rewritten := rewritten + last + [CR, LF, CR, LF];
  }

  /** An HTTP request once acted on would be acted on the same way with more
      bytes there. */
  lemma HttpRequestStable(lib: Library, input: seq<byte>, more: seq<byte>)
    requires FindHeaderEnd(input).Some?
    ensures HttpRequest(lib, input + more) == HttpRequest(lib, input)
    ensures HttpRequest(lib, input).Open? ==> HttpRequest(lib, input).consumed <= |input|
  {
    hide ParseHead, FindHeaderEnd;
    HeadEndStable(input, more);
    HeadEndIn(input);
    var end := FindHeaderEnd(input).value;
    assert (input + more)[..end] == input[..end];
  }

  /** A decided request is decided the same way with more bytes there exactly
      unless it was refused for its length and its head, now complete, is not
      one that is refused as bad anyway. */
  lemma HttpStableIff(lib: Library, input: seq<byte>, more: seq<byte>)
    requires HttpRequest(lib, input) != Wait
    ensures FindHeaderEnd(input).Some? ==> HttpRequest(lib, input + more) == HttpRequest(lib, input)
    ensures FindHeaderEnd(input).None? ==> |input| > MAX_HTTP_HEAD && HttpRequest(lib, input) == Fail(BadRequest)
    ensures HttpRequest(lib, input + more) == HttpRequest(lib, input)
       <==> (FindHeaderEnd(input).Some?
             || match FindHeaderEnd(input + more)
                case None => true
                case Some(end) => ParseHead(lib, (input + more)[..end]) == BadHead(BadRequest))
  {
    hide ParseHead, FindHeaderEnd;
    if FindHeaderEnd(input).Some? {
      HttpRequestStable(lib, input, more);
    }
  }

  /** Nothing is decided exactly while no header end is there and the input is
      within the limit; without a header end the only decision is a refusal. */
  lemma HttpUndecidedIff(lib: Library, input: seq<byte>)
    ensures HttpRequest(lib, input) == Wait <==> FindHeaderEnd(input).None? && |input| <= MAX_HTTP_HEAD
    ensures FindHeaderEnd(input).None? && |input| > MAX_HTTP_HEAD ==> HttpRequest(lib, input) == Fail(BadRequest)
  {
    hide ParseHead, FindHeaderEnd;
  }

  /** What is decided on a prefix of a stream with a complete head: the stream's
      own decision once the head is there, and before that nothing, or a
      refusal past the limit. */
  lemma PrefixDecision(lib: Library, input: seq<byte>, n: nat)
    requires FindHeaderEnd(input).Some? && n <= |input|
    ensures var e := FindHeaderEnd(input).value;
            HttpRequest(lib, input[..n])
            == if n >= e + 4 then HttpRequest(lib, input) else if n > MAX_HTTP_HEAD then Fail(BadRequest) else Wait
  {
    hide ParseHead;
    var e := FindHeaderEnd(input).value;
    var front := input[..n];
    assert input == front + input[n..];
    if n >= e + 4 {
      assert EndsHead(front, e);
      HttpRequestStable(lib, front, input[n..]);
    } else {
      forall j | 0 <= j ensures !EndsHead(front, j) {
        assert j < e ==> !EndsHead(input, j);
      }
    }
  }

  /** The outcome for a complete head does not depend on how its bytes arrive,
      every prefix being undecided or decided as the whole, exactly when the
      head ends within the limit and three bytes or is refused as bad anyway. */
  lemma HttpArrivalsIff(lib: Library, input: seq<byte>)
    requires FindHeaderEnd(input).Some?
    ensures (forall n | 0 <= n <= |input| ::
               HttpRequest(lib, input[..n]) == Wait || HttpRequest(lib, input[..n]) == HttpRequest(lib, input))
       <==> FindHeaderEnd(input).value + 3 <= MAX_HTTP_HEAD || HttpRequest(lib, input) == Fail(BadRequest)
  {
    HeadEndIn(input);
    hide HttpRequest, FindHeaderEnd;
    forall n | 0 <= n <= |input|
      ensures var e := FindHeaderEnd(input).value;
              HttpRequest(lib, input[..n])
              == if n >= e + 4 then HttpRequest(lib, input) else if n > MAX_HTTP_HEAD then Fail(BadRequest) else Wait
    {
      PrefixDecision(lib, input, n);
    }
    var n := FindHeaderEnd(input).value + 3;
    PrefixDecision(lib, input, n);
  }

  /** The line before the first CR LF. */
  lemma {:induction false} FirstLineEnd(l: seq<byte>, rest: seq<byte>, i: nat)
    requires NoBreaks(l) && i <= |l|
    ensures LineEnd(l + [CR, LF] + rest, i) == |l|
    decreases |l| - i
  {
    var s := l + [CR, LF] + rest;
    if i < |l| {
      assert s[i] == l[i];
      FirstLineEnd(l, rest, i + 1);
    } else {
      assert s[i] == CR && s[i + 1] == LF;
    }
  }

  lemma FirstLine(l: seq<byte>, rest: seq<byte>)
    requires NoBreaks(l)
    ensures Lines(l + [CR, LF] + rest)[0] == l
  {
    FirstLineEnd(l, rest, 0);
    assert (l + [CR, LF] + rest)[..|l|] == l;
  }

  predicate IsWord(w: seq<byte>) {
    w != [] && forall i | 0 <= i < |w| :: !IsSpace(w[i])
  }

  lemma {:induction false} WordEnds(w: seq<byte>, rest: seq<byte>)
    requires (forall i | 0 <= i < |w| :: !IsSpace(w[i])) && (rest == [] || IsSpace(rest[0]))
    ensures WordLength(w + rest) == |w|
  {
    if w == [] {
      assert w + rest == rest;
    } else {
      assert (w + rest)[1..] == w[1..] + rest;
      WordEnds(w[1..], rest);
    }
  }

  lemma FirstWord(w: seq<byte>, rest: seq<byte>)
    requires IsWord(w) && (rest == [] || IsSpace(rest[0]))
    ensures Words(w + rest) == [w] + Words(rest)
  {
    WordEnds(w, rest);
    var t := w + rest;
    assert t[0] == w[0] && SkipSpace(t) == t;
    assert t[..|w|] == w && t[|w|..] == rest;
  }

  lemma SpaceSkipped(rest: seq<byte>)
    ensures Words([SPACE] + rest) == Words(rest)
  {
    assert ([SPACE] + rest)[1..] == rest;
    assert SkipSpace([SPACE] + rest) == SkipSpace(rest);
    SkippedTwice(rest);
  }

  lemma {:induction false} SkippedTwice(s: seq<byte>)
    ensures SkipSpace(SkipSpace(s)) == SkipSpace(s)
  {
    if s != [] && IsSpace(s[0]) { SkippedTwice(s[1..]); }
  }

  lemma ThreeWords(a: seq<byte>, b: seq<byte>, c: seq<byte>)
    requires IsWord(a) && IsWord(b) && IsWord(c)
    ensures Words(a + [SPACE] + b + [SPACE] + c) == [a, b, c]
  {
    hide Words, IsWord;
    NoWords();
    assert c + [] == c;
    FirstWord(c, []);
    SpaceSkipped(c);
    FirstWord(b, [SPACE] + c);
    SpaceSkipped(b + ([SPACE] + c));
    FirstWord(a, [SPACE] + (b + ([SPACE] + c)));
    assert a + [SPACE] + b + [SPACE] + c == a + ([SPACE] + (b + ([SPACE] + c)));
  }

  lemma NoWords()
    ensures Words([]) == []
  {
  }

  lemma AsciiWord(text: string)
    requires text != [] && forall i | 0 <= i < |text| :: 0x21 <= text[i] as int < 0x80
    ensures IsWord(Ascii(text))
  {
    assert forall i | 0 <= i < |text| :: Ascii(text)[i] == text[i] as int;
  }

  /** A CONNECT request for a target, with a header line of n bytes. */
  function LongHead(target: seq<byte>, n: nat): seq<byte> {
    Ascii("CONNECT") + [SPACE] + target + [SPACE] + Ascii("HTTP/1.1") + [CR, LF] + seq(n, _ => 0x58)
  }

  lemma LongHeadLine(target: seq<byte>, n: nat)
    requires IsWord(target) && n > 0
    ensures Words(Lines(LongHead(target, n))[0]) == [Ascii("CONNECT"), target, Ascii("HTTP/1.1")]
    ensures FindHeaderEnd(LongHead(target, n)) == None
    ensures FindHeaderEnd(LongHead(target, n) + [CR, LF, CR, LF]) == Some(|LongHead(target, n)|)
  {
    hide Ascii, Lines, Words, FindHeaderEnd, IsWord, NoBreaks;
    AsciiWord("CONNECT");
    AsciiWord("HTTP/1.1");
    var l := Ascii("CONNECT") + [SPACE] + target + [SPACE] + Ascii("HTTP/1.1");
    ThreeWords(Ascii("CONNECT"), target, Ascii("HTTP/1.1"));
    WordsHaveNoBreaks(Ascii("CONNECT"), target, Ascii("HTTP/1.1"));
    FillerHasNoBreaks(n);
    FirstLine(l, seq(n, _ => 0x58));
    OneBreak(l, seq(n, _ => 0x58));
  }

  lemma WordsHaveNoBreaks(a: seq<byte>, b: seq<byte>, c: seq<byte>)
    requires IsWord(a) && IsWord(b) && IsWord(c)
    ensures NoBreaks(a + [SPACE] + b + [SPACE] + c)
  {
  }

  lemma FillerHasNoBreaks(n: nat)
    ensures NoBreaks(seq(n, _ => 0x58))
  {
  }

  /** One line break inside makes no blank line; one at the end does. */
  lemma OneBreak(l: seq<byte>, rest: seq<byte>)
    requires NoBreaks(l) && NoBreaks(rest)
    ensures var s := l + [CR, LF] + rest;
            FindHeaderEnd(s) == None && (rest != [] ==> FindHeaderEnd(s + [CR, LF, CR, LF]) == Some(|s|))
  {
    var s := l + [CR, LF] + rest;
    assert forall i | 0 <= i < |s| :: s[i] == LF ==> i == |l| + 1;
    var t := s + [CR, LF, CR, LF];
    if rest != [] {
      assert EndsHead(t, |s|);
      assert s[|s| - 1] == rest[|rest| - 1];
      forall j | 0 <= j < |s| ensures !EndsHead(t, j) {
        assert j + 1 < |s| ==> t[j + 1] == s[j + 1];
        assert j + 3 < |s| ==> t[j + 3] == s[j + 3];
      }
    }
  }

  /** An input past the limit that is refused, though with its last four bytes
      there in time it would have been a connection: the outcome depends on how
      the bytes arrive. */
  lemma LengthRefusalDependsOnArrival(lib: Library, target: seq<byte>)
    requires IsWord(target) && lib.hostPort(target).Some? && lib.utf8(LongHead(target, 65536))
    ensures var input := LongHead(target, 65536);
            && HttpRequest(lib, input) == Fail(BadRequest)
            && HttpRequest(lib, input + [CR, LF, CR, LF]).Open?
  {
    var n := 65536;
    var input := LongHead(target, n);
    LongHeadLine(target, n);
    SameAsItself(Ascii("CONNECT"));
    hide Lines, Words, FindHeaderEnd, SameText;
    assert |input| > MAX_HTTP_HEAD;
    assert (input + [CR, LF, CR, LF])[..|input|] == input;
    VersionPrefix();
  }

  lemma SameAsItself(text: seq<byte>)
    ensures SameText(text, text)
  {
  }

  lemma VersionPrefix()
    ensures Ascii("HTTP/") <= Ascii("HTTP/1.1")
  {
    assert "HTTP/1.1"[..5] == "HTTP/";
    assert Ascii("HTTP/1.1")[..5] == Ascii("HTTP/");
  }

  // ------------------------------------------- the forwarded head is one head

  /** No CR LF inside. */
  predicate OneLine(l: seq<byte>) {
    forall i | 0 <= i < |l| - 1 :: !(l[i] == CR && l[i + 1] == LF)
  }

  lemma {:induction false} LinesAreLines(s: seq<byte>)
    ensures forall l | l in Lines(s) :: OneLine(l)
    decreases |s|
  {
    var e := LineEnd(s, 0);
    if e == |s| {
      assert OneLine(s);
    } else {
      LinesAreLines(s[e + 2..]);
      assert OneLine(s[..e]);
    }
  }

  lemma {:induction false} KeptAreLines(lines: seq<seq<byte>>)
    requires forall l | l in lines :: OneLine(l)
    ensures forall l | l in Kept(lines) :: OneLine(l) && l != []
  {
    hide HopByHop, OneLine;
    if lines != [] {
      KeptAreLines(lines[..|lines| - 1]);
    }
  }

  /** The blank line is found where the lines end, whatever follows. */
  lemma {:induction false} BlankLineAfter(lines: seq<seq<byte>>, body: seq<byte>)
    requires lines != [] && forall l | l in lines :: OneLine(l) && l != []
    ensures var s := JoinLines(lines) + [CR, LF] + body;
            |JoinLines(lines)| >= 2 && FindHeaderEnd(s) == Some(|JoinLines(lines)| - 2)
  {
    var s := JoinLines(lines) + [CR, LF] + body;
    hide JoinLines, FindHeaderEnd, OneLine;
    NoBlankInside(lines, [CR, LF] + body);
    assert JoinLines(lines) + ([CR, LF] + body) == s;
    var e := |JoinLines(lines)| - 2;
    assert s[e + 2] == CR && s[e + 3] == LF;
    assert EndsHead(s, e);
    FirstIs(s, e);
  }

  lemma FirstIs(s: seq<byte>, e: nat)
    requires EndsHead(s, e) && forall j | 0 <= j < e :: !EndsHead(s, j)
    ensures FindHeaderEnd(s) == Some(e)
  {
  }

  /** In joined lines followed by anything, a blank line starts no earlier than
      the last line's own end. */
  lemma {:induction false} NoBlankInside(lines: seq<seq<byte>>, rest: seq<byte>)
    requires lines != [] && forall l | l in lines :: OneLine(l) && l != []
    ensures var t := JoinLines(lines);
            |t| >= 2 && t[|t| - 2] == CR && t[|t| - 1] == LF
            && forall j | 0 <= j < |t| - 2 :: !EndsHead(t + rest, j)
    decreases |lines|
  {
    var n := |lines| - 1;
    var front, l, t := lines[..n], lines[n], JoinLines(lines);
    assert l in lines;
    if n == 0 {
      NoBlankInLine([], l, rest);
      assert JoinLines(front) == [];
      assert t == [] + l + [CR, LF];
    } else {
      var f := JoinLines(front);
      hide JoinLines, OneLine;
      NoBlankInside(front, l + [CR, LF] + rest);
      assert t == f + l + [CR, LF] by { JoinLast(lines); }
      assert t + rest == f + (l + [CR, LF] + rest);
      NoBlankInLine(f, l, rest);
    }
  }

  lemma JoinLast(lines: seq<seq<byte>>)
    requires lines != []
    ensures JoinLines(lines) == JoinLines(lines[..|lines| - 1]) + lines[|lines| - 1] + [CR, LF]
  {
  }

  /** No blank line starts in the end of line before l, nor inside l. */
  lemma NoBlankInLine(before: seq<byte>, l: seq<byte>, rest: seq<byte>)
    requires OneLine(l) && l != []
    requires before == [] || (|before| >= 2 && before[|before| - 2] == CR && before[|before| - 1] == LF)
    ensures forall j | |before| - 2 <= j < |before| + |l| && 0 <= j :: !EndsHead(before + l + [CR, LF] + rest, j)
  {
    var s := before + l + [CR, LF] + rest;
    var b := |before|;
    assert forall i | 0 <= i < |l| :: s[b + i] == l[i];
    assert s[b + |l|] == CR;
    if b >= 2 {
      assert s[b - 2] == CR && s[b - 1] == LF;
      assert !EndsHead(s, b - 1);
      assert !EndsHead(s, b - 2);
    }
    forall j | b <= j < b + |l| ensures !EndsHead(s, j) {
      if j + 1 < b + |l| {
        assert !(l[j - b] == CR && l[j - b + 1] == LF);
      }
    }
  }

  /** Text the URL library returns for use in a request line. */
  predicate NoBreaks(s: seq<byte>) {
    forall i | 0 <= i < |s| :: s[i] != CR && s[i] != LF
  }

  ghost predicate CleanUrls(lib: Library) {
    forall text {:trigger lib.url(text)} | lib.url(text).Some? ::
      NoBreaks(lib.url(text).value.path)
        && (lib.url(text).value.query.Some? ==> NoBreaks(lib.url(text).value.query.value))
  }

  /** What is sent on for a forwarded request parses, at the other end, as one
      head followed by exactly the bytes the client sent after its own head. */
  lemma ForwardedHeadIsOneHead(lib: Library, head: seq<byte>, body: seq<byte>)
    requires CleanUrls(lib) && ParseHead(lib, head).ForwardTo?
    ensures var rewritten := ParseHead(lib, head).rewritten;
            |rewritten| >= 4 && FindHeaderEnd(rewritten + body) == Some(|rewritten| - 4)
  {
    hide Lines, Words, OneLine, NoBreaks, Kept, JoinLines, FindHeaderEnd, PathOf, Ascii, SameText;
    var lines := Lines(head);
    var words := Words(lines[0]);
    var u := lib.url(words[1]).value;
    var all := ForwardLines(words, u, lines[1..]);
    LinesAreLines(head);
    assert forall l | l in lines[1..] :: l in lines;
    KeptAreLines(lines[1..]);
    RequestLineIsLine(words, u);
    CloseLine();
    assert forall l | l in all :: OneLine(l) && l != [];
    BlankLineAfter(all, body);
    assert ParseHead(lib, head).rewritten + body == JoinLines(all) + [CR, LF] + body;
  }

  lemma RequestLineIsLine(words: seq<seq<byte>>, u: Url)
    requires |words| >= 3 && forall w | w in words :: forall i | 0 <= i < |w| :: !IsSpace(w[i])
    requires NoBreaks(u.path) && (u.query.Some? ==> NoBreaks(u.query.value))
    ensures OneLine(words[0] + [SPACE] + PathOf(u) + [SPACE] + words[2])
  {
    assert words[0] in words && words[2] in words;
    assert NoBreaks(words[0]) && NoBreaks(words[2]) && NoBreaks(PathOf(u));
    var l := words[0] + [SPACE] + PathOf(u) + [SPACE] + words[2];
    assert NoBreaks(l);
  }

  lemma CloseLine()
    ensures OneLine(Ascii("Connection: close")) && Ascii("Connection: close") != []
  {
    hide OneLine, Ascii;
    AsciiLine("Connection: close");
  }

  lemma AsciiLine(text: string)
    requires text != [] && forall i | 0 <= i < |text| :: 0x20 <= text[i] as int < 0x80
    ensures OneLine(Ascii(text)) && Ascii(text) != []
  {
    assert forall i | 0 <= i < |text| :: Ascii(text)[i] == text[i] as int;
  }
}
