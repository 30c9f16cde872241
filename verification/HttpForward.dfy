/** HTTP requests to the proxy as their sender lays them out
    (src/core/local_proxy/http.rs): what the proxy decides on each, and what the
    origin server reads of a request that is sent on. */
module HttpForward {
  import opened Bytes
  import opened Wrappers
  import opened ProxySteps

  // ------------------------------------------------------ a head, laid out

  /** A request line of three words, header lines, and a blank line. */
  function Laid(verb: seq<byte>, target: seq<byte>, version: seq<byte>, headers: seq<seq<byte>>): seq<byte> {
    JoinLines([verb + [SPACE] + target + [SPACE] + version] + headers) + [CR, LF]
  }

  /** Three words, and header lines that are lines. */
  ghost predicate Proper(verb: seq<byte>, target: seq<byte>, version: seq<byte>, headers: seq<seq<byte>>) {
    IsWord(verb) && IsWord(target) && IsWord(version) && forall l | l in headers :: OneLine(l) && l != []
  }

  lemma {:induction false} JoinFirst(lines: seq<seq<byte>>)
    requires lines != []
    ensures JoinLines(lines) == lines[0] + [CR, LF] + JoinLines(lines[1..])
  {
    var n := |lines| - 1;
    JoinLast(lines);
    if n > 0 {
      JoinFirst(lines[..n]);
      JoinLast(lines[1..]);
      assert lines[..n][1..] == lines[1..][..n - 1];
      hide JoinLines;
      assert lines[0] + [CR, LF] + JoinLines(lines[1..][..n - 1]) + lines[n] + [CR, LF]
          == lines[0] + [CR, LF] + (JoinLines(lines[1..][..n - 1]) + lines[n] + [CR, LF]);
    }
  }

  lemma LineBefore(l: seq<byte>, rest: seq<byte>)
    requires OneLine(l)
    ensures Lines(l + [CR, LF] + rest) == [l] + Lines(rest)
  {
    var s := l + [CR, LF] + rest;
    var e := LineEnd(s, 0);
    assert s[|l|] == CR && s[|l| + 1] == LF;
    assert forall j | 0 <= j < |l| :: s[j] == l[j];
    assert s[..e] == l && s[e + 2..] == rest;
  }

  lemma LineAlone(l: seq<byte>)
    requires OneLine(l)
    ensures Lines(l) == [l]
  {
  }

  /** Joined lines, without the last line's end, are split into the same lines. */
  lemma {:induction false} LinesJoined(lines: seq<seq<byte>>)
    requires lines != [] && forall l | l in lines :: OneLine(l)
    ensures |JoinLines(lines)| >= 2 && Lines(JoinLines(lines)[..|JoinLines(lines)| - 2]) == lines
    decreases |lines|
  {
    hide OneLine, Lines, JoinLines;
    var l := lines[0];
    assert OneLine(l) by { assert l in lines; }
    if |lines| == 1 {
      OneJoined(lines);
      LineAlone(l);
    } else {
      LinesJoined(lines[1..]);
      var more := JoinLines(lines[1..]);
      JoinFirst(lines);
      var t := JoinLines(lines);
      assert t[..|t| - 2] == l + [CR, LF] + more[..|more| - 2];
      LineBefore(l, more[..|more| - 2]);
      assert lines == [l] + lines[1..];
    }
  }

  lemma OneJoined(lines: seq<seq<byte>>)
    requires |lines| == 1
    ensures JoinLines(lines) == lines[0] + [CR, LF]
    ensures JoinLines(lines)[..|JoinLines(lines)| - 2] == lines[0] && lines == [lines[0]]
  {
    JoinFirst(lines);
    assert JoinLines(lines[1..]) == [];
  }

  /** Whatever follows, the head ends where it was laid out to end, its lines are
      the request line and the headers, and the request line's words are those
      three. */
  lemma LaidOutRead(verb: seq<byte>, target: seq<byte>, version: seq<byte>, headers: seq<seq<byte>>, rest: seq<byte>)
    requires Proper(verb, target, version, headers)
    ensures var head := Laid(verb, target, version, headers);
            && |head| >= 4 && FindHeaderEnd(head + rest) == Some(|head| - 4)
            && var lines := Lines((head + rest)[..|head| - 4]);
               Words(lines[0]) == [verb, target, version] && lines[1..] == headers
  {
    var line := verb + [SPACE] + target + [SPACE] + version;
    var lines := [line] + headers;
    ThreeWords(verb, target, version);
    RequestLine(verb, target, version);
    hide JoinLines, Lines, Words, FindHeaderEnd, OneLine, IsWord;
    BlankLineAfter(lines, rest);
    LinesJoined(lines);
    var joined := JoinLines(lines);
    var all := joined + [CR, LF] + rest;
    assert all[..|joined| - 2] == joined[..|joined| - 2];
    assert lines[1..] == headers;
  }

  lemma RequestLine(verb: seq<byte>, target: seq<byte>, version: seq<byte>)
    requires IsWord(verb) && IsWord(target) && IsWord(version)
    ensures OneLine(verb + [SPACE] + target + [SPACE] + version)
    ensures verb + [SPACE] + target + [SPACE] + version != []
  {
    WordsHaveNoBreaks(verb, target, version);
  }

  // --------------------------------------------------- the proxy's decision

  /** What the proxy decides on a request, and what it sends on: for a forwarded
      one the same verb and version, the path and query alone, the headers that
      are passed on, and the connection closed after the answer. */
  lemma RequestDecided(lib: Library, verb: seq<byte>, target: seq<byte>, version: seq<byte>, headers: seq<seq<byte>>,
                       rest: seq<byte>)
    requires Proper(verb, target, version, headers)
    ensures var head := Laid(verb, target, version, headers);
            var step := HttpRequest(lib, head + rest);
            if !lib.utf8(head[..|head| - 4]) || !(Ascii("HTTP/") <= version) then step == Fail(BadRequest)
            else if SameText(verb, Ascii("CONNECT")) then
              match lib.hostPort(target)
              case None => step == Fail(BadRequest)
              case Some(at) => step == Open(Text(at.0), at.1, |head|, Some(ByConnect), None)
            else
              match lib.url(target)
              case None => step == Fail(BadRequest)
              case Some(u) =>
                if u.scheme != Ascii("http") then step == Fail(CommandNotSupported)
                else if u.host.None? || u.port.None? then step == Fail(BadRequest)
                else
                  var path := (if u.path == [] then [0x2F] else u.path)
                              + if u.query.Some? then [0x3F] + u.query.value else [];
                  step == Open(Text(u.host.value), u.port.value, |head|, Some(ByForward),
                               Some(Laid(verb, path, version, Kept(headers) + [Ascii("Connection: close")])))
  {
    hide Lines, Words, HttpRequest, ParseHead, FindHeaderEnd, Laid, SameText, Ascii, Kept, PathOf, Proper;
    var head := Laid(verb, target, version, headers);
    LaidOutRead(verb, target, version, headers, rest);
    HeadAlone(lib, head, rest);
    HeadDecided(lib, head[..|head| - 4], verb, target, version, headers);
    if lib.url(target).Some? { PathIs(lib.url(target).value); }
  }

  lemma HeadAlone(lib: Library, head: seq<byte>, rest: seq<byte>)
    requires |head| >= 4 && FindHeaderEnd(head + rest) == Some(|head| - 4)
    ensures (head + rest)[..|head| - 4] == head[..|head| - 4]
    ensures HttpRequest(lib, head + rest) == HeadStep(ParseHead(lib, head[..|head| - 4]), |head|)
  {
    hide ParseHead, HeadStep, FindHeaderEnd;
  }

  lemma PathIs(u: Url)
    ensures PathOf(u)
         == (if u.path == [] then [0x2F] else u.path) + if u.query.Some? then [0x3F] + u.query.value else []
  {
  }

  lemma HeadDecided(lib: Library, text: seq<byte>, verb: seq<byte>, target: seq<byte>, version: seq<byte>,
                    headers: seq<seq<byte>>)
    requires Words(Lines(text)[0]) == [verb, target, version] && Lines(text)[1..] == headers
    ensures ParseHead(lib, text)
         == if !lib.utf8(text) || !(Ascii("HTTP/") <= version) then BadHead(BadRequest)
            else if SameText(verb, Ascii("CONNECT")) then
              match lib.hostPort(target)
              case None => BadHead(BadRequest)
              case Some(at) => ConnectTo(at.0, at.1)
            else
              match lib.url(target)
              case None => BadHead(BadRequest)
              case Some(u) =>
                if u.scheme != Ascii("http") then BadHead(CommandNotSupported)
                else if u.host.None? || u.port.None? then BadHead(BadRequest)
                else
                  ForwardTo(u.host.value, u.port.value,
                            Laid(verb, PathOf(u), version, Kept(headers) + [Ascii("Connection: close")]))
  {
    hide Lines, Words, SameText, Kept, Ascii, JoinLines, PathOf, Laid;
    if lib.url(target).Some? {
      SentOn(verb, target, version, lib.url(target).value, headers);
    }
  }

  lemma SentOn(verb: seq<byte>, target: seq<byte>, version: seq<byte>, u: Url, headers: seq<seq<byte>>)
    ensures JoinLines(ForwardLines([verb, target, version], u, headers)) + [CR, LF]
         == Laid(verb, PathOf(u), version, Kept(headers) + [Ascii("Connection: close")])
  {
    hide JoinLines, Kept, Ascii, PathOf;
    var line, close := verb + [SPACE] + PathOf(u) + [SPACE] + version, Ascii("Connection: close");
    assert [line] + Kept(headers) + [close] == [line] + (Kept(headers) + [close]);
  }

  // ------------------------------------------------- the headers passed on

  /** The field name of a header line: what is before its first colon, or all of
      it, without the white space at both ends, whatever its case. */
  ghost predicate HasName(line: seq<byte>, name: seq<byte>) {
    exists a: nat, b: nat, c: nat :: FieldAt(line, a, b, c) && SameText(line[a..b], name)
  }

  /** Bytes a to b are what is before the colon at c, or the line's end, without
      white space around it. */
  ghost predicate FieldAt(line: seq<byte>, a: nat, b: nat, c: nat) {
    && a <= b <= c <= |line|
    && (c == |line| || line[c] == COLON) && (forall i | 0 <= i < c :: line[i] != COLON)
    && (forall i | 0 <= i < a :: IsSpace(line[i])) && forall i | b <= i < c :: IsSpace(line[i])
  }

  /** The header lines passed on, in order: all but the empty ones and those
      that concern the connection to the proxy. */
  lemma PassedOnIff(a: seq<seq<byte>>, b: seq<seq<byte>>, line: seq<byte>)
    ensures Kept(a + b) == Kept(a) + Kept(b)
    ensures Kept([line])
         == if line == [] || HasName(line, Ascii("Proxy-Connection")) || HasName(line, Ascii("Proxy-Authorization"))
               || HasName(line, Ascii("Connection")) || HasName(line, Ascii("Keep-Alive"))
            then [] else [line]
  {
    KeptJoined(a, b);
    DroppedIff(line);
    hide HasName, HopByHop, Ascii;
    assert [line][..0] == [] && Kept([]) == [];
  }

  lemma DroppedIff(line: seq<byte>)
    ensures HopByHop(line) <==> HasName(line, Ascii("Proxy-Connection")) || HasName(line, Ascii("Proxy-Authorization"))
                                || HasName(line, Ascii("Connection")) || HasName(line, Ascii("Keep-Alive"))
  {
    hide HasName, SameText, FieldName, Ascii, IsWord;
    AsciiWord("Proxy-Connection");
    AsciiWord("Proxy-Authorization");
    AsciiWord("Connection");
    AsciiWord("Keep-Alive");
    NameIff(line, Ascii("Proxy-Connection"));
    NameIff(line, Ascii("Proxy-Authorization"));
    NameIff(line, Ascii("Connection"));
    NameIff(line, Ascii("Keep-Alive"));
  }

  lemma {:induction false} KeptJoined(a: seq<seq<byte>>, b: seq<seq<byte>>)
    ensures Kept(a + b) == Kept(a) + Kept(b)
  {
    hide HopByHop;
    if b == [] {
      assert a + b == a;
    } else {
      var n := |b| - 1;
      KeptJoined(a, b[..n]);
      assert (a + b)[..|a + b| - 1] == a + b[..n];
    }
  }

  lemma NameIff(line: seq<byte>, name: seq<byte>)
    requires IsWord(name)
    ensures SameText(FieldName(line), name) <==> HasName(line, name)
  {
    hide FieldName, SameText, IsWord;
    var a, b, c := FieldBounds(line);
    assert FieldAt(line, a, b, c);
    if HasName(line, name) {
      var a': nat, b': nat, c': nat :| FieldAt(line, a', b', c') && SameText(line[a'..b'], name);
      NamedField(line, name, a', b', c');
    }
  }

  lemma NamedField(line: seq<byte>, name: seq<byte>, a: nat, b: nat, c: nat)
    requires IsWord(name) && FieldAt(line, a, b, c) && SameText(line[a..b], name)
    ensures FieldName(line) == line[a..b]
  {
    NameEnds(line[a..b], name);
    FieldNameIs(line, a, b, c);
  }

  lemma NameEnds(s: seq<byte>, text: seq<byte>)
    requires SameText(s, text) && IsWord(text)
    ensures s != [] && !IsSpace(s[0]) && !IsSpace(s[|s| - 1])
  {
    assert !IsSpace(text[0]) && !IsSpace(text[|text| - 1]);
  }

  /** Where the field name of a line starts and ends, and where its colon is. */
  lemma FieldBounds(line: seq<byte>) returns (a: nat, b: nat, c: nat)
    ensures FieldAt(line, a, b, c) && FieldName(line) == line[a..b]
  {
    c := 0;
    while c < |line| && line[c] != COLON
      invariant c <= |line| && forall i | 0 <= i < c :: line[i] != COLON
    {
      c := c + 1;
    }
    a := 0;
    while a < c && IsSpace(line[a])
      invariant a <= c && forall i | 0 <= i < a :: IsSpace(line[i])
    {
      a := a + 1;
    }
    b := c;
    while b > a && IsSpace(line[b - 1])
      invariant a <= b <= c && forall i | b <= i < c :: IsSpace(line[i])
    {
      b := b - 1;
    }
    FieldNameIs(line, a, b, c);
  }

  lemma FieldNameIs(line: seq<byte>, a: nat, b: nat, c: nat)
    requires FieldAt(line, a, b, c)
    requires a == b || (!IsSpace(line[a]) && !IsSpace(line[b - 1]))
    ensures FieldName(line) == line[a..b]
  {
    BeforeColonIs(line, c);
    StrippedIs(line[..c], a, b);
    PrefixSlice(line, a, b, c);
    hide TrimEnd, SkipSpace, BeforeColon;
  }

  lemma PrefixSlice(s: seq<byte>, a: nat, b: nat, c: nat)
    requires a <= b <= c <= |s|
    ensures s[..c][a..b] == s[a..b]
  {
  }

  lemma StrippedIs(s: seq<byte>, a: nat, b: nat)
    requires a <= b <= |s| && (forall i | 0 <= i < a :: IsSpace(s[i])) && forall i | b <= i < |s| :: IsSpace(s[i])
    requires a == b || (!IsSpace(s[a]) && !IsSpace(s[b - 1]))
    ensures TrimEnd(SkipSpace(s)) == s[a..b]
  {
    hide TrimEnd, SkipSpace;
    if a == b {
      SkipSpaceIs(s, |s|);
      assert s[|s|..] == s[a..b];
      TrimEndIs(s[|s|..], 0);
    } else {
      SkipSpaceIs(s, a);
      assert s[a..][b - a - 1] == s[b - 1];
      TrimEndIs(s[a..], b - a);
      assert s[a..][..b - a] == s[a..b];
    }
  }

  lemma {:induction false} BeforeColonIs(line: seq<byte>, c: nat)
    requires c <= |line| && (c == |line| || line[c] == COLON) && forall i | 0 <= i < c :: line[i] != COLON
    ensures BeforeColon(line) == line[..c]
  {
    if c > 0 {
      assert line[1..][..c - 1] == line[1..c];
      BeforeColonIs(line[1..], c - 1);
    }
  }

  lemma {:induction false} SkipSpaceIs(s: seq<byte>, a: nat)
    requires a <= |s| && (forall i | 0 <= i < a :: IsSpace(s[i])) && (a == |s| || !IsSpace(s[a]))
    ensures SkipSpace(s) == s[a..]
  {
    if a > 0 {
      assert s[1..][a - 1..] == s[a..];
      SkipSpaceIs(s[1..], a - 1);
    }
  }

  lemma {:induction false} TrimEndIs(s: seq<byte>, b: nat)
    requires b <= |s| && (forall i | b <= i < |s| :: IsSpace(s[i])) && (b == 0 || !IsSpace(s[b - 1]))
    ensures TrimEnd(s) == s[..b]
  {
    if b < |s| {
      var front := s[..|s| - 1];
      assert front[..b] == s[..b] && IsSpace(s[|s| - 1]);
      forall i | b <= i < |front| ensures IsSpace(front[i]) { assert front[i] == s[i]; }
      TrimEndIs(front, b);
    } else {
      assert s[..b] == s;
    }
  }
}
