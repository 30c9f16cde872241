/** The DNS client's messages (src/core/dns.rs, build_a_query, skip_name and
    parse_a_response), against the message format of sections 4.1.1 to 4.1.4
    of RFC 1035. */
module Dns {
  import opened Bytes
  import opened Wrappers

  // ---------------------------------------------------------------- names

  /** A name as it may stand in a message: labels ending at the root or in a
      pointer to an earlier name. */
  datatype Name = Root | Pointer(target: u16) | Label(text: seq<byte>, rest: Name)

  predicate ValidName(n: Name) {
    match n
    case Root => true
    case Pointer(target) => target < 0x4000
    case Label(text, rest) => 1 <= |text| <= 63 && ValidName(rest)
  }

  function EncodeName(n: Name): (s: seq<byte>)
    requires ValidName(n)
    ensures s != []
  {
    match n
    case Root => [0]
    case Pointer(target) => BE16(0xC000 + (target as int))
    case Label(text, rest) => [|text|] + text + EncodeName(rest)
  }

  /** How many bytes the name at the front of s takes. */
  function NameLength(s: seq<byte>): (r: Result<nat>)
    ensures r.Ok? ==> 1 <= r.value <= |s|
    decreases |s|
  {
    if s == [] then Err("truncated DNS name")
    else if s[0] >= 0xC0 then
      if |s| < 2 then Err("truncated DNS compression pointer") else Ok(2)
    else if s[0] >= 0x40 then Err("invalid DNS label")
    else if s[0] == 0 then Ok(1)
    else if 1 + (s[0] as int) > |s| then Err("truncated DNS label")
    else
      match NameLength(s[1 + (s[0] as int)..])
      case Err(reason) => Err(reason)
      case Ok(k) => Ok(1 + (s[0] as int) + k)
  }

  /** Skipping a name that is there lands just after it. */
  lemma {:induction false} NameSkipped(n: Name, rest: seq<byte>)
    requires ValidName(n)
    ensures NameLength(EncodeName(n) + rest) == Ok(|EncodeName(n)|)
  {
    match n
    case Root =>
    case Pointer(target) =>
    case Label(text, tail) =>
      var s := EncodeName(n) + rest;
      assert s[1 + |text|..] == EncodeName(tail) + rest;
      NameSkipped(tail, rest);
  }

  /** Whatever was skipped is a name. */
  lemma {:induction false} SkippedName(s: seq<byte>) returns (n: Name)
    requires NameLength(s).Ok?
    ensures ValidName(n) && EncodeName(n) == s[..NameLength(s).value]
    decreases |s|
  {
    if s[0] >= 0xC0 {
      n := Pointer((s[0] as int - 0xC0) * 0x100 + s[1]);
    } else if s[0] == 0 {
      n := Root;
    } else {
      var more := s[1 + (s[0] as int)..];
      var tail := SkippedName(more);
      n := Label(s[1..1 + (s[0] as int)], tail);
      LabelSkipped(s, more, tail);
    }
  }

  lemma LabelSkipped(s: seq<byte>, more: seq<byte>, tail: Name)
    requires s != [] && 1 <= s[0] < 0x40 && 1 + (s[0] as int) <= |s| && more == s[1 + (s[0] as int)..]
    requires NameLength(more).Ok? && ValidName(tail) && EncodeName(tail) == more[..NameLength(more).value]
    ensures var n := Label(s[1..1 + (s[0] as int)], tail);
            ValidName(n) && NameLength(s).Ok? && EncodeName(n) == s[..NameLength(s).value]
  {
    var len, k: nat := (s[0] as int), NameLength(more).value;
    assert NameLength(s) == Ok(1 + len + k);
    hide NameLength;
    assert s[..1 + len + k] == [s[0]] + s[1..1 + len] + more[..k];
  }

  /** skip_name accepts exactly the encodings of names. */
  lemma NameLengthIff(s: seq<byte>, k: nat)
    ensures NameLength(s) == Ok(k) <==> k <= |s| && exists n | ValidName(n) :: EncodeName(n) == s[..k]
  {
    hide NameLength, EncodeName, ValidName;
    if NameLength(s) == Ok(k) {
      var n := SkippedName(s);
    }
    if k <= |s| {
      forall n | ValidName(n) && EncodeName(n) == s[..k] ensures NameLength(s) == Ok(k) {
        NameSkipped(n, s[k..]);
        assert s == s[..k] + s[k..];
      }
    }
  }

  method SkipName(packet: seq<byte>, start: nat) returns (r: Result<nat>)
    requires start <= |packet|
    ensures r == match NameLength(packet[start..])
                 case Ok(k) => Ok(start + k)
                 case Err(reason) => Err(reason)
    ensures r.Ok? ==> start < r.value <= |packet|
  {
    hide NameLength;
    var offset := start;
    while true
      invariant start <= offset <= |packet|
      invariant match NameLength(packet[start..])
                case Err(reason) => NameLength(packet[offset..]) == Err(reason)
                case Ok(k) => NameLength(packet[offset..]) == Ok(start + k - offset)
      decreases |packet| - offset
    {
      NameTurn(packet, offset);
      if offset >= |packet| {
        return Err("truncated DNS name");
      }
      var len: int := packet[offset];
      if len >= 0xC0 {
        if offset + 2 > |packet| {
          return Err("truncated DNS compression pointer");
        }
        return Ok(offset + 2);
      }
      if len >= 0x40 {
        return Err("invalid DNS label");
      }
      offset := offset + 1;
      if len == 0 {
        return Ok(offset);
      }
      if offset + len > |packet| {
        return Err("truncated DNS label");
      }
      offset := offset + len;
    }
  }

  /** One turn of the skipping loop. */
  lemma NameTurn(packet: seq<byte>, offset: nat)
    requires offset <= |packet|
    ensures var r := NameLength(packet[offset..]);
            if offset == |packet| then r == Err("truncated DNS name")
            else
              var len: int := packet[offset];
              if len >= 0xC0 then
                r == if offset + 2 > |packet| then Err("truncated DNS compression pointer") else Ok(2)
              else if len >= 0x40 then r == Err("invalid DNS label")
              else if len == 0 then r == Ok(1)
              else if offset + 1 + len > |packet| then r == Err("truncated DNS label")
              else
                match NameLength(packet[offset + 1 + len..])
                case Err(reason) => r == Err(reason)
                case Ok(k) => r == Ok(1 + len + k)
  {
    var s := packet[offset..];
    if s != [] && 1 + (s[0] as int) <= |s| {
      assert s[1 + (s[0] as int)..] == packet[offset + 1 + (s[0] as int)..];
    }
  }

  // -------------------------------------------------------------- messages

  datatype Question = Question(name: Name, typ: u16, cls: u16)

  datatype Record = Record(name: Name, typ: u16, cls: u16, ttl: u32, data: seq<byte>)

  datatype Message = Message(
    id: u16, flags: u16, questions: seq<Question>, answers: seq<Record>, authorities: u16, extras: u16, rest: seq<byte>)

  predicate ValidQuestion(q: Question) {
    ValidName(q.name)
  }

  predicate ValidRecord(r: Record) {
    ValidName(r.name) && |r.data| < 0x1_0000
  }

  predicate ValidMessage(m: Message) {
    && |m.questions| < 0x1_0000 && |m.answers| < 0x1_0000
    && (forall i | 0 <= i < |m.questions| :: ValidQuestion(m.questions[i]))
    && (forall i | 0 <= i < |m.answers| :: ValidRecord(m.answers[i]))
  }

  function EncodeQuestion(q: Question): seq<byte>
    requires ValidQuestion(q)
  {
    EncodeName(q.name) + (BE16(q.typ) + BE16(q.cls))
  }

  function EncodeQuestions(qs: seq<Question>): seq<byte>
    requires forall i | 0 <= i < |qs| :: ValidQuestion(qs[i])
  {
    if qs == [] then [] else EncodeQuestion(qs[0]) + EncodeQuestions(qs[1..])
  }

  function RecordHead(r: Record): (s: seq<byte>)
    requires ValidRecord(r)
    ensures |s| == 10
  {
    BE16(r.typ) + BE16(r.cls) + BE32(r.ttl) + BE16(|r.data|)
  }

  function EncodeRecord(r: Record): seq<byte>
    requires ValidRecord(r)
  {
    EncodeName(r.name) + (RecordHead(r) + r.data)
  }

  function EncodeRecords(rs: seq<Record>): seq<byte>
    requires forall i | 0 <= i < |rs| :: ValidRecord(rs[i])
  {
    if rs == [] then [] else EncodeRecord(rs[0]) + EncodeRecords(rs[1..])
  }

  function EncodeHead(id: u16, flags: u16, questions: u16, answers: u16, authorities: u16, extras: u16): (s: seq<byte>)
    ensures |s| == 12
  {
    BE16(id) + BE16(flags) + BE16(questions) + BE16(answers) + BE16(authorities) + BE16(extras)
  }

  function EncodeMessage(m: Message): seq<byte>
    requires ValidMessage(m)
  {
    EncodeHead(m.id, m.flags, |m.questions|, |m.answers|, m.authorities, m.extras)
    + (EncodeQuestions(m.questions) + (EncodeRecords(m.answers) + m.rest))
  }

  /** The answer looked for: an address record of class IN with four bytes. */
  predicate IsAddress(r: Record) {
    r.typ == 1 && r.cls == 1 && |r.data| == 4
  }

  function FirstAddress(rs: seq<Record>): Option<seq<byte>> {
    if rs == [] then None
    else if IsAddress(rs[0]) then Some(rs[0].data)
    else FirstAddress(rs[1..])
  }

  // --------------------------------------------------- reading a response

  function SkipQuestions(s: seq<byte>, n: nat): Result<seq<byte>>
    decreases n
  {
    if n == 0 then Ok(s)
    else
      match NameLength(s)
      case Err(reason) => Err(reason)
      case Ok(k) => if k + 4 > |s| then Err("truncated DNS question") else SkipQuestions(s[k + 4..], n - 1)
  }

  /** A record as the reader sees it, and how many bytes it takes. */
  datatype Seen = Seen(typ: u16, cls: u16, data: seq<byte>, length: nat)

  function ReadRecord(s: seq<byte>): (r: Result<Seen>)
    ensures r.Ok? ==> r.value.length <= |s|
  {
    match NameLength(s)
    case Err(reason) => Err(reason)
    case Ok(k) =>
      if k + 10 > |s| then Err("truncated DNS answer")
      else
        var len: int := FromBE16(s[k + 8..]);
        if k + 10 + len > |s| then Err("truncated DNS record")
        else Ok(Seen(FromBE16(s[k..]), FromBE16(s[k + 2..]), s[k + 10..k + 10 + len], k + 10 + len))
  }

  function FindAddress(s: seq<byte>, n: nat): Result<seq<byte>>
    decreases n
  {
    if n == 0 then Err("DNS name has no IPv4 address")
    else
      match ReadRecord(s)
      case Err(reason) => Err(reason)
      case Ok(seen) =>
        if seen.typ == 1 && seen.cls == 1 && |seen.data| == 4 then Ok(seen.data)
        else FindAddress(s[seen.length..], n - 1)
  }

  function ParseAddress(id: u16, packet: seq<byte>): Result<seq<byte>> {
    if |packet| < 12 || FromBE16(packet) != id then Err("invalid DNS response")
    else
      var flags := FromBE16(packet[2..]);
      if flags < 0x8000 || flags % 0x10 != 0 then Err("DNS query failed")
      else
        match SkipQuestions(packet[12..], FromBE16(packet[4..]))
        case Err(reason) => Err(reason)
        case Ok(s) => FindAddress(s, FromBE16(packet[6..]))
  }

  method ParseAResponse(id: u16, packet: seq<byte>) returns (r: Result<seq<byte>>)
    ensures r == ParseAddress(id, packet)
  {
    hide NameLength, FromBE16, SkipQuestions, FindAddress;
    if |packet| < 12 || FromBE16(packet) != id {
      return Err("invalid DNS response");
    }
    var flags := FromBE16(packet[2..]);
    if flags < 0x8000 || flags % 0x10 != 0 {
      return Err("DNS query failed");
    }
    var start := SkipAllQuestions(packet, FromBE16(packet[4..]));
    if start.Err? {
      return Err(start.reason);
    }
    r := FindAnswer(packet, start.value, FromBE16(packet[6..]));
  }

  method SkipAllQuestions(packet: seq<byte>, questions: nat) returns (r: Result<nat>)
    requires |packet| >= 12
    ensures r.Ok? ==> r.value <= |packet|
    ensures SkipQuestions(packet[12..], questions)
            == match r case Ok(offset) => Ok(packet[offset..]) case Err(reason) => Err(reason)
  {
    hide NameLength, SkipQuestions;
    var offset := 12;
    for i := 0 to questions
      invariant 12 <= offset <= |packet|
      invariant SkipQuestions(packet[offset..], questions - i) == SkipQuestions(packet[12..], questions)
    {
      QuestionTurn(packet, offset, questions - i);
      var name := SkipName(packet, offset);
      if name.Err? {
        return Err(name.reason);
      }
      offset := name.value + 4;
      if offset > |packet| {
        return Err("truncated DNS question");
      }
    }
    QuestionsDone(packet[offset..]);
    r := Ok(offset);
  }

  lemma QuestionTurn(packet: seq<byte>, offset: nat, n: nat)
    requires offset <= |packet| && n > 0
    ensures SkipQuestions(packet[offset..], n)
            == match NameLength(packet[offset..])
               case Err(reason) => Err(reason)
               case Ok(k) =>
                 if offset + k + 4 > |packet| then Err("truncated DNS question")
                 else SkipQuestions(packet[offset + k + 4..], n - 1)
  {
    hide NameLength;
    var s := packet[offset..];
    if NameLength(s).Ok? && NameLength(s).value + 4 <= |s| {
      assert s[NameLength(s).value + 4..] == packet[offset + NameLength(s).value + 4..];
    }
  }

  lemma QuestionsDone(s: seq<byte>)
    ensures SkipQuestions(s, 0) == Ok(s)
  {
  }

  method FindAnswer(packet: seq<byte>, start: nat, answers: nat) returns (r: Result<seq<byte>>)
    requires start <= |packet|
    ensures r == FindAddress(packet[start..], answers)
  {
    hide NameLength, FromBE16, ReadRecord;
    var offset := start;
    for i := 0 to answers
      invariant start <= offset <= |packet|
      invariant FindAddress(packet[offset..], answers - i) == FindAddress(packet[start..], answers)
    {
      RecordTurn(packet, offset);
      var name := SkipName(packet, offset);
      if name.Err? {
        return Err(name.reason);
      }
      offset := name.value;
      if offset + 10 > |packet| {
        return Err("truncated DNS answer");
      }
      var typ, cls := FromBE16(packet[offset..]), FromBE16(packet[offset + 2..]);
      var len: int := FromBE16(packet[offset + 8..]);
      offset := offset + 10;
      if offset + len > |packet| {
        return Err("truncated DNS record");
      }
      if typ == 1 && cls == 1 && len == 4 {
        return Ok(packet[offset..offset + 4]);
      }
      offset := offset + len;
    }
    r := Err("DNS name has no IPv4 address");
  }

  /** The record at an offset, with every position counted from the start. */
  lemma RecordTurn(packet: seq<byte>, offset: nat)
    requires offset <= |packet|
    ensures match NameLength(packet[offset..])
            case Err(reason) => ReadRecord(packet[offset..]) == Err(reason)
            case Ok(k) =>
              var at := offset + k;
              var seen := ReadRecord(packet[offset..]);
              if at + 10 > |packet| then seen == Err("truncated DNS answer")
              else
                var len: int := FromBE16(packet[at + 8..]);
                if at + 10 + len > |packet| then seen == Err("truncated DNS record")
                else
                  && seen == Ok(Seen(FromBE16(packet[at..]), FromBE16(packet[at + 2..]),
                                     packet[at + 10..at + 10 + len], k + 10 + len))
                  && packet[offset..][seen.value.length..] == packet[at + 10 + len..]
  {
    hide NameLength, FromBE16;
    var s := packet[offset..];
    if NameLength(s).Ok? {
      var k := NameLength(s).value;
      if k + 10 <= |s| {
        assert s[k..] == packet[offset + k..] && s[k + 2..] == packet[offset + k + 2..]
               && s[k + 8..] == packet[offset + k + 8..];
        var len: int := FromBE16(s[k + 8..]);
        if k + 10 + len <= |s| {
          assert s[k + 10..k + 10 + len] == packet[offset + k + 10..offset + k + 10 + len];
          assert s[k + 10 + len..] == packet[offset + k + 10 + len..];
        }
      }
    }
  }

  // ------------------------------------------------- well-formed responses

  lemma {:induction false} QuestionsSkipped(qs: seq<Question>, rest: seq<byte>)
    requires forall i | 0 <= i < |qs| :: ValidQuestion(qs[i])
    ensures SkipQuestions(EncodeQuestions(qs) + rest, |qs|) == Ok(rest)
  {
    hide NameLength, EncodeQuestion, ValidQuestion;
    if qs == [] {
      assert EncodeQuestions(qs) + rest == rest;
    } else {
      var more := EncodeQuestions(qs[1..]) + rest;
      assert EncodeQuestions(qs) + rest == EncodeQuestion(qs[0]) + more;
      QuestionSkipped(qs[0], more);
      QuestionsSkipped(qs[1..], rest);
    }
  }

  lemma QuestionSkipped(q: Question, more: seq<byte>)
    requires ValidQuestion(q)
    ensures var s := EncodeQuestion(q) + more;
            var k := NameLength(s); k.Ok? && k.value + 4 <= |s| && s[k.value + 4..] == more
  {
    hide NameLength, EncodeName, ValidName, BE16;
    var tail := BE16(q.typ) + BE16(q.cls);
    NameSkipped(q.name, tail + more);
    assert EncodeQuestion(q) + more == EncodeName(q.name) + (tail + more);
  }

  lemma HeadRead(r: Record, rest: seq<byte>)
    requires ValidRecord(r)
    ensures var s := RecordHead(r) + rest;
            FromBE16(s) == r.typ && FromBE16(s[2..]) == r.cls && FromBE16(s[8..]) == |r.data| && s[10..] == rest
  {
    hide BE16, FromBE16, BE32;
    var s := RecordHead(r) + rest;
    var t, c, l, n := BE16(r.typ), BE16(r.cls), BE32(r.ttl), BE16(|r.data|);
    assert s == t + (c + l + n + rest) && s[2..] == c + (l + n + rest) && s[8..] == n + rest;
    BE16RoundTrip(r.typ, c + l + n + rest);
    BE16RoundTrip(r.cls, l + n + rest);
    BE16RoundTrip(|r.data|, rest);
  }

  lemma RecordRead(r: Record, rest: seq<byte>)
    requires ValidRecord(r)
    ensures ReadRecord(EncodeRecord(r) + rest) == Ok(Seen(r.typ, r.cls, r.data, |EncodeRecord(r)|))
    ensures (EncodeRecord(r) + rest)[|EncodeRecord(r)|..] == rest
  {
    hide NameLength, EncodeName, RecordHead, FromBE16;
    var s := EncodeRecord(r) + rest;
    var k := |EncodeName(r.name)|;
    var body := RecordHead(r) + (r.data + rest);
    assert s == EncodeName(r.name) + body;
    NameSkipped(r.name, body);
    HeadRead(r, r.data + rest);
    assert s[k..] == body && s[k + 2..] == body[2..] && s[k + 8..] == body[8..];
    assert s[k + 10..k + 10 + |r.data|] == r.data;
  }

  /** The records there are are looked at in order, as far as needed. */
  lemma {:induction false} AddressFound(rs: seq<Record>, rest: seq<byte>, n: nat)
    requires |rs| <= n && forall i | 0 <= i < |rs| :: ValidRecord(rs[i])
    ensures FindAddress(EncodeRecords(rs) + rest, n)
            == match FirstAddress(rs) case Some(ip) => Ok(ip) case None => FindAddress(rest, n - |rs|)
  {
    hide ReadRecord, EncodeRecord;
    if rs == [] {
      assert EncodeRecords(rs) + rest == rest;
    } else {
      var more := EncodeRecords(rs[1..]) + rest;
      assert EncodeRecords(rs) + rest == EncodeRecord(rs[0]) + more;
      RecordRead(rs[0], more);
      if !IsAddress(rs[0]) {
        AddressFound(rs[1..], rest, n - 1);
      }
    }
  }

  lemma HeadFields(id: u16, flags: u16, qs: u16, an: u16, ns: u16, ar: u16, rest: seq<byte>)
    ensures var p := EncodeHead(id, flags, qs, an, ns, ar) + rest;
            && FromBE16(p) == id && FromBE16(p[2..]) == flags
            && FromBE16(p[4..]) == qs && FromBE16(p[6..]) == an && p[12..] == rest
  {
    hide BE16, FromBE16;
    var a, b, c, d, e, f := BE16(id), BE16(flags), BE16(qs), BE16(an), BE16(ns), BE16(ar);
    var p := EncodeHead(id, flags, qs, an, ns, ar) + rest;
    var tail := e + f + rest;
    assert p == a + (b + c + d + tail) && p[2..] == b + (c + d + tail) && p[4..] == c + (d + tail)
           && p[6..] == d + tail;
    BE16RoundTrip(id, b + c + d + tail);
    BE16RoundTrip(flags, c + d + tail);
    BE16RoundTrip(qs, d + tail);
    BE16RoundTrip(an, tail);
  }

  /** Reading a well-formed message, with plain and compressed names in any
      mixture, gives its first address record if it is a successful response
      with the right id, and an error otherwise. */
  lemma ResponseRead(id: u16, m: Message)
    requires ValidMessage(m)
    ensures ParseAddress(id, EncodeMessage(m))
            == if m.id != id then Err("invalid DNS response")
               else if m.flags < 0x8000 || m.flags % 0x10 != 0 then Err("DNS query failed")
               else match FirstAddress(m.answers)
                    case Some(ip) => Ok(ip)
                    case None => Err("DNS name has no IPv4 address")
  {
    hide EncodeHead, FromBE16, SkipQuestions, FindAddress, EncodeQuestions, EncodeRecords;
    var answers := EncodeRecords(m.answers) + m.rest;
    var body := EncodeQuestions(m.questions) + answers;
    HeadFields(m.id, m.flags, |m.questions|, |m.answers|, m.authorities, m.extras, body);
    QuestionsSkipped(m.questions, answers);
    AddressFound(m.answers, m.rest, |m.answers|);
    NoneLeft(m.rest);
  }

  lemma NoneLeft(s: seq<byte>)
    ensures FindAddress(s, 0) == Err("DNS name has no IPv4 address")
  {
  }

  // --------------------------------------------- what an accepted packet is

  lemma {:induction false} SkippedQuestions(s: seq<byte>, n: nat) returns (qs: seq<Question>)
    requires SkipQuestions(s, n).Ok?
    ensures |qs| == n && forall i | 0 <= i < |qs| :: ValidQuestion(qs[i])
    ensures s == EncodeQuestions(qs) + SkipQuestions(s, n).value
    decreases n
  {
    hide NameLength, EncodeQuestion, ValidQuestion, SkipQuestions;
    QuestionsDone(s);
    if n == 0 {
      qs := [];
    } else {
      assert s[0..] == s;
      QuestionTurn(s, 0, n);
      var k := NameLength(s).value;
      var q := SkippedQuestion(s);
      var more := SkippedQuestions(s[k + 4..], n - 1);
      qs := [q] + more;
      assert qs[1..] == more;
      assert s == s[..k + 4] + s[k + 4..];
    }
  }

  lemma SkippedQuestion(s: seq<byte>) returns (q: Question)
    requires NameLength(s).Ok? && NameLength(s).value + 4 <= |s|
    ensures ValidQuestion(q) && EncodeQuestion(q) == s[..NameLength(s).value + 4]
  {
    hide NameLength, EncodeName, ValidName, BE16, FromBE16;
    var k := NameLength(s).value;
    var name := SkippedName(s);
    q := Question(name, FromBE16(s[k..]), FromBE16(s[k + 2..]));
    Reencoded(s, k);
    Reencoded(s, k + 2);
    assert s[..k] + (s[k..k + 2] + s[k + 2..k + 4]) == s[..k + 4];
  }

  lemma Reencoded(s: seq<byte>, k: nat)
    requires k + 2 <= |s|
    ensures BE16(FromBE16(s[k..])) == s[k..k + 2]
  {
  }

  lemma Reencoded32(s: seq<byte>, k: nat)
    requires k + 4 <= |s|
    ensures BE32(FromBE32(s[k..])) == s[k..k + 4]
  {
    var hi, lo := FromBE16(s[k..]), FromBE16(s[k + 2..]);
    assert s[k..][2..] == s[k + 2..];
    Reencoded(s, k);
    Reencoded(s, k + 2);
  }

  lemma SeenRecord(s: seq<byte>) returns (r: Record)
    requires ReadRecord(s).Ok?
    ensures ValidRecord(r) && EncodeRecord(r) == s[..ReadRecord(s).value.length]
    ensures ReadRecord(s).value == Seen(r.typ, r.cls, r.data, |EncodeRecord(r)|)
  {
    hide NameLength, EncodeName, ValidName, BE16, BE32, FromBE16, FromBE32;
    var k := NameLength(s).value;
    var seen := ReadRecord(s).value;
    var name := SkippedName(s);
    r := Record(name, seen.typ, seen.cls, FromBE32(s[k + 4..]), seen.data);
    Reencoded(s, k);
    Reencoded(s, k + 2);
    Reencoded32(s, k + 4);
    Reencoded(s, k + 8);
    assert s[k..k + 2] + s[k + 2..k + 4] + s[k + 4..k + 8] + s[k + 8..k + 10] == s[k..k + 10];
    assert RecordHead(r) == s[k..k + 10];
    assert s[..seen.length] == s[..k] + (s[k..k + 10] + s[k + 10..seen.length]);
  }

  lemma {:induction false} FoundAddress(s: seq<byte>, n: nat) returns (rs: seq<Record>, rest: seq<byte>)
    requires FindAddress(s, n).Ok?
    ensures |rs| <= n && (forall i | 0 <= i < |rs| :: ValidRecord(rs[i]))
    ensures s == EncodeRecords(rs) + rest && FirstAddress(rs) == Some(FindAddress(s, n).value)
    decreases n
  {
    hide ReadRecord, EncodeRecord;
    var r := SeenRecord(s);
    var seen := ReadRecord(s).value;
    if IsAddress(r) {
      rs, rest := [r], s[seen.length..];
      assert rs[1..] == [] && EncodeRecords(rs) == EncodeRecord(r) + [];
      assert s == s[..seen.length] + s[seen.length..];
    } else {
      var more, tail := FoundAddress(s[seen.length..], n - 1);
      rs, rest := [r] + more, tail;
      assert rs[1..] == more;
      assert s == s[..seen.length] + s[seen.length..];
    }
  }

  /** What makes a packet answer a query with an address: its header, then as
      many questions as announced, then records, at most as many as announced,
      the first address among which is ip. */
  ghost predicate Answers(id: u16, packet: seq<byte>, qs: seq<Question>, rs: seq<Record>, rest: seq<byte>,
                          ip: seq<byte>) {
    && |packet| >= 12 && FromBE16(packet) == id
    && FromBE16(packet[2..]) >= 0x8000 && FromBE16(packet[2..]) % 0x10 == 0
    && |qs| == FromBE16(packet[4..]) && |rs| <= FromBE16(packet[6..])
    && (forall i | 0 <= i < |qs| :: ValidQuestion(qs[i])) && (forall i | 0 <= i < |rs| :: ValidRecord(rs[i]))
    && packet[12..] == EncodeQuestions(qs) + (EncodeRecords(rs) + rest)
    && exists i | 0 <= i < |rs| :: FirstAt(rs, i) && rs[i].data == ip
  }

  /** Record i is the first of type A and class IN with four bytes of data. */
  ghost predicate FirstAt(rs: seq<Record>, i: nat)
    requires i < |rs|
  {
    && rs[i].typ == 1 && rs[i].cls == 1 && |rs[i].data| == 4
    && forall j | 0 <= j < i :: rs[j].typ != 1 || rs[j].cls != 1 || |rs[j].data| != 4
  }

  lemma {:induction false} FirstAddressIff(rs: seq<Record>, ip: seq<byte>)
    ensures FirstAddress(rs) == Some(ip) <==> exists i | 0 <= i < |rs| :: FirstAt(rs, i) && rs[i].data == ip
  {
    if rs != [] {
      FirstAddressIff(rs[1..], ip);
      if IsAddress(rs[0]) {
        assert FirstAt(rs, 0);
      } else {
        forall i | 0 < i < |rs| ensures FirstAt(rs, i) <==> FirstAt(rs[1..], i - 1) {
          if FirstAt(rs[1..], i - 1) {
            forall j | 0 <= j < i ensures rs[j].typ != 1 || rs[j].cls != 1 || |rs[j].data| != 4 {
              if j > 0 { assert rs[j] == rs[1..][j - 1]; }
            }
          }
        }
        if FirstAddress(rs) == Some(ip) {
          var k :| 0 <= k < |rs[1..]| && FirstAt(rs[1..], k) && rs[1..][k].data == ip;
          assert FirstAt(rs, k + 1) && rs[k + 1].data == ip;
        }
        forall i | 0 <= i < |rs| && FirstAt(rs, i) && rs[i].data == ip ensures FirstAddress(rs) == Some(ip) {
          assert FirstAt(rs[1..], i - 1) && rs[1..][i - 1].data == ip;
        }
      }
    }
  }

  /** An address is returned exactly for packets that hold it, whatever bytes
      the packet is made of. */
  lemma AcceptedIff(id: u16, packet: seq<byte>, ip: seq<byte>)
    ensures ParseAddress(id, packet) == Ok(ip) <==> exists qs, rs, rest :: Answers(id, packet, qs, rs, rest, ip)
  {
    hide FromBE16, SkipQuestions, FindAddress, EncodeQuestions, EncodeRecords, FirstAddress;
    if ParseAddress(id, packet) == Ok(ip) {
      var body := packet[12..];
      var qs := SkippedQuestions(body, FromBE16(packet[4..]));
      var s := SkipQuestions(body, FromBE16(packet[4..])).value;
      var rs, rest := FoundAddress(s, FromBE16(packet[6..]));
      FirstAddressIff(rs, ip);
      assert Answers(id, packet, qs, rs, rest, ip);
    }
    forall qs, rs, rest | Answers(id, packet, qs, rs, rest, ip) ensures ParseAddress(id, packet) == Ok(ip) {
      QuestionsSkipped(qs, EncodeRecords(rs) + rest);
      FirstAddressIff(rs, ip);
      AddressFound(rs, rest, FromBE16(packet[6..]));
    }
  }

  // ------------------------------------------------------------- the query

  const DOT: byte := 0x2E

  /** The name without its trailing dots. */
  function TrimDots(d: seq<byte>): (r: seq<byte>)
    ensures r == [] || r[|r| - 1] != DOT
    ensures r <= d && forall i | |r| <= i < |d| :: d[i] == DOT
  {
    if d != [] && d[|d| - 1] == DOT then TrimDots(d[..|d| - 1]) else d
  }

  /** The labels between dots. */
  function Split(d: seq<byte>): (labels: seq<seq<byte>>)
    ensures labels != []
  {
    if d == [] then [[]]
    else
      var more := Split(d[1..]);
      if d[0] == DOT then [[]] + more else [[d[0]] + more[0]] + more[1..]
  }

  function Join(labels: seq<seq<byte>>): seq<byte>
    requires labels != []
  {
    if |labels| == 1 then labels[0] else labels[0] + [DOT] + Join(labels[1..])
  }

  /** Splitting loses nothing, and no label holds a dot. */
  lemma {:induction false} SplitJoins(d: seq<byte>)
    ensures Join(Split(d)) == d
    ensures forall l | l in Split(d) :: DOT !in l
  {
    if d != [] {
      SplitJoins(d[1..]);
      var more := Split(d[1..]);
      if d[0] == DOT {
        assert ([[]] + more)[1..] == more;
        assert d == [] + [DOT] + d[1..];
      } else {
        var first := [d[0]] + more[0];
        assert ([first] + more[1..])[1..] == more[1..];
        assert d == [d[0]] + d[1..];
      }
    }
  }

  predicate GoodLabels(labels: seq<seq<byte>>) {
    forall i | 0 <= i < |labels| :: 1 <= |labels[i]| <= 63
  }

  function PlainName(labels: seq<seq<byte>>): (n: Name)
    ensures GoodLabels(labels) ==> ValidName(n)
  {
    if labels == [] then Root else Label(labels[0], PlainName(labels[1..]))
  }

  predicate GoodDomain(domain: seq<byte>) {
    var d := TrimDots(domain);
    d != [] && |d| <= 253 && GoodLabels(Split(d))
  }

  function QueryFor(id: u16, domain: seq<byte>): Message {
    Message(id, 0x0100, [Question(PlainName(Split(TrimDots(domain))), 1, 1)], [], 0, 0, [])
  }

  lemma {:induction false} EncodedLength(labels: seq<seq<byte>>)
    requires labels != [] && GoodLabels(labels)
    ensures |EncodeName(PlainName(labels))| == |Join(labels)| + 2
  {
    if |labels| == 1 {
      assert PlainName(labels[1..]) == Root;
    } else {
      EncodedLength(labels[1..]);
    }
  }

  /** The name in an accepted query is at most 255 bytes, the limit of section
      2.3.4 of RFC 1035. */
  lemma QueryNameFits(id: u16, domain: seq<byte>)
    requires GoodDomain(domain)
    ensures ValidMessage(QueryFor(id, domain))
    ensures |EncodeName(QueryFor(id, domain).questions[0].name)| == |TrimDots(domain)| + 2 <= 255
  {
    hide TrimDots, Split, Join;
    var d := TrimDots(domain);
    SplitJoins(d);
    EncodedLength(Split(d));
  }

  /** A query asks for the addresses of a domain of at most 253 bytes, not counting
      dots at its end, whose labels have 1 to 63 bytes: the id, recursion
      desired, one question, the name label by label, type A and class IN. */
  lemma QueryLaidOut(id: u16, domain: seq<byte>)
    ensures GoodDomain(domain)
       <==> 1 <= |TrimDots(domain)| <= 253 && forall l | l in Split(TrimDots(domain)) :: 1 <= |l| <= 63
    ensures GoodDomain(domain) ==>
              && ValidMessage(QueryFor(id, domain))
              && EncodeMessage(QueryFor(id, domain))
                 == BE16(id) + [1, 0, 0, 1, 0, 0, 0, 0, 0, 0] + LabelBytes(Split(TrimDots(domain))) + [0, 0, 1, 0, 1]
  {
    hide TrimDots, Split, EncodeMessage, LabelBytes, EncodeHead, BE16;
    if GoodDomain(domain) {
      var labels := LabelBytes(Split(TrimDots(domain)));
      var head := EncodeHead(id, 0x0100, 1, 0, 0, 0);
      assert head == BE16(id) + [1, 0, 0, 1, 0, 0, 0, 0, 0, 0] && BE16(1) == [0, 1] by { FixedBytes(id); }
      QueryBytes(id, domain, head + labels + [0] + BE16(1) + BE16(1), head);
      assert head + labels + [0] + [0, 1] + [0, 1] == head + labels + [0, 0, 1, 0, 1];
    }
  }

  lemma FixedBytes(id: u16)
    ensures EncodeHead(id, 0x0100, 1, 0, 0, 0) == BE16(id) + [1, 0, 0, 1, 0, 0, 0, 0, 0, 0] && BE16(1) == [0, 1]
  {
  }

  /** Label bytes written one after the other. */
  function LabelBytes(labels: seq<seq<byte>>): seq<byte>
    requires GoodLabels(labels)
  {
    if labels == [] then []
    else LabelBytes(labels[..|labels| - 1]) + [|labels[|labels| - 1]|] + labels[|labels| - 1]
  }

  lemma {:induction false} LabelBytesName(labels: seq<seq<byte>>, k: nat)
    requires k <= |labels| && GoodLabels(labels)
    ensures LabelBytes(labels[..k]) + EncodeName(PlainName(labels[k..])) == EncodeName(PlainName(labels))
  {
    if k == 0 {
      assert labels[0..] == labels;
    } else {
      LabelBytesName(labels, k - 1);
      assert labels[..k][..k - 1] == labels[..k - 1];
      assert labels[k - 1..][1..] == labels[k..];
      var l := labels[k - 1];
      var more := EncodeName(PlainName(labels[k..]));
      assert LabelBytes(labels[..k - 1]) + [|l|] + l + more == LabelBytes(labels[..k - 1]) + ([|l|] + l + more);
    }
  }

  /** A query is built exactly for a good domain, and it is a well-formed
      message asking one question. */
  method BuildAQuery(id: u16, domain: seq<byte>) returns (r: Result<seq<byte>>)
    ensures r.Ok? <==> GoodDomain(domain)
    ensures r.Ok? ==> ValidMessage(QueryFor(id, domain)) && r.value == EncodeMessage(QueryFor(id, domain))
  {
    hide TrimDots, Split, EncodeName, EncodeMessage, BE16;
    var d := TrimDots(domain);
    if d == [] || |d| > 253 {
      return Err("invalid DNS name");
    }
    var query := BE16(id) + BE16(0x0100) + BE16(1) + BE16(0) + BE16(0) + BE16(0);
    ghost var head := query;
    var labels := Split(d);
    for i := 0 to |labels|
      invariant GoodLabels(labels[..i])
      invariant query == head + LabelBytes(labels[..i])
    {
      var text := labels[i];
      if text == [] || |text| > 63 {
        return Err("invalid DNS label");
      }
      assert labels[..i + 1][..i] == labels[..i];
      query := query + [|text|] + text;
    }
    assert labels[..|labels|] == labels;
    query := query + [0] + BE16(1) + BE16(1);
    QueryBytes(id, domain, query, head);
    r := Ok(query);
  }

  lemma RootByte()
    ensures EncodeName(Root) == [0]
  {
  }

  lemma QueryBytes(id: u16, domain: seq<byte>, query: seq<byte>, head: seq<byte>)
    requires GoodDomain(domain) && head == EncodeHead(id, 0x0100, 1, 0, 0, 0)
    requires query == head + LabelBytes(Split(TrimDots(domain))) + [0] + BE16(1) + BE16(1)
    ensures ValidMessage(QueryFor(id, domain)) && query == EncodeMessage(QueryFor(id, domain))
  {
    hide TrimDots, Split, EncodeHead, BE16, EncodeName, LabelBytes;
    var labels := Split(TrimDots(domain));
    LabelBytesName(labels, |labels|);
    assert labels[..|labels|] == labels && PlainName(labels[|labels|..]) == Root;
    assert EncodeName(Root) == [0] by { RootByte(); }
    var q := Question(PlainName(labels), 1, 1);
    assert LabelBytes(labels) + [0] == EncodeName(q.name);
    assert EncodeQuestions([q]) == EncodeQuestion(q) + [] by { assert [q][1..] == []; }
    assert EncodeMessage(QueryFor(id, domain)) == head + (EncodeQuestion(q) + []);
  }
}
