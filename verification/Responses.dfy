/** HTTP/1.1 responses, their serialization, and a reader that undoes it. */
module Responses {
  import opened Wrappers
  import opened Decimal

  datatype HttpCode = OK | Created | Forbidden | NotFound | NotAllowed | InternalError

  datatype MediaType = NoMedia | ApplicationJson | TextPlain

  /** A response; built from a code alone it is an empty `text/plain` one. */
  datatype Response = Response(code: HttpCode, media: MediaType, content: string)

  const CR: char := '\r'
  const CRLF: string := "\r\n"
  const VERSION: string := "HTTP/1.1"

  function Bare(code: HttpCode): Response {
    Response(code, TextPlain, "")
  }

  function CodeToInt(code: HttpCode): nat {
    match code
    case OK => 200
    case Created => 201
    case Forbidden => 403
    case NotFound => 404
    case NotAllowed => 405
    case InternalError => 500
  }

  function MediaTypeToString(media: MediaType): string {
    match media
    case ApplicationJson => "application/json"
    case TextPlain => "text/plain"
    case NoMedia => "application/octet-stream"
  }

  function ReasonPhrase(code: HttpCode): string {
    match code
    case OK => "OK"
    case Created => "Created"
    case Forbidden => "Forbidden"
    case NotFound => "Not Found"
    case NotAllowed => "Method Not Allowed"
    case InternalError => "Internal Server Error"
  }

  /** A header line, without its CRLF. */
  function Field(name: string, value: string): string {
    name + ": " + value
  }

  function StatusLine(code: HttpCode): string {
    VERSION + " " + Print(CodeToInt(code)) + " " + ReasonPhrase(code)
  }

  /** The header lines in the order they are written. */
  function HeaderFields(r: Response): seq<(string, string)> {
    [("Content-Length", Print(|r.content|)),
     ("Connection", "close"),
     ("Content-Type", MediaTypeToString(r.media))]
  }

  /** Lines, each closed by CRLF. */
  function Lines(fields: seq<(string, string)>): string {
    if fields == [] then ""
    else Field(fields[0].0, fields[0].1) + CRLF + Lines(fields[1..])
  }

  function Render(r: Response): string {
    StatusLine(r.code) + CRLF + Lines(HeaderFields(r)) + CRLF + r.content
  }

  /** `Response::to_string`: one insertion after another into a stream. */
  method ToString(r: Response) returns (out: string)
    ensures out == Render(r)
  {
    out := VERSION + " " + Print(CodeToInt(r.code)) + " ";
    out := out + ReasonPhrase(r.code);
    out := out + CRLF;
    ghost var status := out;
    var lengthField := Field("Content-Length", Print(|r.content|));
    var connectionField := Field("Connection", "close");
    var typeField := Field("Content-Type", MediaTypeToString(r.media));
    out := out + lengthField + CRLF;
    out := out + connectionField + CRLF;
    out := out + typeField + CRLF;
    ThreeLines(status, HeaderFields(r), lengthField, connectionField, typeField);
    out := out + CRLF;
    out := out + r.content;
  }

  lemma StatusDigits()
    ensures Print(200) == "200" && Print(201) == "201" && Print(403) == "403"
    ensures Print(404) == "404" && Print(405) == "405" && Print(500) == "500"
  {
    assert Print(20) == "20" && Print(40) == "40" && Print(50) == "50";
  }

  /** The status lines, letter by letter. */
  lemma StatusText()
    ensures StatusLine(OK) == "HTTP/1.1" + " " + "200" + " " + "OK"
    ensures StatusLine(Created) == "HTTP/1.1" + " " + "201" + " " + "Created"
    ensures StatusLine(Forbidden) == "HTTP/1.1" + " " + "403" + " " + "Forbidden"
    ensures StatusLine(NotFound) == "HTTP/1.1" + " " + "404" + " " + "Not Found"
    ensures StatusLine(NotAllowed) == "HTTP/1.1" + " " + "405" + " " + "Method Not Allowed"
    ensures StatusLine(InternalError) == "HTTP/1.1" + " " + "500" + " " + "Internal Server Error"
  {
    hide Print;
    StatusDigits();
  }

  lemma MediaText()
    ensures MediaTypeToString(ApplicationJson) == "application/json"
    ensures MediaTypeToString(TextPlain) == "text/plain"
    ensures MediaTypeToString(NoMedia) == "application/octet-stream"
  {
  }

  /** And the whole message around them. */
  lemma RenderIsText(r: Response)
    ensures Render(r) == StatusLine(r.code) + "\r\n"
                       + ("Content-Length" + ": " + Print(|r.content|)) + "\r\n"
                       + ("Connection" + ": " + "close") + "\r\n"
                       + ("Content-Type" + ": " + MediaTypeToString(r.media)) + "\r\n"
                       + "\r\n" + r.content
  {
    hide Print, StatusLine, MediaTypeToString, Lines;
    var head, a := StatusLine(r.code) + "\r\n", "Content-Length" + ": " + Print(|r.content|);
    var b, c := "Connection" + ": " + "close", "Content-Type" + ": " + MediaTypeToString(r.media);
    ThreeLines(head, HeaderFields(r), a, b, c);
  }

  lemma ThreeLines(head: string, fields: seq<(string, string)>, a: string, b: string, c: string)
    requires |fields| == 3
    requires a == Field(fields[0].0, fields[0].1)
    requires b == Field(fields[1].0, fields[1].1)
    requires c == Field(fields[2].0, fields[2].1)
    ensures head + a + CRLF + b + CRLF + c + CRLF == head + Lines(fields)
  {
    var tail := fields[2..];
    assert fields[1..][1..] == tail && tail[1..] == [];
    LinePrepends(head, fields);
    LinePrepends(head + a + CRLF, fields[1..]);
    LinePrepends(head + a + CRLF + b + CRLF, tail);
    assert Lines(tail[1..]) == "";
  }

  lemma LinePrepends(head: string, fields: seq<(string, string)>)
    requires fields != []
    ensures head + Lines(fields) == head + Field(fields[0].0, fields[0].1) + CRLF + Lines(fields[1..])
  {
    var f, rest := Field(fields[0].0, fields[0].1), Lines(fields[1..]);
    assert head + (f + CRLF + rest) == head + f + CRLF + rest;
  }

  // ---------- reading a response back ----------

  /** The text up to the first CRLF, and what follows it. */
  function ReadLine(s: string): (r: Option<(string, string)>)
    ensures r.Some? ==> |r.value.1| < |s|
  {
    if |s| < 2 then None
    else if s[..2] == CRLF then Some(("", s[2..]))
    else
      match ReadLine(s[1..])
      case None => None
      case Some((line, rest)) => Some(([s[0]] + line, rest))
  }

  /** A header line cut at its first colon, one space after the colon skipped. */
  function ReadField(line: string): Option<(string, string)> {
    if line == "" then None
    else if line[0] == ':' then Some(("", if |line| > 1 && line[1] == ' ' then line[2..] else line[1..]))
    else
      match ReadField(line[1..])
      case None => None
      case Some((name, value)) => Some(([line[0]] + name, value))
  }

  /** Header lines up to the empty line, and what follows it. */
  function ReadFields(s: string): Option<(seq<(string, string)>, string)>
    decreases |s|
  {
    match ReadLine(s)
    case None => None
    case Some((line, rest)) =>
      if line == "" then Some(([], rest))
      else
        match (ReadField(line), ReadFields(rest))
        case (Some(field), Some((fields, body))) => Some(([field] + fields, body))
        case _ => None
  }

  function Lookup(fields: seq<(string, string)>, name: string): Option<string> {
    if fields == [] then None
    else if fields[0].0 == name then Some(fields[0].1)
    else Lookup(fields[1..], name)
  }

  function ReadNumber(s: string): Option<nat> {
    if s != "" && AllDigits(s) then Some(Parse(s)) else None
  }

  function CodeOfInt(n: nat): Option<HttpCode> {
    if n == 200 then Some(OK)
    else if n == 201 then Some(Created)
    else if n == 403 then Some(Forbidden)
    else if n == 404 then Some(NotFound)
    else if n == 405 then Some(NotAllowed)
    else if n == 500 then Some(InternalError)
    else None
  }

  function MediaOfString(s: string): Option<MediaType> {
    if s == "application/json" then Some(ApplicationJson)
    else if s == "text/plain" then Some(TextPlain)
    else if s == "application/octet-stream" then Some(NoMedia)
    else None
  }

  /** HTTP-version SP three digits SP reason-phrase (section 3.1.2 of RFC 7230). */
  function ReadStatus(line: string): Option<HttpCode> {
    if |line| >= |VERSION| + 5 && line[..|VERSION|] == VERSION
       && line[|VERSION|] == ' ' && line[|VERSION| + 4] == ' '
    then
      match ReadNumber(line[|VERSION| + 1..|VERSION| + 4])
      case Some(n) => CodeOfInt(n)
      case None => None
    else None
  }

  /**
    A reader following sections 3 and 3.3.2 of RFC 7230: status line, fields, an empty line, then
    exactly as many bytes as Content-Length says. What follows is handed back unread.
   */
  function Read(s: string): Option<(Response, string)> {
    match ReadLine(s)
    case None => None
    case Some((status, afterStatus)) =>
      match (ReadStatus(status), ReadFields(afterStatus))
      case (Some(code), Some((fields, body))) => ReadBody(code, fields, body)
      case _ => None
  }

  function ReadBody(code: HttpCode, fields: seq<(string, string)>, body: string): Option<(Response, string)> {
    match (Lookup(fields, "Content-Length"), Lookup(fields, "Content-Type"))
    case (Some(length), Some(media)) =>
      (match (ReadNumber(length), MediaOfString(media))
       case (Some(n), Some(m)) =>
         if n <= |body| then Some((Response(code, m, body[..n]), body[n..])) else None
       case _ => None)
    case _ => None
  }

  /** No carriage return: such text lies inside one line. */
  predicate OneLine(s: string) {
    forall i :: 0 <= i < |s| ==> s[i] != CR
  }

  predicate NoColon(s: string) {
    forall i :: 0 <= i < |s| ==> s[i] != ':'
  }

  lemma {:induction false} ReadLineOf(line: string, rest: string)
    requires OneLine(line)
    ensures ReadLine(line + CRLF + rest) == Some((line, rest))
  {
    var s := line + CRLF + rest;
    if line == "" {
      assert s[..2] == CRLF && s[2..] == rest;
    } else {
      ReadLineOf(line[1..], rest);
      assert s[1..] == line[1..] + CRLF + rest;
      assert s[..2][0] == line[0] && CRLF[0] == CR;
      assert [line[0]] + line[1..] == line;
    }
  }

  lemma {:induction false} ReadFieldOf(name: string, value: string)
    requires NoColon(name)
    ensures ReadField(Field(name, value)) == Some((name, value))
  {
    var line := Field(name, value);
    if name == "" {
      assert line[0] == ':' && line[1] == ' ' && line[2..] == value;
    } else {
      ReadFieldOf(name[1..], value);
      assert line[1..] == Field(name[1..], value);
      assert [name[0]] + name[1..] == name;
    }
  }

  predicate Readable(fields: seq<(string, string)>) {
    forall i :: 0 <= i < |fields| ==> NoColon(fields[i].0) && OneLine(fields[i].0) && OneLine(fields[i].1)
  }

  lemma {:induction false} ReadFieldsOf(fields: seq<(string, string)>, body: string)
    requires Readable(fields)
    ensures ReadFields(Lines(fields) + CRLF + body) == Some((fields, body))
  {
    if fields == [] {
      ReadLineOf("", body);
      assert "" + CRLF + body == Lines(fields) + CRLF + body;
    } else {
      ReadFieldsOf(fields[1..], body);
      ReadFieldsStep(fields[0].0, fields[0].1, fields[1..], Lines(fields[1..]) + CRLF + body, body);
      assert [fields[0]] + fields[1..] == fields;
      var line := Field(fields[0].0, fields[0].1) + CRLF;
      Regroup(line, Lines(fields[1..]), CRLF, body, "");
      assert body + "" == body;
      assert line + Lines(fields[1..]) + CRLF + body + "" == Lines(fields) + CRLF + body;
    }
  }

  lemma ReadFieldsStep(name: string, value: string, fields: seq<(string, string)>, rest: string, body: string)
    requires NoColon(name) && OneLine(name) && OneLine(value)
    requires ReadFields(rest) == Some((fields, body))
    ensures ReadFields(Field(name, value) + CRLF + rest) == Some(([(name, value)] + fields, body))
  {
    var line := Field(name, value);
    ReadFieldOf(name, value);
    assert line[|name|] == ':';
    ReadLineOf(line, rest);
  }

  lemma NamesAreReadable()
    ensures NoColon("Content-Length") && OneLine("Content-Length")
    ensures NoColon("Connection") && OneLine("Connection") && OneLine("close")
    ensures NoColon("Content-Type") && OneLine("Content-Type")
  {
  }

  lemma HeadersAreReadable(r: Response)
    ensures Readable(HeaderFields(r))
  {
    DigitsAreOneLine(|r.content|);
    assert OneLine(MediaTypeToString(r.media));
    NamesAreReadable();
  }

  lemma StatusIsReadable(code: HttpCode)
    ensures OneLine(StatusLine(code)) && ReadStatus(StatusLine(code)) == Some(code)
  {
    var n := CodeToInt(code);
    ParsePrint(n);
    CodeOfCode(code);
    ThreeDigits(n);
    DigitsAreOneLine(n);
    ConstantsAreOneLine(code);
    StatusParts(VERSION, Print(n), ReasonPhrase(code));
  }

  lemma ConstantsAreOneLine(code: HttpCode)
    ensures OneLine(VERSION) && OneLine(ReasonPhrase(code))
  {
  }

  lemma CodeOfCode(code: HttpCode)
    ensures 100 <= CodeToInt(code) < 1000 && CodeOfInt(CodeToInt(code)) == Some(code)
  {
  }

  lemma DigitsAreOneLine(n: nat)
    ensures OneLine(Print(n))
  {
    assert forall i :: 0 <= i < |Print(n)| ==> IsDigit(Print(n)[i]);
  }

  lemma StatusParts(version: string, digits: string, reason: string)
    requires |digits| == 3
    ensures var line, v := version + " " + digits + " " + reason, |version|;
            && |line| == v + 5 + |reason|
            && line[..v] == version && line[v + 1..v + 4] == digits
            && line[v] == line[v + 4] == ' '
            && (OneLine(version) && OneLine(digits) && OneLine(reason) ==> OneLine(line))
  {
  }

  lemma ThreeDigits(n: nat)
    requires 100 <= n < 1000
    ensures |Print(n)| == 3
  {
    assert 10 <= n / 10 < 100;
    assert |Print(n / 10 / 10)| == 1;
    assert |Print(n / 10)| == 2;
  }

  lemma Regroup(a: string, b: string, c: string, d: string, e: string)
    ensures a + b + c + d + e == a + (b + c + (d + e))
  {
  }

  lemma LookupHeaders(r: Response)
    ensures Lookup(HeaderFields(r), "Content-Length") == Some(Print(|r.content|))
    ensures Lookup(HeaderFields(r), "Content-Type") == Some(MediaTypeToString(r.media))
  {
    var fields := HeaderFields(r);
    var media := MediaTypeToString(r.media);
    var last := [("Content-Type", media)];
    assert fields[1..][1..] == last;
    assert Lookup(last, "Content-Type") == Some(media);
    assert fields[1..][0].0 == "Connection" && |"Connection"| != |"Content-Type"|;
    assert Lookup(fields[1..], "Content-Type") == Some(media);
    assert |"Content-Length"| != |"Content-Type"|;
  }

  lemma ReadBodyOf(r: Response, next: string)
    ensures ReadBody(r.code, HeaderFields(r), r.content + next) == Some((r, next))
  {
    LookupHeaders(r);
    ParsePrint(|r.content|);
    assert (r.content + next)[..|r.content|] == r.content;
    assert (r.content + next)[|r.content|..] == next;
  }

  /**
    Framing is invertible: whatever the body bytes, and whatever the connection sends next, the
    reader gets back code, media type and body, and exactly what follows.
   */
  lemma ReadRender(r: Response, next: string)
    ensures Read(Render(r) + next) == Some((r, next))
  {
    var fields, rest := HeaderFields(r), r.content + next;
    StatusIsReadable(r.code);
    HeadersAreReadable(r);
    ReadLineOf(StatusLine(r.code), Lines(fields) + CRLF + rest);
    ReadFieldsOf(fields, rest);
    Regroup(StatusLine(r.code) + CRLF, Lines(fields), CRLF, r.content, next);
    ReadBodyOf(r, next);
  }

  /** Different responses never serialize to the same bytes, nor one to a prefix of another. */
  lemma RenderIsPrefixFree(r: Response, r': Response)
    requires Render(r) <= Render(r')
    ensures r == r'
  {
    var next := Render(r')[|Render(r)|..];
    assert Render(r) + next == Render(r') + "";
    ReadRender(r, next);
    ReadRender(r', "");
  }
}
