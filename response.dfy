/**
 * The response that `answer_with` composes: a status line, the two entity
 * headers for a 200 response only, an empty line, then the file contents
 * written behind it.
 */
module Response {
  import opened Wrappers
  import opened Chars
  import opened Decimal

  /** The reason phrase of a status code; `answer_with` has none for a code
      outside the three it knows. */
  function Reason(code: int): seq<char>
  {
    if code == 200 then "OK"
    else if code == 400 then "Bad Request"
    else if code == 404 then "Not Found"
    else ""
  }

  function StatusLine(code: int): seq<char>
  {
    "HTTP/1.0 " + IntToString(code) + " " + Reason(code)
  }

  const ContentTypeLine: seq<char> := "Content-Type: text/html"
  const ContentLengthName: seq<char> := "Content-Length: "

  function LengthLine(contentLength: nat): seq<char>
  {
    ContentLengthName + NatToString(contentLength)
  }

  /** The two entity header lines of a 200 response, each ended by CR LF. */
  function EntityLines(contentLength: nat): seq<char>
  {
    ContentTypeLine + "\r\n" + LengthLine(contentLength) + "\r\n"
  }

  /** The entity lines as one piece of text with the length spliced in. */
  lemma EntityLinesText(n: nat)
    ensures EntityLines(n) == "Content-Type: text/html\r\nContent-Length: " + NatToString(n) + "\r\n"
  {
    var digits := NatToString(n);
    assert ContentTypeLine + "\r\n" + ContentLengthName == "Content-Type: text/html\r\nContent-Length: ";
    assert ContentTypeLine + "\r\n" + (ContentLengthName + digits) == ContentTypeLine + "\r\n" + ContentLengthName + digits;
  }

  /** The header text `answer_with` leaves in `response_`, for a body of
      `contentLength` bytes: the status line, for 200 only the two entity
      header lines, then the empty line, each line ended by CR LF. */
  function Header(code: int, contentLength: nat): seq<char>
  {
    StatusLine(code) + "\r\n" + (if code == 200 then EntityLines(contentLength) else []) + "\r\n"
  }

  /** What the single write sends: the header, then the body. */
  function Wire(code: int, body: seq<char>): seq<char>
  {
    Header(code, |body|) + body
  }

  /** The complete answers to a refused and to an unservable request. */
  const BadRequestResponse: seq<char> := "HTTP/1.0 400 Bad Request\r\n\r\n"
  const NotFoundResponse: seq<char> := "HTTP/1.0 404 Not Found\r\n\r\n"

  lemma Numeral200(code: int)
    requires code == 200
    ensures IntToString(code) == "200"
  {
    assert NatToString(2) == "2";
    assert NatToString(20) == "20";
  }

  lemma Numeral400(code: int)
    requires code == 400
    ensures IntToString(code) == "400"
  {
    assert NatToString(4) == "4";
    assert NatToString(40) == "40";
  }

  lemma Numeral404(code: int)
    requires code == 404
    ensures IntToString(code) == "404"
  {
    assert NatToString(4) == "4";
    assert NatToString(40) == "40";
  }

  /** The exact bytes of the two error headers: no entity headers, and the
      same text whatever the body length. */
  lemma ErrorHeaders(n: nat)
    ensures Header(400, n) == BadRequestResponse
    ensures Header(404, n) == NotFoundResponse
  {
    BadRequestHeader(400, n);
    NotFoundHeader(404, n);
  }

  lemma BadRequestHeader(code: int, n: nat)
    requires code == 400
    ensures Header(code, n) == BadRequestResponse
  {
    Numeral400(code);
    ErrorHeaderLines(code, n);
    assert StatusLine(code) == "HTTP/1.0 " + "400" + " " + "Bad Request";
  }

  lemma NotFoundHeader(code: int, n: nat)
    requires code == 404
    ensures Header(code, n) == NotFoundResponse
  {
    Numeral404(code);
    ErrorHeaderLines(code, n);
    assert StatusLine(code) == "HTTP/1.0 " + "404" + " " + "Not Found";
  }

  /** The exact bytes of a 200 header for a body of `n` bytes. */
  lemma OkHeader(n: nat)
    ensures Header(200, n) ==
      "HTTP/1.0 200 OK\r\n" + "Content-Type: text/html\r\n" + "Content-Length: " + NatToString(n) + "\r\n" + "\r\n"
  {
    OkHeaderLines(200, n);
    OkStatusLine(200);
    ContentTypeText("\r\n");
    RegroupOkHeader(StatusLine(200), "\r\n", ContentTypeLine, ContentLengthName, NatToString(n));
  }

  /** A 200 header is three lines, then the empty line. */
  lemma OkHeaderLines(code: int, n: nat)
    requires code == 200
    ensures Header(code, n) ==
      StatusLine(code) + "\r\n" + ContentTypeLine + "\r\n" + LengthLine(n) + "\r\n\r\n"
  {
    RegroupLines(StatusLine(code), "\r\n", ContentTypeLine, LengthLine(n));
  }

  lemma RegroupLines(status: seq<char>, crlf: seq<char>, contentType: seq<char>, length: seq<char>)
    requires crlf == "\r\n"
    ensures status + crlf + (contentType + crlf + length + crlf) + crlf
      == status + crlf + contentType + crlf + length + "\r\n\r\n"
  {
    assert crlf + crlf == "\r\n\r\n";
  }

  lemma ContentTypeText(crlf: seq<char>)
    requires crlf == "\r\n"
    ensures ContentTypeLine + crlf == "Content-Type: text/html\r\n"
  {
  }

  lemma RegroupOkHeader(status: seq<char>, crlf: seq<char>, contentType: seq<char>, name: seq<char>, digits: seq<char>)
    ensures status + crlf + contentType + crlf + (name + digits) + (crlf + crlf)
      == (status + crlf) + (contentType + crlf) + name + digits + crlf + crlf
  {
  }

  lemma OkStatusLine(code: int)
    requires code == 200
    ensures StatusLine(code) + "\r\n" == "HTTP/1.0 200 OK\r\n"
  {
    Numeral200(code);
    assert StatusLine(code) == "HTTP/1.0 " + "200" + " " + "OK";
  }

  /** A client that reads the Content-Length value of a 200 header with
      `atoi` gets the length of the body that follows. */
  lemma ContentLengthReadsBack(n: nat)
    ensures var h := Header(200, n);
      var prefix := "HTTP/1.0 200 OK\r\n" + "Content-Type: text/html\r\n" + "Content-Length: ";
      h[..|prefix|] == prefix && Atoi(h[|prefix|..]) == n
  {
    OkHeader(n);
    var prefix := "HTTP/1.0 200 OK\r\n" + "Content-Type: text/html\r\n" + "Content-Length: ";
    var h := Header(200, n);
    assert h == prefix + (NatToString(n) + "\r\n\r\n");
    AtoiOfNumeral(n, "\r\n\r\n");
  }

  /** No header line holds a carriage return of its own, whatever the code
      and the length. */
  lemma LinesHaveNoCarriageReturn(code: int, n: nat)
    ensures '\r' !in StatusLine(code)
    ensures '\r' !in ContentTypeLine
    ensures '\r' !in LengthLine(n)
  {
    StatusLineHasNoCarriageReturn(code);
    LengthLineHasNoCarriageReturn(n);
  }

  lemma StatusLineHasNoCarriageReturn(code: int)
    ensures '\r' !in StatusLine(code)
  {
    var prefix, numeral, reason := "HTTP/1.0 ", IntToString(code), Reason(code);
    assert '\r' !in prefix && '\r' !in reason;
    assert StatusLine(code) == prefix + numeral + " " + reason;
  }

  lemma LengthLineHasNoCarriageReturn(n: nat)
    ensures '\r' !in LengthLine(n)
  {
    assert '\r' !in ContentLengthName;
  }

  /** No empty line starts inside a line that holds no carriage return and
      is followed by a line that does not start empty. */
  lemma NoBlankLineInLine(w: seq<char>, p: seq<char>, line: seq<char>, q: seq<char>)
    requires w == p + line + "\r\n" + q
    requires '\r' !in line
    requires 0 < |q| && q[0] != '\r'
    ensures forall k :: |p| <= k < |p| + |line| + 2 ==> !OccursAt(w, BlankLine, k)
  {
    var e := |p| + |line|;
    assert BlankLine[0] == '\r' && BlankLine[2] == '\r' && |BlankLine| == 4;
    forall k | |p| <= k < e + 2
      ensures !OccursAt(w, BlankLine, k)
    {
      if k + 4 <= |w| {
        var window := w[k..k + 4];
        if k < e {
          assert w[k] == line[k - |p|];
          assert window[0] == w[k] != '\r';
        } else if k == e {
          assert w[k + 2] == q[0];
          assert window[2] == w[k + 2] != '\r';
        } else {
          assert w[k] == '\n';
          assert window[0] == w[k];
        }
        assert window != BlankLine;
      }
    }
  }

  /** After a last line that holds no carriage return, the empty line
      follows. */
  lemma BlankLineAfterLastLine(w: seq<char>, p: seq<char>, line: seq<char>, body: seq<char>)
    requires w == p + line + "\r\n\r\n" + body
    requires '\r' !in line
    ensures forall k :: |p| <= k < |p| + |line| ==> !OccursAt(w, BlankLine, k)
    ensures OccursAt(w, BlankLine, |p| + |line|)
  {
    var e := |p| + |line|;
    assert BlankLine[0] == '\r' && |BlankLine| == 4;
    forall k | |p| <= k < e
      ensures !OccursAt(w, BlankLine, k)
    {
      assert w[k] == line[k - |p|];
      assert w[k] != '\r';
      assert w[k..k + 4][0] == w[k];
      assert w[k..k + |BlankLine|] != BlankLine;
    }
    assert w[e..e + 4] == BlankLine;
  }

  /** In three lines followed by the empty line, that empty line is the
      first one. */
  lemma FirstBlankLineAfterThreeLines(w: seq<char>, first: seq<char>, second: seq<char>, third: seq<char>, body: seq<char>)
    requires w == first + "\r\n" + second + "\r\n" + third + "\r\n\r\n" + body
    requires '\r' !in first && '\r' !in second && '\r' !in third
    requires 0 < |second| && 0 < |third|
    ensures Find(w, BlankLine, 0) == Some(|first| + |second| + |third| + 4)
  {
    var rest2 := second + "\r\n" + third + "\r\n\r\n" + body;
    assert second[0] in second;
    assert w == [] + first + "\r\n" + rest2;
    NoBlankLineInLine(w, [], first, rest2);
    var p2 := first + "\r\n";
    var rest3 := third + "\r\n\r\n" + body;
    assert third[0] in third;
    assert w == p2 + second + "\r\n" + rest3;
    NoBlankLineInLine(w, p2, second, rest3);
    var p3 := p2 + second + "\r\n";
    assert w == p3 + third + "\r\n\r\n" + body;
    BlankLineAfterLastLine(w, p3, third, body);
    FindsFirst(w, BlankLine, 0, |p3| + |third|);
  }

  lemma OkHeaderEndsAtFirstBlankLine(code: int, body: seq<char>)
    requires code == 200
    ensures Find(Header(code, |body|) + body, BlankLine, 0) == Some(|Header(code, |body|)| - 4)
  {
    var lengthLine := LengthLine(|body|);
    LinesHaveNoCarriageReturn(code, |body|);
    assert ContentLengthName[0] in lengthLine;
    OkHeaderLines(code, |body|);
    FirstBlankLineAfterThreeLines(Header(code, |body|) + body, StatusLine(code), ContentTypeLine, lengthLine, body);
  }

  lemma ErrorHeaderEndsAtFirstBlankLine(code: int, body: seq<char>)
    requires code != 200
    ensures Find(Header(code, |body|) + body, BlankLine, 0) == Some(|Header(code, |body|)| - 4)
  {
    LinesHaveNoCarriageReturn(code, |body|);
    ErrorHeaderLines(code, |body|);
    OneLineThenBlankLine(Header(code, |body|), StatusLine(code), body);
  }

  /** After a single line without carriage return, the empty line is the
      first one. */
  lemma OneLineThenBlankLine(h: seq<char>, line: seq<char>, body: seq<char>)
    requires h == line + "\r\n\r\n" && '\r' !in line
    ensures Find(h + body, BlankLine, 0) == Some(|h| - 4)
  {
    var w := h + body;
    assert w == [] + line + "\r\n\r\n" + body;
    BlankLineAfterLastLine(w, [], line, body);
    FindsFirst(w, BlankLine, 0, |line|);
  }

  /** A header without entity lines is the status line and two line ends. */
  lemma ErrorHeaderLines(code: int, n: nat)
    requires code != 200
    ensures Header(code, n) == StatusLine(code) + "\r\n\r\n"
  {
    TwoLineEnds(StatusLine(code), "\r\n");
  }

  lemma TwoLineEnds(line: seq<char>, crlf: seq<char>)
    requires crlf == "\r\n"
    ensures line + crlf + [] + crlf == line + "\r\n\r\n"
  {
    assert crlf + crlf == "\r\n\r\n";
  }

  /**
   * The first empty line of what is written is the end of the header, so a
   * client that splits the bytes there recovers the header and exactly the
   * body, whatever the body holds.
   */
  lemma HeaderEndsAtFirstBlankLine(code: int, body: seq<char>)
    ensures var w := Wire(code, body);
      var h := Header(code, |body|);
      Find(w, BlankLine, 0) == Some(|h| - 4) && w[..|h|] == h && w[|h|..] == body
  {
    var h := Header(code, |body|);
    if code == 200 {
      OkHeaderEndsAtFirstBlankLine(code, body);
    } else {
      ErrorHeaderEndsAtFirstBlankLine(code, body);
    }
    assert (h + body)[..|h|] == h && (h + body)[|h|..] == body;
  }
}
