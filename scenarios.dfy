/**
 * Complete exchanges with the server, from request bytes to response bytes,
 * for a root `/srv/www/` holding a file `index.html` with the text `hi`.
 * The file system is indexed by the name as the server spells it.
 */
module Scenarios {
  import opened Wrappers
  import opened Chars
  import opened Decimal
  import opened RequestLine
  import opened Response
  import opened Handler
  import opened Args

  /** A path in which no `..` occurs passes the guard. */
  lemma NoDotDot(path: seq<char>)
    requires forall k :: 0 <= k < |path| ==> path[k] != '.' || k + 1 == |path| || path[k + 1] != '.'
    ensures Find(path, "..", 0).None?
  {
    forall i: nat ensures !OccursAt(path, "..", i) {
      if i + 2 <= |path| {
        assert path[i..i + 2][0] == path[i] && path[i..i + 2][1] == path[i + 1];
      }
    }
  }

  /** The path of a GET line with an HTTP/1.0 or HTTP/1.1 version is what
      the parser returns. */
  lemma GetLineParses(request: seq<char>, path: seq<char>, version: seq<char>)
    requires IsWord(path) && (version == "HTTP/1.0" || version == "HTTP/1.1")
    requires request == Get + (" " + (path + (" " + (version + "\r\n\r\n"))))
    ensures ParseHttpUrl(request) == path
  {
    ParseSeparatedWords(Get, " ", path, " ", version, "\r\n\r\n");
    assert Substr(version, 0, 7) == VersionPrefix;
  }

  /** Scenario A: a file that exists is served with its length and bytes. */
  lemma ServesIndex(request: seq<char>, root: seq<char>, fs: FileSystem)
    requires request == "GET" + (" " + ("/index.html" + (" " + ("HTTP/1.1" + "\r\n\r\n"))))
    requires root == "/srv/www/" && fs == map["/srv/www/" + "/index.html" := Readable("hi")]
    ensures var r := Respond(request, root, fs);
      Wire(r.code, r.body) ==
        "HTTP/1.0 200 OK\r\n" + "Content-Type: text/html\r\n" + "Content-Length: " + "2" + "\r\n" + "\r\n" + "hi"
  {
    var path: seq<char> :| path == "/index.html";
    GetLineParses(request, path, "HTTP/1.1");
    IndexIsServed(request, root, fs, path);
    OkWire(Respond(request, root, fs));
  }

  lemma IndexIsServed(request: seq<char>, root: seq<char>, fs: FileSystem, path: seq<char>)
    requires ParseHttpUrl(request) == path && path == "/index.html"
    requires root == "/srv/www/" && fs == map["/srv/www/" + "/index.html" := Readable("hi")]
    ensures Respond(request, root, fs) == Reply(200, "hi")
  {
    NoDotDot(path);
    RespondByPath(request, root, fs, path);
  }

  lemma OkWire(r: Reply)
    requires r == Reply(200, "hi")
    ensures Wire(r.code, r.body) ==
      "HTTP/1.0 200 OK\r\n" + "Content-Type: text/html\r\n" + "Content-Length: " + "2" + "\r\n" + "\r\n" + "hi"
  {
    OkHeader(2);
    assert NatToString(2) == "2";
  }

  /** Scenario B: a traversing path is refused before any lookup. */
  lemma RefusesTraversal(request: seq<char>, root: seq<char>, fs: FileSystem)
    requires request == "GET" + (" " + ("/../etc/passwd" + (" " + ("HTTP/1.0" + "\r\n\r\n"))))
    ensures var r := Respond(request, root, fs);
      Wire(r.code, r.body) == BadRequestResponse
  {
    var path: seq<char> :| path == "/../etc/passwd";
    GetLineParses(request, path, "HTTP/1.0");
    TraversalIsRefused(request, root, fs, path);
    BadRequestWire(Respond(request, root, fs));
  }

  lemma TraversalIsRefused(request: seq<char>, root: seq<char>, fs: FileSystem, path: seq<char>)
    requires ParseHttpUrl(request) == path && path == "/../etc/passwd"
    ensures Respond(request, root, fs) == Reply(400, [])
  {
    assert OccursAt(path, "..", 1);
  }

  lemma BadRequestWire(r: Reply)
    requires r == Reply(400, [])
    ensures Wire(r.code, r.body) == BadRequestResponse
  {
    ErrorHeaders(0);
  }

  /** Scenario C: a method other than GET is refused. */
  lemma RefusesPost(request: seq<char>, root: seq<char>, fs: FileSystem)
    requires request == "POST" + (" " + ("/" + (" " + ("HTTP/1.0" + "\r\n\r\n"))))
    ensures var r := Respond(request, root, fs);
      Wire(r.code, r.body) == BadRequestResponse
  {
    ParseSeparatedWords("POST", " ", "/", " ", "HTTP/1.0", "\r\n\r\n");
    ErrorHeaders(0);
  }

  /** Scenario D: a file that does not exist is not found. */
  lemma MissingFile(request: seq<char>, root: seq<char>, fs: FileSystem)
    requires request == "GET" + (" " + ("/missing.txt" + (" " + ("HTTP/1.0" + "\r\n\r\n"))))
    requires root == "/srv/www/" && fs == map["/srv/www/" + "/index.html" := Readable("hi")]
    ensures var r := Respond(request, root, fs);
      Wire(r.code, r.body) == NotFoundResponse
  {
    var path: seq<char> :| path == "/missing.txt";
    GetLineParses(request, path, "HTTP/1.0");
    MissingIsAbsent(request, root, fs, path);
    ErrorHeaders(0);
  }

  lemma MissingIsAbsent(request: seq<char>, root: seq<char>, fs: FileSystem, path: seq<char>)
    requires ParseHttpUrl(request) == path && path == "/missing.txt"
    requires root == "/srv/www/" && fs == map["/srv/www/" + "/index.html" := Readable("hi")]
    ensures Respond(request, root, fs) == Reply(404, [])
  {
    NoDotDot(path);
    RespondByPath(request, root, fs, path);
    assert (root + path)[10] != (root + "/index.html")[10];
  }

  /** Starting the server as `-h 127.0.0.1 -p 8080 -d /srv/www`. */
  lemma StartsOnLoopback(opts: seq<Opt>, parseIp: seq<char> -> AddressResult)
    requires opts == [Opt('h', "127.0.0.1"), Opt('p', "8080"), Opt('d', "/srv/www")]
    requires parseIp("127.0.0.1") == Parsed(0x7f00_0001)
    ensures ParseResult(opts, parseIp) == Params([], Endpoint(0x7f00_0001, 8080), "/srv/www/")
  {
    var port: nat :| port == 8080;
    Numeral8080(port);
    PortNumeral(port, "8080");
    OneOfEach(opts, "127.0.0.1", "8080", "/srv/www", parseIp);
  }

  /** One accepted `-h`, `-p` and `-d` each, in that order. */
  lemma OneOfEach(opts: seq<Opt>, h: seq<char>, p: seq<char>, d: seq<char>, parseIp: seq<char> -> AddressResult)
    requires opts == [Opt('h', h), Opt('p', p), Opt('d', d)]
    requires parseIp(h).Parsed? && ValidPort(Atoi(p))
    ensures ParseResult(opts, parseIp) == Params([], Endpoint(parseIp(h).address, Atoi(p)), d + "/")
  {
    assert FirstRejected(opts, parseIp) == None;
    var firstTwo := opts[..|opts| - 1];
    var first := firstTwo[..|firstTwo| - 1];
    assert firstTwo == [Opt('h', h), Opt('p', p)];
    assert first == [Opt('h', h)] && first[..|first| - 1] == [];
    assert LastArg(first, 'h') == Some(h);
    assert LastArg(firstTwo, 'h') == Some(h);
    assert LastArg(opts, 'h') == Some(h);
    assert LastArg(opts, 'p') == Some(p);
    assert LastArg(opts, 'd') == Some(d);
  }

  lemma Numeral8080(n: nat)
    requires n == 8080
    ensures NatToString(n) == "8080"
  {
    assert NatToString(8) == "8";
    assert NatToString(80) == "80";
    assert NatToString(808) == "808";
  }

  lemma PortNumeral(n: nat, arg: seq<char>)
    requires arg == NatToString(n)
    ensures Atoi(arg) == n
  {
    AtoiOfNumeral(n, []);
    assert arg + [] == arg;
  }

  /** A port of 0 is refused, whatever follows it. */
  lemma RefusesPortZero(opts: seq<Opt>, parseIp: seq<char> -> AddressResult)
    requires opts == [Opt('p', "0"), Opt('h', "127.0.0.1")]
    ensures ParseResult(opts, parseIp) == Params("Invalid port", DefaultEndpoint, [])
  {
    assert NatToString(0) == "0";
    AtoiOfNumeral(0, []);
    assert "0" + [] == "0";
    assert FirstRejected(opts, parseIp) == Some(0);
  }
}
