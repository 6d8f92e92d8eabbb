/**
 * The per-connection handler: once a request has been read up to its empty
 * line, parse it, refuse a missing or traversing path with 400, look the
 * file up under the root directory, answer 404 when it cannot be opened or
 * sized, and otherwise answer 200 with its contents.
 */
module Handler {
  import opened Wrappers
  import opened Chars
  import opened Decimal
  import opened RequestLine
  import opened Response

  /**
   * What opening a name finds. `Readable`: the stream opens and seeking to
   * its end reports the size of `contents`. `SizeAtLimit`: the stream opens
   * but the reported size equals the largest `std::streamoff`, which the
   * server treats as not found.
   */
  datatype FileEntry = Readable(contents: seq<char>) | SizeAtLimit

  /** The file system, indexed by the name handed to the open call; a name
      that is not a key cannot be opened. */
  type FileSystem = map<seq<char>, FileEntry>

  /**
   * `std::ifstream` opens `path.c_str()`, so the name the file system sees
   * ends before the first NUL character of the path.
   */
  function OpenedName(path: seq<char>): (name: seq<char>)
    ensures name <= path
    ensures forall k :: 0 <= k < |name| ==> name[k] != '\0'
    ensures |name| < |path| ==> path[|name|] == '\0'
  {
    match Find(path, "\0", 0)
    case Some(i) =>
      assert forall k :: 0 <= k < i ==> path[k] != '\0' by {
        forall k | 0 <= k < i
          ensures path[k] != '\0'
        {
          assert !OccursAt(path, "\0", k);
          assert path[k..k + 1] == [path[k]];
        }
      }
      assert path[i..i + 1] == "\0";
      path[..i]
    case None =>
      assert forall k :: 0 <= k < |path| ==> path[k] != '\0' by {
        forall k | 0 <= k < |path|
          ensures path[k] != '\0'
        {
          assert !OccursAt(path, "\0", k);
          assert path[k..k + 1] == [path[k]];
        }
      }
      path
  }

  /** The outcome of one request: a status code and the body sent after the
      header. */
  datatype Reply = Reply(code: int, body: seq<char>)

  /** The path guard: the parsed path is empty or contains `..`. */
  predicate Refused(relpath: seq<char>)
  {
    relpath == [] || Find(relpath, "..", 0).Some?
  }

  /**
   * The decision the read handler takes for a complete request, given the
   * root directory (with its trailing separator) and the file system.
   */
  function Respond(request: seq<char>, root: seq<char>, fs: FileSystem): (r: Reply)
    ensures r.code == 200 || r.code == 400 || r.code == 404
    ensures r.code != 200 ==> r.body == []
    ensures r.code == 400 <==> Refused(ParseHttpUrl(request))
  {
    var relpath := ParseHttpUrl(request);
    if Refused(relpath) then Reply(400, [])
    else
      var name := OpenedName(root + relpath);
      if name !in fs then Reply(404, [])
      else match fs[name]
        case SizeAtLimit => Reply(404, [])
        case Readable(contents) => Reply(200, contents)
  }

  /**
   * One accepted connection. The fields mirror the handler object: the
   * shared root directory, the bytes read so far, the file contents loaded
   * for a 200 response, and the header text; `responseWritten` records that
   * the single write of `response` followed by `fileContents` was started.
   */
  class ClientHandler {
    const directoryPath: seq<char>
    var requestBuffer: seq<char>
    var fileContents: seq<char>
    var response: seq<char>
    var responseWritten: bool

    constructor (directoryPath: seq<char>)
      ensures this.directoryPath == directoryPath
      ensures requestBuffer == [] && fileContents == [] && response == [] && !responseWritten
    {
      this.directoryPath := directoryPath;
      requestBuffer := [];
      fileContents := [];
      response := [];
      responseWritten := false;
    }

    /** The bytes the write hands to the socket. */
    function Sent(): seq<char>
      reads this
    {
      response + fileContents
    }

    /** `answer_with`: compose the header for `code` and the current file
        contents, then start the write. */
    method AnswerWith(code: int)
      modifies this
      ensures response == Header(code, |fileContents|) && responseWritten
      ensures Sent() == Wire(code, fileContents)
      ensures fileContents == old(fileContents) && requestBuffer == old(requestBuffer)
    {
      response := "HTTP/1.0 ";
      response := response + IntToString(code) + " ";
      if code == 200 {
        response := response + "OK";
      } else if code == 400 {
        response := response + "Bad Request";
      } else if code == 404 {
        response := response + "Not Found";
      }
      assert response == StatusLine(code);
      ghost var statusLine := response;
      response := response + "\r\n";
      if code == 200 {
        response := response + ("Content-Type: text/html\r\nContent-Length: " + NatToString(|fileContents|) + "\r\n");
        EntityLinesText(|fileContents|);
      }
      assert response == statusLine + "\r\n" + (if code == 200 then EntityLines(|fileContents|) else []);
      response := response + "\r\n";
      responseWritten := true;
    }

    /**
     * The completion of the read of a request: `received` is what the read
     * put into the buffer, `readFailed` whether it ended with an error. On an
     * error nothing is written; otherwise the request is answered.
     */
    method ProcessClientRequest(received: seq<char>, readFailed: bool, fs: FileSystem)
      requires requestBuffer == [] && fileContents == [] && !responseWritten
      requires !readFailed ==> Find(received, BlankLine, 0).Some?
      modifies this
      ensures requestBuffer == received
      ensures readFailed ==> !responseWritten && fileContents == [] && response == old(response)
      ensures !readFailed ==>
        var r := Respond(received, directoryPath, fs);
        responseWritten && fileContents == r.body && Sent() == Wire(r.code, r.body)
    {
      requestBuffer := requestBuffer + received;
      if readFailed {
        return;
      }
      assert requestBuffer == received;
      ghost var reply := Respond(received, directoryPath, fs);
      var relpath := ParseHttpUrl(requestBuffer);
      if relpath == [] || Find(relpath, "..", 0).Some? {
        AnswerWith(400);
        assert reply == Reply(400, []);
        return;
      }
      var path := directoryPath + relpath;
      var name := OpenedName(path);
      if name !in fs {
        AnswerWith(404);
        assert reply == Reply(404, []);
        return;
      }
      match fs[name]
      case SizeAtLimit =>
        AnswerWith(404);
        assert reply == Reply(404, []);
      case Readable(contents) =>
        fileContents := contents;
        AnswerWith(200);
        assert reply == Reply(200, contents);
    }
  }

  /** One connection from accept to the write: a fresh handler reads
      `request` without error and answers it. */
  method Serve(request: seq<char>, root: seq<char>, fs: FileSystem) returns (sent: seq<char>)
    requires Find(request, BlankLine, 0).Some?
    ensures sent == Wire(Respond(request, root, fs).code, Respond(request, root, fs).body)
  {
    var handler := new ClientHandler(root);
    handler.ProcessClientRequest(request, false, fs);
    sent := handler.Sent();
  }

  /** The request line is well formed: `GET`, a path, and a version that
      begins with `HTTP/1.`. */
  predicate WellFormed(request: seq<char>)
  {
    var ts := Tokens(request);
    3 <= |ts| && ts[0] == Get && 7 <= |ts[2]| && ts[2][..7] == VersionPrefix
  }

  lemma OpenedNameWithoutNul(path: seq<char>)
    requires '\0' !in path
    ensures OpenedName(path) == path
  {
  }

  /** For an accepted path without NUL, the answer depends on the file system
      entry under the root only. */
  lemma RespondByPath(request: seq<char>, root: seq<char>, fs: FileSystem, path: seq<char>)
    requires ParseHttpUrl(request) == path && path != [] && Find(path, "..", 0).None?
    requires '\0' !in root + path
    ensures Respond(request, root, fs) ==
      if root + path !in fs then Reply(404, [])
      else match fs[root + path]
        case SizeAtLimit => Reply(404, [])
        case Readable(contents) => Reply(200, contents)
  {
    OpenedNameWithoutNul(root + path);
  }

  /** Any request whose first word is not `GET`, including an empty or
      garbled one, is answered 400 with no body, whatever the path. */
  lemma NonGetIsBadRequest(request: seq<char>, root: seq<char>, fs: FileSystem)
    requires Nth(Tokens(request), 0) != Get
    ensures var r := Respond(request, root, fs);
      Wire(r.code, r.body) == BadRequestResponse
  {
    NonGetRejected(request);
    ErrorHeaders(0);
  }

  /** A path word that contains `..` anywhere is answered 400, even when a
      file exists under that literal name. */
  lemma TraversalIsBadRequest(request: seq<char>, root: seq<char>, fs: FileSystem, i: nat)
    requires OccursAt(Nth(Tokens(request), 1), "..", i)
    ensures var r := Respond(request, root, fs);
      Wire(r.code, r.body) == BadRequestResponse
  {
    ParseHttpUrlByTokens(request);
    ErrorHeaders(0);
  }

  /** A well-formed request for a readable file without `..` in its path is
      answered 200, with Content-Length the size of the file and the file's
      exact contents as the body. */
  lemma ServesFile(request: seq<char>, root: seq<char>, fs: FileSystem)
    requires WellFormed(request)
    requires forall i :: !OccursAt(Tokens(request)[1], "..", i)
    requires '\0' !in root + Tokens(request)[1]
    requires root + Tokens(request)[1] in fs && fs[root + Tokens(request)[1]].Readable?
    ensures var c := fs[root + Tokens(request)[1]].contents;
      var r := Respond(request, root, fs);
      Wire(r.code, r.body) ==
        "HTTP/1.0 200 OK\r\n" + "Content-Type: text/html\r\n" + "Content-Length: " + NatToString(|c|) + "\r\n" + "\r\n" + c
  {
    AcceptedExactly(request);
    OpenedNameWithoutNul(root + Tokens(request)[1]);
    OkHeader(|fs[root + Tokens(request)[1]].contents|);
  }

  /** A well-formed request without `..` in its path for a name that cannot
      be opened, or whose size reads as the limit, is answered 404 with no
      headers and no body. */
  lemma MissingIsNotFound(request: seq<char>, root: seq<char>, fs: FileSystem)
    requires WellFormed(request)
    requires forall i :: !OccursAt(Tokens(request)[1], "..", i)
    requires '\0' !in root + Tokens(request)[1]
    requires root + Tokens(request)[1] !in fs || fs[root + Tokens(request)[1]].SizeAtLimit?
    ensures var r := Respond(request, root, fs);
      Wire(r.code, r.body) == NotFoundResponse
  {
    AcceptedExactly(request);
    OpenedNameWithoutNul(root + Tokens(request)[1]);
    ErrorHeaders(0);
  }
}
