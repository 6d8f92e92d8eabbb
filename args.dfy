/**
 * Command-line handling of the server (final.cpp:151-196): the options
 * `-h <ip> -p <port> -d <dir>` are turned into an endpoint and a directory,
 * or into the error message that the program prints before exiting.
 *
 * The options arrive as the sequence of results that successive getopt
 * calls with the option string "h:p:d:" return: a flag character and its
 * argument.  getopt reports an unknown option or a missing argument as the
 * flag '?'.  The IPv4 address parser is a parameter of the model.
 */
module Args {
  import opened Wrappers
  import opened Decimal

  /** One getopt result: the option character and its argument. */
  datatype Opt = Opt(flag: char, arg: seq<char>)

  /** Outcome of parsing a dotted IPv4 address: the 32-bit address, or the
      text of the error code the parser set. */
  datatype AddressResult = Parsed(address: nat) | Malformed(message: seq<char>)

  datatype Endpoint = Endpoint(address: nat, port: nat)

  /** A default-constructed endpoint: the IPv4 any-address, port 0. */
  const DefaultEndpoint := Endpoint(0, 0)

  /** The result of argument parsing; an empty error string means success. */
  datatype Params = Params(errorString: seq<char>, endpoint: Endpoint, directoryPath: seq<char>)

  /** Largest value of an unsigned 16-bit port number. */
  const MaxPort := 65535

  predicate ValidPort(port: int) {
    0 < port <= MaxPort
  }

  /** Whether the parser lets option `o` through and goes on to the next. */
  predicate Accepted(o: Opt, parseIp: seq<char> -> AddressResult) {
    (o.flag == 'h' && parseIp(o.arg).Parsed?)
    || (o.flag == 'p' && ValidPort(Atoi(o.arg)))
    || o.flag == 'd'
  }

  /** The error message for an option the parser stops at. */
  function Rejection(o: Opt, parseIp: seq<char> -> AddressResult): (msg: seq<char>)
    requires !Accepted(o, parseIp)
    ensures msg != []
  {
    if o.flag == 'h' then "Invalid ip address: " + parseIp(o.arg).message
    else if o.flag == 'p' then "Invalid port"
    else "Invalid argument string"
  }

  /** The index of the first option that is not accepted, if any. */
  function FirstRejected(opts: seq<Opt>, parseIp: seq<char> -> AddressResult): (r: Option<nat>)
    ensures r.Some? ==> r.value < |opts| && !Accepted(opts[r.value], parseIp)
    ensures forall k :: 0 <= k < |opts| && (r.None? || k < r.value) ==> Accepted(opts[k], parseIp)
  {
    if opts == [] then None
    else if !Accepted(opts[0], parseIp) then Some(0)
    else match FirstRejected(opts[1..], parseIp)
      case None => None
      case Some(i) => Some(i + 1)
  }

  /** The argument of the last option with flag `f`, if there is one. */
  function LastArg(opts: seq<Opt>, f: char): (r: Option<seq<char>>)
  {
    if opts == [] then None
    else if opts[|opts| - 1].flag == f then Some(opts[|opts| - 1].arg)
    else LastArg(opts[..|opts| - 1], f)
  }

  /** The directory recorded after the options `opts`: the last `-d`
      argument with a slash appended, or nothing. */
  function DirFrom(opts: seq<Opt>): seq<char> {
    match LastArg(opts, 'd')
    case Some(d) => d + "/"
    case None => []
  }

  /** What the parser returns for the options `opts`, stated without its
      loop: the first rejected option decides the error; otherwise each of
      `-h`, `-p` and `-d` must occur, and the last of each wins. */
  function ParseResult(opts: seq<Opt>, parseIp: seq<char> -> AddressResult): Params {
    match FirstRejected(opts, parseIp)
    case Some(i) => Params(Rejection(opts[i], parseIp), DefaultEndpoint, DirFrom(opts[..i]))
    case None =>
      match (LastArg(opts, 'h'), LastArg(opts, 'p'), LastArg(opts, 'd'))
      case (Some(h), Some(p), Some(d)) =>
        LastArgIsLast(opts, 'h');
        LastArgIsLast(opts, 'p');
        Params([], Endpoint(parseIp(h).address, Atoi(p)), d + "/")
      case _ => Params("Not enough arguments", DefaultEndpoint, DirFrom(opts))
  }

  /** The option loop: each accepted option updates the recorded address,
      port or directory and sets its flag; the first rejected one returns
      at once; at the end all three flags must be set. */
  method ParseArgs(opts: seq<Opt>, parseIp: seq<char> -> AddressResult) returns (params: Params)
    ensures params == ParseResult(opts, parseIp)
  {
    params := Params([], DefaultEndpoint, []);
    var ip: nat := 0;
    var port: int := 0;
    var gotIp, gotPort, gotPath := false, false, false;
    ghost var ipArg, portArg := [], [];
    var i := 0;
    while i < |opts|
      invariant 0 <= i <= |opts|
      invariant forall k :: 0 <= k < i ==> Accepted(opts[k], parseIp)
      invariant params == Params([], DefaultEndpoint, DirFrom(opts[..i]))
      invariant Recorded(opts[..i], gotIp, ipArg, gotPort, portArg, gotPath)
      invariant gotIp ==> parseIp(ipArg) == Parsed(ip)
      invariant gotPort ==> port == Atoi(portArg)
    {
      var o := opts[i];
      RecordedStep(opts, i, gotIp, ipArg, gotPort, portArg, gotPath);
      DirFromStep(opts, i);
      if o.flag == 'h' {
        gotIp, ipArg := true, o.arg;
        match parseIp(o.arg)
        case Malformed(m) =>
          params := params.(errorString := "Invalid ip address: " + m);
          RejectedResult(opts, i, parseIp);
          return;
        case Parsed(a) =>
          ip := a;
          AcceptedStep(opts, i, parseIp);
      } else if o.flag == 'p' {
        gotPort, portArg := true, o.arg;
        port := Atoi(o.arg);
        if !ValidPort(port) {
          params := params.(errorString := "Invalid port");
          RejectedResult(opts, i, parseIp);
          return;
        }
        AcceptedStep(opts, i, parseIp);
      } else if o.flag == 'd' {
        gotPath := true;
        params := params.(directoryPath := o.arg + "/");
        AcceptedStep(opts, i, parseIp);
      } else {
        params := params.(errorString := "Invalid argument string");
        RejectedResult(opts, i, parseIp);
        return;
      }
      i := i + 1;
    }
    assert opts[..i] == opts;
    AcceptedResult(opts, parseIp);
    if !(gotIp && gotPort && gotPath) {
      params := params.(errorString := "Not enough arguments");
      return;
    }
    params := params.(endpoint := Endpoint(ip, port));
  }

  /** One more option changes the last argument of its own flag only. */
  lemma LastArgStep(opts: seq<Opt>, i: nat, f: char)
    requires i < |opts|
    ensures LastArg(opts[..i + 1], f) ==
      if opts[i].flag == f then Some(opts[i].arg) else LastArg(opts[..i], f)
  {
    assert opts[..i + 1][..i] == opts[..i];
  }

  /** The loop's flags and last arguments agree with the options seen. */
  ghost predicate Recorded(seen: seq<Opt>, gotIp: bool, ipArg: seq<char>, gotPort: bool, portArg: seq<char>, gotPath: bool) {
    && LastArg(seen, 'h') == (if gotIp then Some(ipArg) else None)
    && LastArg(seen, 'p') == (if gotPort then Some(portArg) else None)
    && (gotPath <==> LastArg(seen, 'd').Some?)
  }

  /** Seeing one more option sets the flag of its own kind and records its
      argument, and leaves the other two kinds as they were. */
  lemma RecordedStep(opts: seq<Opt>, i: nat, gotIp: bool, ipArg: seq<char>, gotPort: bool, portArg: seq<char>, gotPath: bool)
    requires i < |opts| && Recorded(opts[..i], gotIp, ipArg, gotPort, portArg, gotPath)
    ensures var o := opts[i];
      Recorded(opts[..i + 1],
        gotIp || o.flag == 'h', if o.flag == 'h' then o.arg else ipArg,
        gotPort || o.flag == 'p', if o.flag == 'p' then o.arg else portArg,
        gotPath || o.flag == 'd')
  {
    LastArgStep(opts, i, 'h');
    LastArgStep(opts, i, 'p');
    LastArgStep(opts, i, 'd');
  }

  /** One more option changes the recorded directory only if it is a `-d`. */
  lemma DirFromStep(opts: seq<Opt>, i: nat)
    requires i < |opts|
    ensures DirFrom(opts[..i + 1]) ==
      if opts[i].flag == 'd' then opts[i].arg + "/" else DirFrom(opts[..i])
  {
    LastArgStep(opts, i, 'd');
  }

  /** An accepted option extends the accepted prefix by one. */
  lemma AcceptedStep(opts: seq<Opt>, i: nat, parseIp: seq<char> -> AddressResult)
    requires i < |opts| && Accepted(opts[i], parseIp)
    requires forall k :: 0 <= k < i ==> Accepted(opts[k], parseIp)
    ensures forall k :: 0 <= k < i + 1 ==> Accepted(opts[k], parseIp)
  {
  }

  /** The result when option `i` is the first one rejected. */
  lemma RejectedResult(opts: seq<Opt>, i: nat, parseIp: seq<char> -> AddressResult)
    requires i < |opts| && !Accepted(opts[i], parseIp)
    requires forall k :: 0 <= k < i ==> Accepted(opts[k], parseIp)
    ensures ParseResult(opts, parseIp) ==
      Params(Rejection(opts[i], parseIp), DefaultEndpoint, DirFrom(opts[..i]))
  {
    assert FirstRejected(opts, parseIp) == Some(i);
  }

  /** The result when every option is accepted: an error exactly when one
      of the three flags is missing, and otherwise the last of each. */
  lemma AcceptedResult(opts: seq<Opt>, parseIp: seq<char> -> AddressResult)
    requires forall k :: 0 <= k < |opts| ==> Accepted(opts[k], parseIp)
    ensures var h, p, d := LastArg(opts, 'h'), LastArg(opts, 'p'), LastArg(opts, 'd');
      var r := ParseResult(opts, parseIp);
      (h.Some? && p.Some? && d.Some? ==>
        r.errorString == [] && parseIp(h.value) == Parsed(r.endpoint.address)
        && r.endpoint.port == Atoi(p.value) && r.directoryPath == d.value + "/")
      && (!(h.Some? && p.Some? && d.Some?) ==>
        r == Params("Not enough arguments", DefaultEndpoint, DirFrom(opts)))
  {
    assert FirstRejected(opts, parseIp) == None;
    if LastArg(opts, 'h').Some? {
      LastArgIsLast(opts, 'h');
    }
  }

  /** A flag has a last argument exactly when it occurs. */
  lemma {:induction false} LastArgExists(opts: seq<Opt>, f: char)
    ensures LastArg(opts, f).Some? <==> exists k :: 0 <= k < |opts| && opts[k].flag == f
  {
    if opts != [] && opts[|opts| - 1].flag != f {
      var init := opts[..|opts| - 1];
      LastArgExists(init, f);
      if k :| 0 <= k < |init| && init[k].flag == f {
        assert opts[k] == init[k];
      }
      if k :| 0 <= k < |opts| && opts[k].flag == f {
        assert init[k] == opts[k];
      }
    }
  }

  /** The argument LastArg picks belongs to an occurrence of the flag after
      which the flag does not occur again. */
  lemma {:induction false} LastArgIsLast(opts: seq<Opt>, f: char)
    requires LastArg(opts, f).Some?
    ensures exists k :: (0 <= k < |opts| && opts[k] == Opt(f, LastArg(opts, f).value)
                         && forall j :: k < j < |opts| ==> opts[j].flag != f)
  {
    var n := |opts| - 1;
    if opts[n].flag == f {
      assert opts[n] == Opt(f, LastArg(opts, f).value);
    } else {
      var init := opts[..n];
      LastArgIsLast(init, f);
      var k :| 0 <= k < |init| && init[k] == Opt(f, LastArg(init, f).value)
        && forall j :: k < j < |init| ==> init[j].flag != f;
      assert opts[k] == init[k];
      assert forall j :: k < j < |opts| ==> opts[j].flag != f by {
        forall j | k < j < |opts| ensures opts[j].flag != f {
          if j < n {
            assert opts[j] == init[j];
          }
        }
      }
    }
  }

  /** Parsing succeeds exactly when every option is accepted and each of
      `-h`, `-p` and `-d` occurs at least once. */
  lemma SucceedsExactly(opts: seq<Opt>, parseIp: seq<char> -> AddressResult)
    ensures ParseResult(opts, parseIp).errorString == [] <==>
      (forall k :: 0 <= k < |opts| ==> Accepted(opts[k], parseIp))
      && (exists k :: 0 <= k < |opts| && opts[k].flag == 'h')
      && (exists k :: 0 <= k < |opts| && opts[k].flag == 'p')
      && (exists k :: 0 <= k < |opts| && opts[k].flag == 'd')
  {
    LastArgExists(opts, 'h');
    LastArgExists(opts, 'p');
    LastArgExists(opts, 'd');
  }

  /** On success the endpoint holds the address of the last `-h` option and
      the port of the last `-p` option, the port lies in 1..65535, and the
      directory is the last `-d` argument followed by a slash. */
  lemma SuccessfulParams(opts: seq<Opt>, parseIp: seq<char> -> AddressResult)
    requires ParseResult(opts, parseIp).errorString == []
    ensures var r := ParseResult(opts, parseIp);
      ValidPort(r.endpoint.port)
      && (exists k :: 0 <= k < |opts| && opts[k].flag == 'h'
            && parseIp(opts[k].arg) == Parsed(r.endpoint.address)
            && forall j :: k < j < |opts| ==> opts[j].flag != 'h')
      && (exists k :: 0 <= k < |opts| && opts[k].flag == 'p'
            && Atoi(opts[k].arg) == r.endpoint.port
            && forall j :: k < j < |opts| ==> opts[j].flag != 'p')
      && (exists k :: 0 <= k < |opts| && opts[k].flag == 'd'
            && r.directoryPath == opts[k].arg + "/"
            && forall j :: k < j < |opts| ==> opts[j].flag != 'd')
  {
    LastArgIsLast(opts, 'h');
    LastArgIsLast(opts, 'p');
    LastArgIsLast(opts, 'd');
  }

  /** Whenever parsing fails the endpoint is left as constructed. */
  lemma FailureKeepsDefaultEndpoint(opts: seq<Opt>, parseIp: seq<char> -> AddressResult)
    requires ParseResult(opts, parseIp).errorString != []
    ensures ParseResult(opts, parseIp).endpoint == DefaultEndpoint
  {
  }

  /** Options after the first rejected one are never looked at: not even a
      missing `-h`, `-p` or `-d` changes the message. */
  lemma {:induction false} StopsAtFirstRejection(opts: seq<Opt>, rest: seq<Opt>, parseIp: seq<char> -> AddressResult)
    requires FirstRejected(opts, parseIp).Some?
    ensures ParseResult(opts + rest, parseIp) == ParseResult(opts, parseIp)
  {
    var i := FirstRejected(opts, parseIp).value;
    var all := opts + rest;
    assert all[i] == opts[i];
    forall k | 0 <= k < i ensures Accepted(all[k], parseIp) {
      assert all[k] == opts[k];
    }
    assert FirstRejected(all, parseIp) == Some(i);
    assert all[..i] == opts[..i];
  }
}
