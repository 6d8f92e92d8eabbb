/**
 * The request-line parser of the server: `ParseHttpUrl` reads three words
 * from the buffered request with stream extraction and returns the path
 * of a `GET` request for an `HTTP/1.x` version, or the empty string.
 */
module RequestLine {
  import opened Chars

  /** A word as `>>` produces it: non-empty, without white space. */
  predicate IsWord(w: seq<char>)
  {
    0 < |w| && forall i :: 0 <= i < |w| ==> !IsSpace(w[i])
  }

  /** The first index at or after `i` that holds white space. */
  function WordEnd(s: seq<char>, i: nat): (j: nat)
    requires i <= |s|
    ensures i <= j <= |s|
    ensures j < |s| ==> IsSpace(s[j])
    decreases |s| - i
  {
    if i < |s| && !IsSpace(s[i]) then WordEnd(s, i + 1) else i
  }

  /** A word holds no white space. */
  lemma {:induction false} WordHasNoSpaces(s: seq<char>, i: nat)
    requires i <= |s|
    ensures forall k :: i <= k < WordEnd(s, i) ==> !IsSpace(s[k])
    decreases |s| - i
  {
    if i < |s| && !IsSpace(s[i]) {
      WordHasNoSpaces(s, i + 1);
    }
  }

  /** A word ends at the first white space. */
  lemma {:induction false} WordEndStopsAt(s: seq<char>, i: nat, j: nat)
    requires i <= j <= |s|
    requires forall k :: i <= k < j ==> !IsSpace(s[k])
    requires j == |s| || IsSpace(s[j])
    ensures WordEnd(s, i) == j
    decreases j - i
  {
    if i < j {
      WordEndStopsAt(s, i + 1, j);
    }
  }

  /**
   * One `stream >> word` on a string stream positioned at `pos`: skip white
   * space, then take the longest run of non-white-space characters. At the
   * end of the input the extraction fails and leaves the target as it was,
   * which in `ParseHttpUrl` is always the empty string; the stream then
   * stays at the end, so every later extraction also gives "".
   */
  function Extract(s: seq<char>, pos: nat): (r: (seq<char>, nat))
    requires pos <= |s|
    ensures pos <= r.1 <= |s|
  {
    var start := SkipSpaces(s, pos);
    var end := WordEnd(s, start);
    (s[start..end], end)
  }

  /** `str.substr(pos, n)`: at most `n` characters from `pos` on. */
  function Substr(s: seq<char>, pos: nat, n: nat): (r: seq<char>)
    requires pos <= |s|
    ensures |r| <= n && r <= s[pos..]
  {
    if pos + n <= |s| then s[pos..pos + n] else s[pos..]
  }

  const Get: seq<char> := "GET"
  const VersionPrefix: seq<char> := "HTTP/1."

  /** The parser as the server runs it on the whole request buffer. */
  function ParseHttpUrl(request: seq<char>): seq<char>
  {
    var (verb, afterVerb) := Extract(request, 0);
    if verb != Get then ""
    else
      var (path, afterPath) := Extract(request, afterVerb);
      var (version, _) := Extract(request, afterPath);
      if Substr(version, 0, 7) != VersionPrefix then "" else path
  }

  /**
   * Reference definition of what `>>` sees: the maximal runs of
   * non-white-space characters of `s`, in order, built one character at a
   * time from the right.
   */
  function Tokens(s: seq<char>): (ts: seq<seq<char>>)
    ensures forall k :: 0 <= k < |ts| ==> IsWord(ts[k])
    ensures 0 < |s| && !IsSpace(s[0]) ==> 0 < |ts| && 0 < |ts[0]| && ts[0][0] == s[0]
    decreases |s|
  {
    if s == [] then []
    else
      var rest := Tokens(s[1..]);
      if IsSpace(s[0]) then rest
      else if 1 < |s| && !IsSpace(s[1]) then [[s[0]] + rest[0]] + rest[1..]
      else [[s[0]]] + rest
  }

  /** The `k`-th word, or "" when there are fewer words. */
  function Nth(ts: seq<seq<char>>, k: nat): seq<char>
  {
    if k < |ts| then ts[k] else []
  }

  lemma {:induction false} TokensAfterSpaces(s: seq<char>, i: nat, j: nat)
    requires i <= j <= |s|
    requires forall k :: i <= k < j ==> IsSpace(s[k])
    ensures Tokens(s[i..]) == Tokens(s[j..])
    decreases j - i
  {
    if i < j {
      assert s[i..][1..] == s[i + 1..];
      TokensAfterSpaces(s, i + 1, j);
    }
  }

  lemma {:induction false} TokensAtWord(s: seq<char>, i: nat, j: nat)
    requires i < j <= |s|
    requires forall k :: i <= k < j ==> !IsSpace(s[k])
    requires j < |s| ==> IsSpace(s[j])
    ensures Tokens(s[i..]) == [s[i..j]] + Tokens(s[j..])
    decreases j - i
  {
    assert s[i..][1..] == s[i + 1..];
    if i + 1 < j {
      TokensAtWord(s, i + 1, j);
      assert [s[i]] + s[i + 1..j] == s[i..j];
    } else {
      assert s[i..j] == [s[i]];
    }
  }

  /** One extraction yields the first word of the rest of the input and
      leaves exactly the remaining words behind it. */
  lemma ExtractIsFirstToken(s: seq<char>, pos: nat)
    requires pos <= |s|
    ensures var (w, next) := Extract(s, pos);
      w == Nth(Tokens(s[pos..]), 0) &&
      Tokens(s[next..]) == if Tokens(s[pos..]) == [] then [] else Tokens(s[pos..])[1..]
  {
    var start := SkipSpaces(s, pos);
    var end := WordEnd(s, start);
    SkippedAreSpaces(s, pos);
    WordHasNoSpaces(s, start);
    TokensAfterSpaces(s, pos, start);
    if start < |s| {
      TokensAtWord(s, start, end);
    } else {
      assert s[start..] == [];
    }
  }

  /** The parser, restated over the words of the request. */
  lemma ParseHttpUrlByTokens(request: seq<char>)
    ensures var ts := Tokens(request);
      ParseHttpUrl(request) ==
        if Nth(ts, 0) == Get && Substr(Nth(ts, 2), 0, 7) == VersionPrefix then Nth(ts, 1) else []
  {
    var ts := Tokens(request);
    assert request[0..] == request;
    var (verb, p1) := Extract(request, 0);
    ExtractIsFirstToken(request, 0);
    if verb == Get {
      var (path, p2) := Extract(request, p1);
      ExtractIsFirstToken(request, p1);
      ExtractIsFirstToken(request, p2);
    }
  }

  /**
   * A request is accepted exactly when its first word is `GET`, it has a
   * third word and that word begins with `HTTP/1.`; the path returned is
   * then the second word, unchanged and free of white space.
   */
  lemma AcceptedExactly(request: seq<char>)
    ensures var ts := Tokens(request);
      (ParseHttpUrl(request) != [] <==>
        3 <= |ts| && ts[0] == Get && 7 <= |ts[2]| && ts[2][..7] == VersionPrefix) &&
      (ParseHttpUrl(request) != [] ==> ParseHttpUrl(request) == ts[1] && IsWord(ts[1]))
  {
    ParseHttpUrlByTokens(request);
  }

  /** A version word shorter than seven characters is always rejected. */
  lemma ShortVersionRejected(request: seq<char>)
    requires |Nth(Tokens(request), 2)| < 7
    ensures ParseHttpUrl(request) == []
  {
    ParseHttpUrlByTokens(request);
  }

  /** Any first word other than `GET` is rejected, case included. */
  lemma NonGetRejected(request: seq<char>)
    requires Nth(Tokens(request), 0) != Get
    ensures ParseHttpUrl(request) == []
  {
    ParseHttpUrlByTokens(request);
  }

  predicate AllSpace(s: seq<char>)
  {
    forall k :: 0 <= k < |s| ==> IsSpace(s[k])
  }

  /**
   * Words separated by any non-empty run of white space, line breaks
   * included, are read as the verb, the path and the version: the parser
   * does not stop at the end of the first line.
   */
  lemma ParseSeparatedWords(verb: seq<char>, sep1: seq<char>, path: seq<char>, sep2: seq<char>,
                            version: seq<char>, tail: seq<char>)
    requires IsWord(verb) && IsWord(path) && IsWord(version)
    requires 0 < |sep1| && AllSpace(sep1) && 0 < |sep2| && AllSpace(sep2)
    requires tail == [] || IsSpace(tail[0])
    ensures ParseHttpUrl(verb + (sep1 + (path + (sep2 + (version + tail))))) ==
      if verb == Get && Substr(version, 0, 7) == VersionPrefix then path else []
  {
    var afterVersion := version + tail;
    var afterPath := sep2 + afterVersion;
    var afterVerb := sep1 + (path + afterPath);
    var s := verb + afterVerb;
    assert afterVerb[0] == sep1[0];
    ExtractFirstWord(verb, afterVerb);
    if verb == Get {
      assert afterPath[0] == sep2[0];
      ExtractSecondWord(verb, sep1, path, afterPath);
      ExtractThirdWord(verb, sep1, path, sep2, version, tail);
      ParseOfThreeWords(s, |verb|, |verb| + |sep1| + |path|, path, version);
    } else {
      ParseOfOtherVerb(s);
    }
  }

  /** The first extraction from `w + rest`, where `rest` is empty or starts
      with white space, yields the word `w`. */
  lemma ExtractFirstWord(w: seq<char>, rest: seq<char>)
    requires IsWord(w) && (rest == [] || IsSpace(rest[0]))
    ensures Extract(w + rest, 0) == (w, |w|)
  {
    assert (w + rest)[0..] == [] + (w + rest);
    ExtractAfterGap(w + rest, 0, [], w, rest);
  }

  lemma ExtractSecondWord(verb: seq<char>, sep: seq<char>, w: seq<char>, rest: seq<char>)
    requires AllSpace(sep) && IsWord(w) && (rest == [] || IsSpace(rest[0]))
    ensures Extract(verb + (sep + (w + rest)), |verb|) == (w, |verb| + |sep| + |w|)
  {
    var s := verb + (sep + (w + rest));
    assert s[|verb|..] == sep + (w + rest);
    ExtractAfterGap(s, |verb|, sep, w, rest);
  }

  lemma ExtractThirdWord(verb: seq<char>, sep1: seq<char>, path: seq<char>, sep2: seq<char>,
                         w: seq<char>, rest: seq<char>)
    requires AllSpace(sep2) && IsWord(w) && (rest == [] || IsSpace(rest[0]))
    ensures var at := |verb| + |sep1| + |path|;
      Extract(verb + (sep1 + (path + (sep2 + (w + rest)))), at) == (w, at + |sep2| + |w|)
  {
    var s := verb + (sep1 + (path + (sep2 + (w + rest))));
    var at := |verb| + |sep1| + |path|;
    assert s[at..] == sep2 + (w + rest);
    ExtractAfterGap(s, at, sep2, w, rest);
  }

  /** Extracting at `at` where the input continues with `gap + w + rest`,
      `gap` being white space and `rest` empty or starting with white
      space, yields `w`. */
  lemma ExtractAfterGap(s: seq<char>, at: nat, gap: seq<char>, w: seq<char>, rest: seq<char>)
    requires at <= |s| && s[at..] == gap + (w + rest)
    requires AllSpace(gap) && IsWord(w) && (rest == [] || IsSpace(rest[0]))
    ensures Extract(s, at) == (w, at + |gap| + |w|)
  {
    var start := at + |gap|;
    var end := start + |w|;
    forall k | at <= k < start ensures IsSpace(s[k]) {
      assert s[k] == s[at..][k - at] == gap[k - at];
    }
    forall k | start <= k < end ensures s[k] == w[k - start] {
      assert s[k] == s[at..][k - at];
    }
    assert s[start..end] == w;
    if end < |s| {
      assert s[end] == s[at..][end - at] == rest[0];
    }
    ExtractWordAt(s, at, start, w);
  }

  /** `GET`, a line break, then `/a HTTP/1.0` on the next line is read as a
      request for `/a`. */
  lemma BorrowsWordsFromLaterLines(request: seq<char>, path: seq<char>, version: seq<char>)
    requires path == "/a" && version == "HTTP/1.0"
    requires request == Get + ("\r\n" + (path + (" " + (version + "\r\n\r\n"))))
    ensures ParseHttpUrl(request) == path
  {
    ParseSeparatedWords(Get, "\r\n", path, " ", version, "\r\n\r\n");
    assert Substr(version, 0, 7) == VersionPrefix;
  }

  /** A first word other than `GET` is refused before anything else is
      read. */
  lemma ParseOfOtherVerb(request: seq<char>)
    requires Extract(request, 0).0 != Get
    ensures ParseHttpUrl(request) == []
  {
  }

  /** The parser in terms of its three extractions, for a `GET` request. */
  lemma ParseOfThreeWords(request: seq<char>, verbEnd: nat, pathEnd: nat, path: seq<char>, version: seq<char>)
    requires verbEnd <= pathEnd <= |request|
    requires Extract(request, 0) == (Get, verbEnd)
    requires Extract(request, verbEnd) == (path, pathEnd)
    requires Extract(request, pathEnd).0 == version
    ensures ParseHttpUrl(request) == if Substr(version, 0, 7) == VersionPrefix then path else []
  {
  }

  /** An extraction from `pos` that meets only white space up to `start`,
      then the word `w` ended by white space or the end of the input,
      yields `w` and leaves the stream just behind it. */
  lemma ExtractWordAt(s: seq<char>, pos: nat, start: nat, w: seq<char>)
    requires pos <= start && start + |w| <= |s| && IsWord(w)
    requires forall k :: pos <= k < start ==> IsSpace(s[k])
    requires s[start..start + |w|] == w
    requires start + |w| == |s| || IsSpace(s[start + |w|])
    ensures Extract(s, pos) == (w, start + |w|)
  {
    assert s[start] == w[0];
    var end := start + |w|;
    forall k | start <= k < end ensures !IsSpace(s[k]) {
      assert s[k] == w[k - start];
    }
    SkipSpacesStopsAt(s, pos, start);
    WordEndStopsAt(s, start, end);
  }
}
