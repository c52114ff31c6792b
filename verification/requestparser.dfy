/** The request parser of the web server, character by character, on its own buffers. */
module RequestParser {
  import opened UrlDecode
  import opened RequestSpec

  class Request {
    const verb: array<char>
    const path: array<char>
    const version: array<char>
    const pathDecoded: array<char>
    const headers: array<Header>
    const headersStringPool: array<char>
    var verbLength: nat
    var pathLength: nat
    var versionLength: nat
    var pathDecodedLength: nat
    var headersCount: nat
    var headersStringPoolOffset: nat
    var methodTruncated: bool
    var pathTruncated: bool
    var versionTruncated: bool
    var headersStringPoolExhausted: bool
    var tooManyHeaders: bool
    var bodyTruncated: bool
    var body: seq<char>  // allocated when its length is known
    var bodyLength: nat
    var bodyCapacity: nat
    var parsing: Parsing

    ghost function Buffers(): set<object> {
      {verb as object, path as object, version as object, pathDecoded as object, headers as object,
        headersStringPool as object}
    }

    ghost predicate Shape() {
      && verb.Length == 64 && path.Length == 1024 && version.Length == 16 && pathDecoded.Length == 1024
      && headers.Length == MAX_HEADERS && headersStringPool.Length == POOL_SIZE && path != pathDecoded
    }

    /** The state of the parser as a value. */
    ghost function Abs(): State
      reads this, Buffers()
    {
      State(Text(verb[..], verbLength, methodTruncated), Text(path[..], pathLength, pathTruncated),
            Text(version[..], versionLength, versionTruncated), pathDecoded[..], pathDecodedLength,
            headers[..], headersCount, headersStringPool[..], headersStringPoolOffset,
            headersStringPoolExhausted, tooManyHeaders, body, bodyLength, bodyCapacity, bodyTruncated, parsing)
    }

    ghost predicate Valid()
      reads this, Buffers()
    {
      Shape() && Good(Abs())
    }

    /** A new request has all its memory cleared. */
    constructor ()
      ensures Valid() && Cleared(Abs()) && fresh(Buffers())
    {
      verb, path, version := new char[64](_ => '\0'), new char[1024](_ => '\0'), new char[16](_ => '\0');
      pathDecoded := new char[1024](_ => '\0');
      headers := new Header[MAX_HEADERS](_ => Header(PoolString(-1, 0), PoolString(-1, 0)));
      headersStringPool := new char[POOL_SIZE](_ => '\0');
      verbLength, pathLength, versionLength, pathDecodedLength := 0, 0, 0, 0;
      headersCount, headersStringPoolOffset := 0, 0;
      methodTruncated, pathTruncated, versionTruncated := false, false, false;
      headersStringPoolExhausted, tooManyHeaders, bodyTruncated := false, false, false;
      body, bodyLength, bodyCapacity, parsing := [], 0, 0, Method;
      new;
      ClearedIsGood(Abs());
    }

    /** poolStringStartNewString */
    method StartNewString() returns (s: PoolString)
      requires Shape() && headersStringPoolOffset <= POOL_LIMIT
      modifies this`headersStringPoolOffset, this`headersStringPoolExhausted
      ensures (Abs(), s) == StartString(old(Abs()))
    {
      if headersStringPoolOffset == 0 { return PoolString(0, 0); }
      if headersStringPoolOffset >= POOL_LIMIT {
        headersStringPoolExhausted := true;
        return PoolString(-1, 0);
      }
      headersStringPoolOffset := headersStringPoolOffset + 1;
      return PoolString(headersStringPoolOffset, 0);
    }

    /** poolStringAppendChar */
    method AppendTo(s: PoolString, c: char) returns (t: PoolString)
      requires Shape() && (headersStringPoolOffset < POOL_LIMIT ==> 0 <= s.start + s.length < POOL_SIZE)
      modifies this`headersStringPoolOffset, this`headersStringPoolExhausted, headersStringPool
      ensures (Abs(), t) == AppendChar(old(Abs()), s, c)
    {
      if headersStringPoolOffset >= POOL_LIMIT {
        headersStringPoolExhausted := true;
        return s;
      }
      headersStringPool[s.start + s.length] := c;
      headersStringPoolOffset := headersStringPoolOffset + 1;
      return PoolString(s.start, s.length + 1);
    }

    /** A character of a header string; its memory is inside the pool. */
    method AddToHeaderString(s: PoolString, c: char) returns (t: PoolString)
      requires Valid() && StringOk(s, headersStringPoolOffset)
      modifies this`headersStringPoolOffset, this`headersStringPoolExhausted, headersStringPool
      ensures (Abs(), t) == AddToString(old(Abs()), s, c)
    {
      hide Good;
      PoolShape(Abs());
      AddToStringKeeps(Abs(), s, c);
      t := s;
      if s.start == -1 { t := StartNewString(); }
      t := AppendTo(t, c);
    }

    method HeaderNameOrEat()
      requires Shape()
      modifies this`tooManyHeaders, this`parsing
      ensures Abs() == HeaderNameIfSpaceLeft(old(Abs()))
    {
      if headersCount < MAX_HEADERS {
        if !headersStringPoolExhausted {
          parsing := HeaderName;
          return;
        }
      } else {
        tooManyHeaders := true;
      }
      parsing := EatHeaders;
    }

    method InMethod(lib: Library, c: char)
      requires Valid() && parsing == Method
      modifies this, verb
      ensures Abs() == Switch(lib, old(Abs()), c)
    {
      if c == ' ' {
        parsing := Path;
      } else if verbLength < verb.Length - 1 {
        verb[verbLength] := c;
        verbLength := verbLength + 1;
      } else {
        methodTruncated := true;
      }
    }

    method InPath(lib: Library, c: char)
      requires Valid() && parsing == Path
      modifies this, path, pathDecoded
      ensures Abs() == Switch(lib, old(Abs()), c)
    {
      hide DecodePath, HeadersOk;
      if c == ' ' {
        EndPath(lib);
      } else if pathLength < path.Length - 1 {
        path[pathLength] := c;
        pathLength := pathLength + 1;
      } else {
        pathTruncated := true;
      }
    }

    method EndPath(lib: Library)
      requires Valid()
      modifies this`pathDecodedLength, this`parsing, pathDecoded
      ensures Abs() == DecodePath(lib, old(Abs())).0
    {
      hide Scan, CString, Decoded, HeadersOk;
      PathShort(Abs().path);
      PathDecodes(lib, Abs());
      var success, length := URLDecode(path, pathDecoded, false, lib.hex);
      assert success;  // the path can always be decoded
      pathDecodedLength := length;
      parsing := Version;
    }

    method InVersion(lib: Library, c: char)
      requires Valid() && parsing == Version
      modifies this, version
      ensures Abs() == Switch(lib, old(Abs()), c)
    {
      if c == '\r' {
        parsing := CR;
      } else if versionLength < version.Length - 1 {
        version[versionLength] := c;
        versionLength := versionLength + 1;
      } else {
        versionTruncated := true;
      }
    }

    method InHeaderName(lib: Library, c: char)
      requires Valid() && parsing == HeaderName
      modifies this, headers, headersStringPool
      ensures Abs() == Switch(lib, old(Abs()), c)
    {
      assert headersCount < MAX_HEADERS;  // there is space for the header
      if c == ':' {
        parsing := HeaderValue;
      } else if c == '\r' {
        parsing := CR;
      } else {
        HeaderInBounds(Abs());
        var h := headers[headersCount];
        var name := AddToHeaderString(h.name, c);
        headers[headersCount] := h.(name := name);
      }
    }

    method InHeaderValue(lib: Library, c: char)
      requires Valid() && parsing == HeaderValue
      modifies this, headers, headersStringPool
      ensures Abs() == Switch(lib, old(Abs()), c)
    {
      hide DecodePath, StartBody, BodyChar, AddToName, HeaderNameIfSpaceLeft, AddChar;
      assert headersCount < MAX_HEADERS;  // there is space for the header
      HeaderInBounds(Abs());
      var h := headers[headersCount];
      if c == ' ' && h.value.length == 0 {
      } else if c == '\r' {
        if h.value.length > 0 && h.name.length > 0 { headersCount := headersCount + 1; }
        parsing := CR;
      } else {
        var value := AddToHeaderString(h.value, c);
        headers[headersCount] := h.(value := value);
      }
    }

    method AfterHeaders(lib: Library, c: char)
      requires Valid() && parsing == CRLFCR
      modifies this
      ensures Abs() == Switch(lib, old(Abs()), c)
    {
      hide Good, StartBody;
      if c == '\n' {
        HeadersComplete(Abs());
        parsing := Done;
        BeginBody(lib);
      } else {
        HeaderNameOrEat();
      }
    }

    method BeginBody(lib: Library)
      requires headersCount <= headers.Length && Complete(headers[..], headersCount)
      requires HeadersOk(headers[..], headersStringPoolOffset)
      modifies this`body, this`bodyCapacity, this`bodyLength, this`parsing
      ensures Abs() == StartBody(lib, old(Abs()))
    {
      hide NewBody, ContentLength, Complete, HeadersOk;
      var length := ReadContentLength(lib);
      if length.Some? {
        var n := length.value;
        if n > MAX_BODY_LENGTH { n := MAX_BODY_LENGTH; }
        if n < 0 { n := 0; }
        if n > 0 { body := NewBody(n); }
        bodyCapacity, bodyLength, parsing := n, 0, Body;
      }
    }

    /** headerInRequest: the place of the first header of that name, or the number of headers. */
    method HeaderInRequest(name: seq<char>) returns (i: nat)
      requires headersCount <= headers.Length && Complete(headers[..], headersCount)
      requires HeadersOk(headers[..], headersStringPoolOffset)
      ensures i == FindHeader(Abs(), name, 0)
      ensures i < headersCount ==> headers[i].value.start != -1
    {
      hide SameName, StringAt, HeaderOk;
      i := 0;
      while i < headersCount
        invariant i <= headersCount && FindHeader(Abs(), name, 0) == FindHeader(Abs(), name, i)
      {
        HeaderStarted(headers[..], headersCount, headersStringPoolOffset, i);
        assert headers[i].name.start != -1;  // the name is not NULL
        if SameName(StringAt(headersStringPool[..], headers[i].name.start), name) { return i; }
        i := i + 1;
      }
    }

    /** The number in the Content-Length header, as the C library reads it. */
    method ReadContentLength(lib: Library) returns (n: Option<int>)
      requires headersCount <= headers.Length && Complete(headers[..], headersCount)
      requires HeadersOk(headers[..], headersStringPoolOffset)
      ensures n == ContentLength(lib, Abs())
    {
      hide FindHeader, StringAt, HeaderOk;
      n := None;
      var i := HeaderInRequest("Content-Length");
      if i < headersCount { n := lib.number(StringAt(headersStringPool[..], headers[i].value.start)); }
    }

    method InBody(lib: Library, c: char)
      requires Valid() && parsing == Body
      modifies this`body, this`bodyLength, this`parsing
      ensures Abs() == Switch(lib, old(Abs()), c)
    {
      hide DecodePath, StartBody, AddToName, AddToValue, ValueEnd, AddChar, HeaderNameIfSpaceLeft;
      if bodyLength < bodyCapacity {
        body := body[bodyLength := c];
        bodyLength := bodyLength + 1;
      }
      if bodyLength == bodyCapacity { parsing := Done; }
    }

    /** At the end of a line. */
    method AtLineEnd(lib: Library, c: char)
      requires Valid() && (parsing == CR || parsing == CRLF)
      modifies this`parsing, this`tooManyHeaders
      ensures Abs() == Switch(lib, old(Abs()), c)
    {
      hide DecodePath, StartBody, BodyChar, AddToName, AddToValue, ValueEnd, AddChar;
      if parsing == CR && c == '\n' {
        parsing := CRLF;
      } else if parsing == CRLF && c == '\r' {
        parsing := CRLFCR;
      } else {
        HeaderNameOrEat();
      }
    }

    /** In headers that do not count, and after the end. */
    method Skipping(lib: Library, c: char)
      requires Valid() && (parsing == EatHeaders || parsing == Done)
      modifies this`parsing, this`bodyTruncated
      ensures Abs() == Switch(lib, old(Abs()), c)
    {
      hide DecodePath, StartBody, BodyChar, AddToName, AddToValue, ValueEnd, AddChar, HeaderNameIfSpaceLeft;
      if parsing == EatHeaders {
        if c == '\r' { parsing := CR; }
      } else {
        if body != [] { bodyTruncated := true; }
      }
    }

    /** One case of the switch. */
    method OneCase(lib: Library, c: char)
      requires Valid()
      modifies this, Buffers()
      ensures Valid() && Abs() == Switch(lib, old(Abs()), c)
    {
      hide Good, Switch;
      SwitchKeeps(lib, Abs(), c);
      match parsing {
        case Method => InMethod(lib, c);
        case Path => InPath(lib, c);
        case Version => InVersion(lib, c);
        case HeaderName => InHeaderName(lib, c);
        case HeaderValue => InHeaderValue(lib, c);
        case CRLFCR => AfterHeaders(lib, c);
        case Body => InBody(lib, c);
        case CR | CRLF => AtLineEnd(lib, c);
        case _ => Skipping(lib, c);
      }
    }

    /** requestParse: the state after a fragment is the one the state machine reaches. The first
        character of a header is looked at twice, but never more often. */
    method RequestParse(lib: Library, fragment: seq<char>)
      requires Valid()
      modifies this, Buffers()
      ensures Valid() && Abs() == Run(lib, old(Abs()), fragment)
    {
      hide Good, Switch;
      ghost var goal := Run(lib, Abs(), fragment);
      assert fragment[0..] == fragment;
      var i := 0;
      while i < |fragment|
        invariant 0 <= i <= |fragment| && Valid()
        invariant goal == Run(lib, Abs(), fragment[i..]) || (i < |fragment|
          && Replayed(lib, goal, Abs(), fragment[i..]))
        decreases |fragment| - i, parsing == CRLF
      {
        ghost var r, c, rest := Abs(), fragment[i], fragment[i + 1..];
        assert fragment[i..][0] == c && fragment[i..][1..] == rest;
        var inCRLF := parsing == CRLF;
        OneCase(lib, fragment[i]);
        OneStep(lib, goal, r, Abs(), fragment[i..]);
        if inCRLF && fragment[i] != '\r' && parsing == HeaderName {
          i := i - 1;
        }
        i := i + 1;
      }
      assert fragment[i..] == [];
    }
  }

  /** In the middle of a replay: the next case of the switch gets the same character again. */
  ghost predicate Replayed(lib: Library, goal: State, r: State, s: seq<char>) {
    s != [] && r.parsing == HeaderName && goal == Run(lib, Switch(lib, r, s[0]), s[1..])
  }

  /** One case of the switch either takes up the character or comes back to it. */
  lemma OneStep(lib: Library, goal: State, r: State, next: State, s: seq<char>)
    requires s != [] && next == Switch(lib, r, s[0])
    requires goal == Run(lib, r, s) || Replayed(lib, goal, r, s)
    ensures if r.parsing == CRLF && s[0] != '\r' && next.parsing == HeaderName then Replayed(lib, goal, next, s)
            else goal == Run(lib, next, s[1..])
  {
    if Replayed(lib, goal, r, s) {
    } else {
      ReplaysIs(lib, r, s[0]);
    }
  }

  lemma ReplaysIs(lib: Library, r: State, c: char)
    ensures Replays(r, c) <==> r.parsing == CRLF && c != '\r' && Switch(lib, r, c).parsing == HeaderName
  {
  }

  lemma HeadersComplete(r: State)
    requires Good(r)
    ensures r.headersCount <= |r.headers| && Complete(r.headers, r.headersCount) && HeadersOk(r.headers, r.poolOffset)
  {
  }

  lemma HeaderStarted(hs: seq<Header>, count: nat, offset: nat, i: nat)
    requires i < count <= |hs| && Complete(hs, count) && HeadersOk(hs, offset)
    ensures hs[i].name.start != -1 && hs[i].value.start != -1
  {
    assert HeaderOk(hs[i], offset);
  }

  lemma PoolShape(r: State)
    requires Good(r)
    ensures |r.pool| == POOL_SIZE && r.poolOffset <= POOL_LIMIT
  {
  }

  lemma HeaderInBounds(r: State)
    requires Good(r) && r.headersCount < MAX_HEADERS
    ensures StringOk(r.headers[r.headersCount].name, r.poolOffset)
      && StringOk(r.headers[r.headersCount].value, r.poolOffset)
  {
    assert HeaderOk(r.headers[r.headersCount], r.poolOffset);
  }
}
