/** The request parser of the web server as a state machine: what one character does. */
module RequestSpec {
  import opened UrlDecode

  const MAX_HEADERS: nat := 64
  const POOL_SIZE: nat := 8192

  /** The pool is full when there is no room for one character and for sizeof('\0') more; in C a
      character constant has the size of an int. */
  const POOL_LIMIT: nat := 8187

  const MAX_BODY_LENGTH: int := 128 * 1024 * 1024

  /** A fixed field of the request line. */
  datatype Text = Text(chars: seq<char>, length: nat, truncated: bool)

  /** A string in the pool; it starts at -1 if it has not been started. */
  datatype PoolString = PoolString(start: int, length: nat)

  datatype Header = Header(name: PoolString, value: PoolString)

  datatype Parsing =
    | Method | Path | Version | HeaderName | HeaderValue | CR | CRLF | CRLFCR | Body | EatHeaders | Done

  datatype State = State(
    verb: Text, path: Text, version: Text, pathDecoded: seq<char>, pathDecodedLength: nat,
    headers: seq<Header>, headersCount: nat, pool: seq<char>, poolOffset: nat,
    poolExhausted: bool, tooManyHeaders: bool,
    body: seq<char>, bodyLength: nat, bodyCapacity: nat, bodyTruncated: bool, parsing: Parsing)

  /** What the C library reads: two hexadecimal digits, and a number at the beginning of a string. */
  datatype Library = Library(hex: Hex, number: seq<char> -> Option<int>)

  // ---------- looking up a header

  function Lower(c: char): char {
    if 'A' <= c <= 'Z' then (c as int + 32) as char else c
  }

  /** Names are compared without regard to case. */
  predicate SameName(a: seq<char>, b: seq<char>) {
    |a| == |b| && forall k :: 0 <= k < |a| ==> Lower(a[k]) == Lower(b[k])
  }

  /** The C string that begins at a place of the pool. */
  function StringAt(pool: seq<char>, start: int): seq<char> {
    if 0 <= start <= |pool| then CString(pool[start..]) else []
  }

  /** The first of the headers from i on that has this name, or the number of headers. */
  function FindHeader(r: State, name: seq<char>, i: nat): nat
    decreases r.headersCount - i
  {
    if i >= r.headersCount || i >= |r.headers| then r.headersCount
    else if SameName(StringAt(r.pool, r.headers[i].name.start), name) then i
    else FindHeader(r, name, i + 1)
  }

  /** The number in the first Content-Length header, if there is one. */
  function ContentLength(lib: Library, r: State): Option<int> {
    var i := FindHeader(r, "Content-Length", 0);
    if i < r.headersCount && i < |r.headers| then lib.number(StringAt(r.pool, r.headers[i].value.start)) else None
  }

  // ---------- one character

  function AddChar(t: Text, c: char): Text {
    if t.length < |t.chars| - 1 then Text(t.chars[t.length := c], t.length + 1, t.truncated) else t.(truncated := true)
  }

  function Full(r: State): bool {
    r.poolOffset >= POOL_LIMIT
  }

  /** Where a new string of the pool starts. */
  function StartString(r: State): (State, PoolString) {
    if r.poolOffset == 0 then (r, PoolString(0, 0))
    else if Full(r) then (r.(poolExhausted := true), PoolString(-1, 0))
    else (r.(poolOffset := r.poolOffset + 1), PoolString(r.poolOffset + 1, 0))
  }

  /** Appends to a string of the pool. The pool is never left: Good says so. */
  function AppendChar(r: State, s: PoolString, c: char): (State, PoolString) {
    if Full(r) then (r.(poolExhausted := true), s)
    else if 0 <= s.start + s.length < |r.pool| then
      (r.(pool := r.pool[s.start + s.length := c], poolOffset := r.poolOffset + 1), PoolString(s.start, s.length + 1))
    else (r, s)
  }

  /** A character of a header name or value: the string is started with its first character. */
  function AddToString(r: State, s: PoolString, c: char): (State, PoolString) {
    var started := if s.start == -1 then StartString(r) else (r, s);
    AppendChar(started.0, started.1, c)
  }

  function AddToName(r: State, c: char): State {
    if r.headersCount >= |r.headers| then r
    else
      var h := r.headers[r.headersCount];
      var a := AddToString(r, h.name, c);
      a.0.(headers := r.headers[r.headersCount := h.(name := a.1)])
  }

  function AddToValue(r: State, c: char): State {
    if r.headersCount >= |r.headers| then r
    else
      var h := r.headers[r.headersCount];
      var a := AddToString(r, h.value, c);
      a.0.(headers := r.headers[r.headersCount := h.(value := a.1)])
  }

  function HeaderNameIfSpaceLeft(r: State): State {
    if r.headersCount < MAX_HEADERS then r.(parsing := if r.poolExhausted then EatHeaders else HeaderName)
    else r.(tooManyHeaders := true, parsing := EatHeaders)
  }

  function DecodePath(lib: Library, r: State): (State, bool) {
    var d := if |r.pathDecoded| >= 1 then Scan(lib.hex, CString(r.path.chars), false, |r.pathDecoded|, Normal, [])
      else ([], false);
    if |d.0| >= |r.pathDecoded| then (r, false)
    else (r.(pathDecoded := d.0 + ['\0'] + r.pathDecoded[|d.0| + 1..], pathDecodedLength := |d.0|, parsing := Version),
      d.1)
  }

  /** The memory for a body of n characters, cleared, with room for a NUL. */
  function NewBody(n: nat): seq<char> {
    seq(n + 1, _ => '\0')
  }

  function StartBody(lib: Library, r: State): State {
    var length := ContentLength(lib, r);
    if length.None? then r
    else
      var n := if length.value > MAX_BODY_LENGTH then MAX_BODY_LENGTH else if length.value < 0 then 0 else length.value;
      r.(body := if n > 0 then NewBody(n) else r.body, bodyCapacity := n, bodyLength := 0, parsing := Body)
  }

  function BodyChar(r: State, c: char): State {
    var s := if r.bodyLength < r.bodyCapacity && r.bodyLength < |r.body|
      then r.(body := r.body[r.bodyLength := c], bodyLength := r.bodyLength + 1) else r;
    if s.bodyLength == s.bodyCapacity then s.(parsing := Done) else s
  }

  function ValueEnd(r: State): State {
    var complete := r.headersCount < |r.headers|
      && r.headers[r.headersCount].value.length > 0 && r.headers[r.headersCount].name.length > 0;
    r.(headersCount := if complete then r.headersCount + 1 else r.headersCount, parsing := CR)
  }

  /** The case of the switch for the present state. */
  function Switch(lib: Library, r: State, c: char): State {
    match r.parsing
    case Method => if c == ' ' then r.(parsing := Path) else r.(verb := AddChar(r.verb, c))
    case Path => if c == ' ' then DecodePath(lib, r).0 else r.(path := AddChar(r.path, c))
    case Version => if c == '\r' then r.(parsing := CR) else r.(version := AddChar(r.version, c))
    case HeaderName =>
      if c == ':' then r.(parsing := HeaderValue)
      else if c == '\r' then r.(parsing := CR)
      else AddToName(r, c)
    case HeaderValue =>
      if c == ' ' && r.headersCount < |r.headers| && r.headers[r.headersCount].value.length == 0 then r
      else if c == '\r' then ValueEnd(r)
      else AddToValue(r, c)
    case CR => if c == '\n' then r.(parsing := CRLF) else HeaderNameIfSpaceLeft(r)
    case CRLF => if c == '\r' then r.(parsing := CRLFCR) else HeaderNameIfSpaceLeft(r)
    case CRLFCR => if c == '\n' then StartBody(lib, r.(parsing := Done)) else HeaderNameIfSpaceLeft(r)
    case EatHeaders => if c == '\r' then r.(parsing := CR) else r
    case Body => BodyChar(r, c)
    case Done => r.(bodyTruncated := r.bodyTruncated || r.body != [])
  }

  /** The first character of a header is looked at again in its new state. */
  function Replays(r: State, c: char): bool {
    r.parsing == CRLF && c != '\r' && HeaderNameIfSpaceLeft(r).parsing == HeaderName
  }

  function Feed(lib: Library, r: State, c: char): State {
    var next := Switch(lib, r, c);
    if Replays(r, c) then Switch(lib, next, c) else next
  }

  /** A whole fragment. */
  function Run(lib: Library, r: State, s: seq<char>): State
    decreases |s|
  {
    if s == [] then r else Run(lib, Feed(lib, r, s[0]), s[1..])
  }

  /** It makes no difference how the input is cut into fragments. */
  lemma {:induction false} RunConcat(lib: Library, r: State, a: seq<char>, b: seq<char>)
    ensures Run(lib, r, a + b) == Run(lib, Run(lib, r, a), b)
    decreases |a|
  {
    hide Feed;
    if a == [] {
      assert a + b == b;
    } else {
      assert (a + b)[1..] == a[1..] + b;
      RunConcat(lib, Feed(lib, r, a[0]), a[1..], b);
    }
  }

  /** Any two ways to cut up the same input end in the same state. */
  function RunAll(lib: Library, r: State, fragments: seq<seq<char>>): State
    decreases |fragments|
  {
    if fragments == [] then r else RunAll(lib, Run(lib, r, fragments[0]), fragments[1..])
  }

  function Join(fragments: seq<seq<char>>): seq<char> {
    if fragments == [] then [] else fragments[0] + Join(fragments[1..])
  }

  lemma {:induction false} FragmentsDoNotMatter(lib: Library, r: State, fragments: seq<seq<char>>)
    ensures RunAll(lib, r, fragments) == Run(lib, r, Join(fragments))
    decreases |fragments|
  {
    hide Feed;
    if fragments != [] {
      RunConcat(lib, r, fragments[0], Join(fragments[1..]));
      FragmentsDoNotMatter(lib, Run(lib, r, fragments[0]), fragments[1..]);
    }
  }

  // ---------- what always holds

  /** The field is terminated: after the characters stored there are only NULs, and at least one. */
  ghost predicate TextOk(t: Text, size: nat) {
    |t.chars| == size && t.length < size && forall k :: t.length <= k < size ==> t.chars[k] == '\0'
  }

  /** A string of the pool ends before the first free place. */
  ghost predicate StringOk(s: PoolString, offset: nat) {
    if s.start == -1 then s.length == 0 else 0 <= s.start && s.start + s.length <= offset
  }

  ghost predicate HeaderOk(h: Header, offset: nat) {
    StringOk(h.name, offset) && StringOk(h.value, offset)
  }

  ghost predicate HeadersOk(hs: seq<Header>, offset: nat) {
    forall k :: 0 <= k < |hs| ==> HeaderOk(hs[k], offset)
  }

  /** Headers that count have a name and a value, so both have been started. */
  ghost predicate Complete(hs: seq<Header>, count: nat) {
    forall k :: 0 <= k < count && k < |hs| ==> hs[k].name.length > 0 && hs[k].value.length > 0
  }

  ghost predicate Good(r: State) {
    && TextOk(r.verb, 64) && TextOk(r.path, 1024) && TextOk(r.version, 16)
    && |r.pathDecoded| == 1024 && r.pathDecodedLength < 1024 && r.pathDecoded[r.pathDecodedLength] == '\0'
    && |r.headers| == MAX_HEADERS && r.headersCount <= MAX_HEADERS
    && (r.parsing == HeaderName || r.parsing == HeaderValue ==> r.headersCount < MAX_HEADERS)
    && |r.pool| == POOL_SIZE && r.poolOffset <= POOL_LIMIT && HeadersOk(r.headers, r.poolOffset)
    && Complete(r.headers, r.headersCount)
    && r.bodyLength <= r.bodyCapacity && (r.bodyCapacity > 0 ==> |r.body| == r.bodyCapacity + 1)
  }

  /** A cleared request. */
  ghost predicate Cleared(r: State) {
    && (forall t :: t in [r.verb, r.path, r.version] ==> t.length == 0 && !t.truncated)
    && TextOk(r.verb, 64) && TextOk(r.path, 1024) && TextOk(r.version, 16)
    && |r.pathDecoded| == 1024 && r.pathDecodedLength == 0 && r.pathDecoded[0] == '\0'
    && |r.headers| == MAX_HEADERS && r.headersCount == 0
    && (forall k :: 0 <= k < MAX_HEADERS ==> r.headers[k] == Header(PoolString(-1, 0), PoolString(-1, 0)))
    && |r.pool| == POOL_SIZE && r.poolOffset == 0 && (forall k :: 0 <= k < POOL_SIZE ==> r.pool[k] == '\0')
    && !r.poolExhausted && !r.tooManyHeaders && !r.bodyTruncated
    && r.body == [] && r.bodyLength == r.bodyCapacity == 0 && r.parsing == Method
  }

  lemma ClearedIsGood(r: State)
    requires Cleared(r)
    ensures Good(r)
  {
  }

  lemma AddCharKeeps(t: Text, c: char, size: nat)
    requires TextOk(t, size)
    ensures TextOk(AddChar(t, c), size)
  {
  }

  lemma HeadersMove(hs: seq<Header>, offset: nat, later: nat)
    requires HeadersOk(hs, offset) && offset <= later
    ensures HeadersOk(hs, later)
  {
    forall k | 0 <= k < |hs| ensures HeaderOk(hs[k], later) {
      assert HeaderOk(hs[k], offset);
    }
  }

  /** Adding to a string keeps it, and all others, in bounds. The place written to lies inside the
      pool, so the last case of AppendChar never applies. */
  lemma AddToStringKeeps(r: State, s: PoolString, c: char)
    requires |r.pool| == POOL_SIZE && r.poolOffset <= POOL_LIMIT && StringOk(s, r.poolOffset)
    ensures var a := AddToString(r, s, c);
      && StringOk(a.1, a.0.poolOffset) && r.poolOffset <= a.0.poolOffset <= POOL_LIMIT && |a.0.pool| == POOL_SIZE
      && a.0 == r.(pool := a.0.pool, poolOffset := a.0.poolOffset, poolExhausted := a.0.poolExhausted)
    ensures var started := if s.start == -1 then StartString(r) else (r, s);
      Full(started.0) || 0 <= started.1.start + started.1.length < POOL_SIZE
  {
    hide AppendChar;
    var started := if s.start == -1 then StartString(r) else (r, s);
    AppendKeeps(started.0, started.1, c);
  }

  lemma AppendKeeps(r: State, s: PoolString, c: char)
    requires |r.pool| == POOL_SIZE && r.poolOffset <= POOL_LIMIT && StringOk(s, r.poolOffset)
    requires s.start == -1 ==> Full(r)
    ensures var a := AppendChar(r, s, c);
      && StringOk(a.1, a.0.poolOffset) && r.poolOffset <= a.0.poolOffset <= POOL_LIMIT && |a.0.pool| == POOL_SIZE
      && a.0 == r.(pool := a.0.pool, poolOffset := a.0.poolOffset, poolExhausted := a.0.poolExhausted)
  {
  }

  lemma AddToHeaderKeeps(r: State, c: char)
    requires Good(r) && r.headersCount < MAX_HEADERS
    ensures Good(AddToName(r, c)) && AddToName(r, c).parsing == r.parsing
    ensures Good(AddToValue(r, c)) && AddToValue(r, c).parsing == r.parsing
  {
    hide AddToString, TextOk;
    var h := r.headers[r.headersCount];
    assert HeaderOk(h, r.poolOffset);
    AddToStringKeeps(r, h.name, c);
    AddToStringKeeps(r, h.value, c);
    HeadersMove(r.headers, r.poolOffset, AddToString(r, h.name, c).0.poolOffset);
    HeadersMove(r.headers, r.poolOffset, AddToString(r, h.value, c).0.poolOffset);
  }

  /** Decoding the path always succeeds. */
  lemma PathDecodes(lib: Library, r: State)
    requires Good(r)
    ensures DecodePath(lib, r).1 && Good(DecodePath(lib, r).0)
    ensures var d := Decoded(lib.hex, CString(r.path.chars));
      && |d| < |r.pathDecoded|
      && DecodePath(lib, r).0 == r.(pathDecoded := d + ['\0'] + r.pathDecoded[|d| + 1..], pathDecodedLength := |d|,
        parsing := Version)
  {
    var s := CString(r.path.chars);
    PathShort(r.path);
    ScanDecodes(lib.hex, s, 1024, []);
    ScanFits(lib.hex, s, false, 1024, Normal, []);
    assert [] + Decoded(lib.hex, s) == Decoded(lib.hex, s);
  }

  lemma PathShort(t: Text)
    requires TextOk(t, 1024)
    ensures |CString(t.chars)| <= 1023 && Terminated(t.chars)
  {
    assert t.chars[1023] == '\0';
    EndsSomewhere(t.chars);
  }

  lemma RequestLineKeeps(lib: Library, r: State, c: char)
    requires Good(r) && (r.parsing == Method || r.parsing == Path || r.parsing == Version)
    ensures Good(Switch(lib, r, c))
  {
    hide TextOk, AddChar, DecodePath, HeadersOk;
    if r.parsing == Method {
      AddCharKeeps(r.verb, c, 64);
    } else if r.parsing == Path {
      AddCharKeeps(r.path, c, 1024);
      PathDecodes(lib, r);
    } else {
      AddCharKeeps(r.version, c, 16);
    }
  }

  lemma HeaderKeeps(lib: Library, r: State, c: char)
    requires Good(r) && (r.parsing == HeaderName || r.parsing == HeaderValue)
    ensures Good(Switch(lib, r, c))
  {
    hide TextOk, AddToName, AddToValue, HeadersOk;
    AddToHeaderKeeps(r, c);
  }

  lemma LineEndKeeps(lib: Library, r: State, c: char)
    requires Good(r) && (r.parsing == CR || r.parsing == CRLF || r.parsing == CRLFCR || r.parsing == EatHeaders)
    ensures Good(Switch(lib, r, c))
  {
    hide TextOk, HeadersOk, StartBody;
    if r.parsing == CRLFCR && c == '\n' { StartBodyKeeps(lib, r.(parsing := Done)); }
  }

  lemma StartBodyKeeps(lib: Library, r: State)
    requires Good(r)
    ensures Good(StartBody(lib, r))
  {
    hide TextOk, HeadersOk;
  }

  lemma BodyKeeps(lib: Library, r: State, c: char)
    requires Good(r) && (r.parsing == Body || r.parsing == Done)
    ensures Good(Switch(lib, r, c))
  {
    hide TextOk, HeadersOk;
  }

  lemma SwitchKeeps(lib: Library, r: State, c: char)
    requires Good(r)
    ensures Good(Switch(lib, r, c))
  {
    hide Good, Switch;
    match r.parsing
    case Method => RequestLineKeeps(lib, r, c);
    case Path => RequestLineKeeps(lib, r, c);
    case Version => RequestLineKeeps(lib, r, c);
    case HeaderName => HeaderKeeps(lib, r, c);
    case HeaderValue => HeaderKeeps(lib, r, c);
    case Body => BodyKeeps(lib, r, c);
    case Done => BodyKeeps(lib, r, c);
    case _ => LineEndKeeps(lib, r, c);
  }

  /** Every step of every run keeps the invariant. In particular the assertions of the source hold:
      there is room for a header in the two header states, and the path can be decoded. */
  lemma {:induction false} RunKeeps(lib: Library, r: State, s: seq<char>)
    requires Good(r)
    ensures Good(Run(lib, r, s))
    decreases |s|
  {
    hide Good, Switch;
    if s != [] {
      FeedKeeps(lib, r, s[0]);
      RunKeeps(lib, Feed(lib, r, s[0]), s[1..]);
    }
  }

  lemma FeedKeeps(lib: Library, r: State, c: char)
    requires Good(r)
    ensures Good(Feed(lib, r, c))
  {
    hide Good, Switch;
    SwitchKeeps(lib, r, c);
    SwitchKeeps(lib, Switch(lib, r, c), c);
  }
}
