/** A request written out as text, and what the parser makes of it: the parts it was made from. */
module RequestText {
  import opened UrlDecode
  import opened RequestSpec

  datatype Field = Field(name: seq<char>, value: seq<char>)

  datatype Text3 = Text3(verb: seq<char>, path: seq<char>, version: seq<char>)

  ghost predicate NameOk(w: seq<char>) {
    w != [] && forall k :: 0 <= k < |w| ==> w[k] != ':' && w[k] != '\r'
  }

  /** A value does not begin with a space: spaces there are skipped. */
  ghost predicate ValueOk(w: seq<char>) {
    w != [] && w[0] != ' ' && forall k :: 0 <= k < |w| ==> w[k] != '\r'
  }

  ghost predicate FieldOk(f: Field) {
    NameOk(f.name) && ValueOk(f.value)
  }

  /** How much of the pool the strings of these fields take, with a NUL between any two. */
  function Needed(fs: seq<Field>): nat {
    if fs == [] then 0
    else Needed(fs[..|fs| - 1]) + (if |fs| == 1 then 0 else 1) + |fs[|fs| - 1].name| + 1 + |fs[|fs| - 1].value|
  }

  function FieldText(f: Field): seq<char> {
    f.name + ([':', ' '] + (f.value + ['\r', '\n']))
  }

  function FieldsText(fs: seq<Field>): seq<char> {
    if fs == [] then [] else FieldsText(fs[..|fs| - 1]) + FieldText(fs[|fs| - 1])
  }

  function RequestLine(t: Text3): seq<char> {
    t.verb + ([' '] + (t.path + ([' '] + (t.version + ['\r', '\n']))))
  }

  ghost predicate LineOk(t: Text3) {
    ' ' !in t.verb && ' ' !in t.path && '\r' !in t.version
  }

  // ---------- the header strings

  /** The string w is in the pool, with a NUL after it, below the first free place or right before it. */
  ghost predicate InPool(pool: seq<char>, s: PoolString, w: seq<char>, offset: nat) {
    && s.length == |w| && 0 <= s.start && s.start + |w| <= offset < |pool|
    && pool[s.start..s.start + |w|] == w && pool[s.start + |w|] == '\0'
  }

  ghost predicate FieldIn(pool: seq<char>, h: Header, f: Field, offset: nat) {
    InPool(pool, h.name, f.name, offset) && InPool(pool, h.value, f.value, offset)
  }

  const BLANK: Header := Header(PoolString(-1, 0), PoolString(-1, 0))

  ghost predicate Unused(pool: seq<char>, offset: nat) {
    |pool| == POOL_SIZE && forall k :: offset <= k < POOL_SIZE ==> pool[k] == '\0'
  }

  /** The headers so far and the unused ones. */
  ghost predicate HeadersAre(hs: seq<Header>, fs: seq<Field>, pool: seq<char>, offset: nat) {
    && |hs| == MAX_HEADERS && |fs| <= MAX_HEADERS
    && (forall i :: 0 <= i < |fs| ==> FieldIn(pool, hs[i], fs[i], offset))
    && (forall i :: |fs| <= i < MAX_HEADERS ==> hs[i] == BLANK)
  }

  /** The parser has stored exactly these fields, and nothing has gone wrong. */
  ghost predicate Stores(r: State, fs: seq<Field>) {
    && r.headersCount == |fs| && r.poolOffset == Needed(fs) <= POOL_LIMIT && Unused(r.pool, r.poolOffset)
    && !r.poolExhausted && !r.tooManyHeaders
    && HeadersAre(r.headers, fs, r.pool, r.poolOffset)
  }

  /** Only what headers change has changed. */
  ghost predicate SameLine(r: State, was: State) {
    r == was.(headers := r.headers, headersCount := r.headersCount, pool := r.pool, poolOffset := r.poolOffset,
      parsing := r.parsing)
  }

  /** Strings that are in the pool stay there when something is put behind them. */
  lemma StaysInPool(pool: seq<char>, now: seq<char>, s: PoolString, w: seq<char>, offset: nat, later: nat)
    requires InPool(pool, s, w, offset) && |now| == |pool| && offset <= later < |pool|
    requires forall k :: 0 <= k <= offset ==> now[k] == pool[k]
    ensures InPool(now, s, w, later)
  {
    assert now[s.start..s.start + |w|] == pool[s.start..s.start + |w|];
  }

  /** The pool with a word put at its first free place. */
  function Put(pool: seq<char>, offset: nat, w: seq<char>): (p: seq<char>)
    requires offset + |w| <= |pool|
    ensures |p| == |pool|
  {
    pool[..offset] + w + pool[offset + |w|..]
  }

  lemma PutOne(pool: seq<char>, offset: nat, w: seq<char>)
    requires w != [] && offset + |w| <= |pool|
    ensures Put(pool[offset := w[0]], offset + 1, w[1..]) == Put(pool, offset, w)
  {
  }

  lemma PutNothing(pool: seq<char>, offset: nat)
    requires offset <= |pool|
    ensures Put(pool, offset, []) == pool
  {
  }

  /** The state when the strings of the present header are those. */
  function WithHeader(r: State, pool: seq<char>, offset: nat, h: Header): State
    requires r.headersCount < |r.headers|
  {
    r.(pool := pool, poolOffset := offset, headers := r.headers[r.headersCount := h])
  }

  /** The header strings are at hand, and there is room for n more characters. */
  ghost predicate Appending(r: State, s: PoolString, n: nat) {
    && r.headersCount < |r.headers| == MAX_HEADERS && |r.pool| == POOL_SIZE
    && 0 <= s.start && s.start + s.length == r.poolOffset && r.poolOffset + n <= POOL_LIMIT
  }

  lemma NameChar(lib: Library, r: State, c: char)
    requires r.headersCount < |r.headers| && Appending(r, r.headers[r.headersCount].name, 1) && r.parsing == HeaderName
    requires c != ':' && c != '\r'
    ensures var h := r.headers[r.headersCount];
      Feed(lib, r, c) == WithHeader(r, r.pool[r.poolOffset := c], r.poolOffset + 1,
        h.(name := PoolString(h.name.start, h.name.length + 1)))
  {
  }

  lemma ValueChar(lib: Library, r: State, c: char)
    requires r.headersCount < |r.headers| && Appending(r, r.headers[r.headersCount].value, 1)
      && r.parsing == HeaderValue
    requires r.headers[r.headersCount].value.length > 0 && c != '\r'
    ensures var h := r.headers[r.headersCount];
      Feed(lib, r, c) == WithHeader(r, r.pool[r.poolOffset := c], r.poolOffset + 1,
        h.(value := PoolString(h.value.start, h.value.length + 1)))
  {
  }

  /** The characters of a name that has been started. */
  lemma {:induction false} NameChars(lib: Library, r: State, w: seq<char>)
    requires r.headersCount < |r.headers| && Appending(r, r.headers[r.headersCount].name, |w|)
      && r.parsing == HeaderName
    requires forall k :: 0 <= k < |w| ==> w[k] != ':' && w[k] != '\r'
    ensures var h := r.headers[r.headersCount];
      Run(lib, r, w) == WithHeader(r, Put(r.pool, r.poolOffset, w), r.poolOffset + |w|,
        h.(name := PoolString(h.name.start, h.name.length + |w|)))
    decreases |w|
  {
    hide Feed, Put;
    var h := r.headers[r.headersCount];
    if w == [] {
      PutNothing(r.pool, r.poolOffset);
      assert r.headers[r.headersCount := h] == r.headers;
    } else {
      var next := Feed(lib, r, w[0]);
      NameChar(lib, r, w[0]);
      NameChars(lib, next, w[1..]);
      PutOne(r.pool, r.poolOffset, w);
    }
  }

  /** The characters of a value that has been started. */
  lemma {:induction false} ValueChars(lib: Library, r: State, w: seq<char>)
    requires r.headersCount < |r.headers| && Appending(r, r.headers[r.headersCount].value, |w|)
      && r.parsing == HeaderValue
    requires r.headers[r.headersCount].value.length > 0 && forall k :: 0 <= k < |w| ==> w[k] != '\r'
    ensures var h := r.headers[r.headersCount];
      Run(lib, r, w) == WithHeader(r, Put(r.pool, r.poolOffset, w), r.poolOffset + |w|,
        h.(value := PoolString(h.value.start, h.value.length + |w|)))
    decreases |w|
  {
    hide Feed, Put;
    var h := r.headers[r.headersCount];
    if w == [] {
      PutNothing(r.pool, r.poolOffset);
      assert r.headers[r.headersCount := h] == r.headers;
    } else {
      var next := Feed(lib, r, w[0]);
      ValueChar(lib, r, w[0]);
      ValueChars(lib, next, w[1..]);
      PutOne(r.pool, r.poolOffset, w);
    }
  }

  /** Where the next string starts. */
  function NextStart(offset: nat): nat {
    if offset == 0 then 0 else offset + 1
  }

  lemma FirstNameChar(lib: Library, r: State, c: char)
    requires r.parsing == CRLF && r.headersCount < |r.headers| == MAX_HEADERS && |r.pool| == POOL_SIZE
      && !r.poolExhausted
    requires r.headers[r.headersCount] == BLANK && c != ':' && c != '\r' && NextStart(r.poolOffset) < POOL_LIMIT
    ensures var at := NextStart(r.poolOffset);
      Feed(lib, r, c) == WithHeader(r, r.pool[at := c], at + 1,
        BLANK.(name := PoolString(at, 1))).(parsing := HeaderName)
  {
  }

  /** A whole name, from the line end before it. */
  lemma WholeName(lib: Library, r: State, w: seq<char>)
    requires r.parsing == CRLF && r.headersCount < |r.headers| == MAX_HEADERS && |r.pool| == POOL_SIZE
      && !r.poolExhausted
    requires r.headers[r.headersCount] == BLANK && NameOk(w) && NextStart(r.poolOffset) + |w| <= POOL_LIMIT
    ensures var at := NextStart(r.poolOffset);
      Run(lib, r, w) == WithHeader(r, Put(r.pool, at, w), at + |w|,
        BLANK.(name := PoolString(at, |w|))).(parsing := HeaderName)
  {
    hide Feed, Put, NextStart;
    var at := NextStart(r.poolOffset);
    FirstNameChar(lib, r, w[0]);
    var next := Feed(lib, r, w[0]);
    NameChars(lib, next, w[1..]);
    PutOne(r.pool, at, w);
    assert Run(lib, r, w) == Run(lib, next, w[1..]);
  }

  lemma FirstValueChar(lib: Library, r: State, c: char)
    requires r.parsing == HeaderValue && r.headersCount < |r.headers| == MAX_HEADERS && |r.pool| == POOL_SIZE
    requires r.headers[r.headersCount].value == PoolString(-1, 0) && c != ' ' && c != '\r'
      && 0 < r.poolOffset < POOL_LIMIT - 1
    ensures var at := r.poolOffset + 1;
      Feed(lib, r, c) == WithHeader(r, r.pool[at := c], at + 1, r.headers[r.headersCount].(value := PoolString(at, 1)))
  {
  }

  lemma ColonAndSpace(lib: Library, r: State)
    requires r.parsing == HeaderName && r.headersCount < |r.headers| && r.headers[r.headersCount].value.length == 0
    ensures Feed(lib, Feed(lib, r, ':'), ' ') == r.(parsing := HeaderValue)
  {
  }

  /** A whole value, from the colon before it. */
  lemma WholeValue(lib: Library, r: State, w: seq<char>)
    requires r.parsing == HeaderName && r.headersCount < |r.headers| == MAX_HEADERS && |r.pool| == POOL_SIZE
    requires r.headers[r.headersCount].value == PoolString(-1, 0) && ValueOk(w) && r.poolOffset > 0
    requires r.poolOffset + 1 + |w| <= POOL_LIMIT
    ensures var at := r.poolOffset + 1;
      Run(lib, r, [':', ' '] + w) == WithHeader(r, Put(r.pool, at, w), at + |w|,
        r.headers[r.headersCount].(value := PoolString(at, |w|))).(parsing := HeaderValue)
  {
    hide Feed, Put;
    var at := r.poolOffset + 1;
    ColonAndSpace(lib, r);
    var colon := r.(parsing := HeaderValue);
    FirstValueChar(lib, colon, w[0]);
    var next := Feed(lib, colon, w[0]);
    ValueChars(lib, next, w[1..]);
    PutOne(r.pool, at, w);
    TwoChars(lib, r, ':', ' ', w);
    assert Run(lib, colon, w) == Run(lib, next, w[1..]);
  }

  lemma TwoChars(lib: Library, r: State, a: char, b: char, w: seq<char>)
    ensures Run(lib, r, [a, b] + w) == Run(lib, Feed(lib, Feed(lib, r, a), b), w)
  {
    hide Feed;
    var s := [a, b] + w;
    assert s[1..] == [b] + w && s[1..][1..] == w;
    assert Run(lib, r, s) == Run(lib, Feed(lib, r, a), s[1..]);
  }

  lemma TwoOnly(lib: Library, r: State, a: char, b: char)
    ensures Run(lib, r, [a, b]) == Feed(lib, Feed(lib, r, a), b)
  {
    hide Feed;
    TwoChars(lib, r, a, b, []);
    assert [a, b] + [] == [a, b];
  }

  /** The line end after a value completes the header. */
  lemma ValueLineEnd(lib: Library, r: State)
    requires r.parsing == HeaderValue && r.headersCount < |r.headers|
    requires r.headers[r.headersCount].name.length > 0 && r.headers[r.headersCount].value.length > 0
    ensures Run(lib, r, ['\r', '\n']) == r.(headersCount := r.headersCount + 1, parsing := CRLF)
  {
    TwoOnly(lib, r, '\r', '\n');
  }

  /** What one header adds to the state. */
  function Stored(r: State, f: Field): State
    requires r.headersCount < |r.headers| && NextStart(r.poolOffset) + |f.name| + 1 + |f.value| <= |r.pool|
  {
    var at := NextStart(r.poolOffset);
    var second := at + |f.name| + 1;
    WithHeader(r, Put(Put(r.pool, at, f.name), second, f.value), second + |f.value|,
      Header(PoolString(at, |f.name|), PoolString(second, |f.value|))).(headersCount := r.headersCount + 1)
  }

  /** One header, from line end to line end. */
  lemma HeaderParses(lib: Library, r: State, f: Field)
    requires r.parsing == CRLF && r.headersCount < |r.headers| == MAX_HEADERS && |r.pool| == POOL_SIZE
      && !r.poolExhausted
    requires r.headers[r.headersCount] == BLANK && FieldOk(f)
      && NextStart(r.poolOffset) + |f.name| + 1 + |f.value| <= POOL_LIMIT
    ensures Run(lib, r, FieldText(f)) == Stored(r, f)
  {
    hide Run, Put, NextStart;
    WholeName(lib, r, f.name);
    var named := Run(lib, r, f.name);
    WholeValue(lib, named, f.value);
    var valued := Run(lib, named, [':', ' '] + f.value);
    ValueLineEnd(lib, valued);
    RunConcat(lib, named, [':', ' '] + f.value, ['\r', '\n']);
    assert ([':', ' '] + f.value) + ['\r', '\n'] == [':', ' '] + (f.value + ['\r', '\n']);
    RunConcat(lib, r, f.name, [':', ' '] + (f.value + ['\r', '\n']));
    assert r.headers[r.headersCount := Header(PoolString(NextStart(r.poolOffset), |f.name|), PoolString(-1, 0))]
      [r.headersCount := valued.headers[r.headersCount]] == valued.headers;
  }

  // ---------- all headers

  lemma NeededStep(fs: seq<Field>, f: Field)
    requires forall k :: 0 <= k < |fs| ==> FieldOk(fs[k])
    ensures Needed(fs + [f]) == NextStart(Needed(fs)) + |f.name| + 1 + |f.value|
    ensures FieldsText(fs + [f]) == FieldsText(fs) + FieldText(f)
  {
    assert (fs + [f])[..|fs|] == fs;
    if fs != [] {
      assert FieldOk(fs[|fs| - 1]);
    }
  }

  /** Putting a word where the pool is unused. */
  lemma PutUnused(pool: seq<char>, offset: nat, at: nat, w: seq<char>)
    requires Unused(pool, offset) && offset <= at && at + |w| < POOL_SIZE
    ensures var now := Put(pool, at, w);
      Unused(now, at + |w|) && now[at..at + |w|] == w && forall k :: 0 <= k < at ==> now[k] == pool[k]
  {
  }

  /** The strings of the new header, and those that were there before. */
  lemma PoolWith(pool: seq<char>, offset: nat, at: nat, f: Field)
    requires Unused(pool, offset) && (at == offset == 0 || at == offset + 1)
      && at + |f.name| + 1 + |f.value| <= POOL_LIMIT
    ensures var second, end := at + |f.name| + 1, at + |f.name| + 1 + |f.value|;
      var now := Put(Put(pool, at, f.name), second, f.value);
      && Unused(now, end) && FieldIn(now, Header(PoolString(at, |f.name|), PoolString(second, |f.value|)), f, end)
      && forall k :: 0 <= k < at ==> now[k] == pool[k]
  {
    hide Put;
    var second := at + |f.name| + 1;
    PutUnused(pool, offset, at, f.name);
    var first := Put(pool, at, f.name);
    PutUnused(first, at + |f.name|, second, f.value);
    var now := Put(first, second, f.value);
    assert now[at..at + |f.name|] == f.name;
  }

  lemma FieldStays(pool: seq<char>, now: seq<char>, h: Header, f: Field, offset: nat, later: nat)
    requires FieldIn(pool, h, f, offset) && |now| == |pool| && offset <= later < |pool|
    requires forall k :: 0 <= k <= offset ==> now[k] == pool[k]
    ensures FieldIn(now, h, f, later)
  {
    StaysInPool(pool, now, h.name, f.name, offset, later);
    StaysInPool(pool, now, h.value, f.value, offset, later);
  }

  lemma OneMoreHeader(hs: seq<Header>, fs: seq<Field>, pool: seq<char>, offset: nat, h: Header, f: Field,
                      now: seq<char>, end: nat)
    requires HeadersAre(hs, fs, pool, offset) && |fs| < MAX_HEADERS && FieldIn(now, h, f, end)
    requires |now| == |pool| && offset <= end < |pool| && forall k :: 0 <= k <= offset ==> fs == [] || now[k] == pool[k]
    ensures HeadersAre(hs[|fs| := h], fs + [f], now, end)
  {
    hide FieldIn;
    forall i | 0 <= i < |fs| ensures FieldIn(now, hs[i], fs[i], end) {
      FieldStays(pool, now, hs[i], fs[i], offset, end);
    }
  }

  lemma StoredIs(r: State, f: Field)
    requires r.headersCount < |r.headers| && NextStart(r.poolOffset) + |f.name| + 1 + |f.value| <= |r.pool|
    ensures var q, at, second := Stored(r, f), NextStart(r.poolOffset), NextStart(r.poolOffset) + |f.name| + 1;
      && q.headersCount == r.headersCount + 1 && q.poolExhausted == r.poolExhausted
        && q.tooManyHeaders == r.tooManyHeaders
      && q.pool == Put(Put(r.pool, at, f.name), second, f.value) && q.poolOffset == second + |f.value|
      && q.headers == r.headers[r.headersCount := Header(PoolString(at, |f.name|), PoolString(second, |f.value|))]
  {
  }

  lemma StoresShape(r: State, fs: seq<Field>)
    requires Stores(r, fs)
    ensures |r.pool| == POOL_SIZE && |r.headers| == MAX_HEADERS
  {
    hide Needed, FieldIn;
  }

  /** One more header. */
  lemma StoresMore(r: State, fs: seq<Field>, f: Field)
    requires Stores(r, fs) && |fs| < MAX_HEADERS && (fs == [] <==> r.poolOffset == 0)
    requires NextStart(r.poolOffset) + |f.name| + 1 + |f.value| == Needed(fs + [f]) <= POOL_LIMIT
    ensures Stores(Stored(r, f), fs + [f])
  {
    hide Put, Needed, FieldIn, Unused, HeadersAre, Stored;
    var at := NextStart(r.poolOffset);
    StoresShape(r, fs);
    StoredIs(r, f);
    PoolWith(r.pool, r.poolOffset, at, f);
    var now := Stored(r, f);
    OneMoreHeader(r.headers, fs, r.pool, r.poolOffset, now.headers[|fs|], f, now.pool, now.poolOffset);
  }

  lemma {:induction false} HeadersParse(lib: Library, r: State, fs: seq<Field>)
    requires r.parsing == CRLF && Stores(r, []) && |fs| <= MAX_HEADERS && Needed(fs) <= POOL_LIMIT
    requires forall k :: 0 <= k < |fs| ==> FieldOk(fs[k])
    ensures var q := Run(lib, r, FieldsText(fs)); Stores(q, fs) && q.parsing == CRLF && SameLine(q, r)
    ensures fs != [] ==> Needed(fs) > 0
    decreases |fs|
  {
    hide Run, Put, FieldOk, FieldIn, FieldText;
    if fs == [] {
      NothingRun(lib, r);
    } else {
      var before, f := fs[..|fs| - 1], fs[|fs| - 1];
      assert before + [f] == fs;
      NeededStep(before, f);
      HeadersParse(lib, r, before);
      var q := Run(lib, r, FieldsText(before));
      RunConcat(lib, r, FieldsText(before), FieldText(f));
      HeaderParses(lib, q, f);
      assert FieldOk(f);
      StoresMore(q, before, f);
    }
  }

  lemma NothingRun(lib: Library, r: State)
    ensures Run(lib, r, []) == r
  {
  }

  // ---------- the request line

  /** As much of a text as there is room for. */
  function Cut(w: seq<char>, n: nat): seq<char> {
    if |w| <= n then w else w[..n]
  }

  /** The field of this size holds as much of the text as it has room for, with a NUL after it, and its
      flag says whether something is missing. */
  ghost predicate Says(t: Text, w: seq<char>, size: nat) {
    && |t.chars| == size > 0 && t.length == |Cut(w, size - 1)| && t.chars[..t.length] == Cut(w, size - 1)
    && t.chars[t.length] == '\0' && (t.truncated <==> |w| > size - 1)
  }

  function More(t: Text, w: seq<char>): Text
    requires t.length < |t.chars|
  {
    var v := Cut(w, |t.chars| - 1 - t.length);
    Text(Put(t.chars, t.length, v), t.length + |v|, t.truncated || v != w)
  }

  lemma MoreStep(t: Text, w: seq<char>)
    requires w != [] && t.length < |t.chars|
    ensures AddChar(t, w[0]).length < |AddChar(t, w[0]).chars| == |t.chars|
    ensures More(AddChar(t, w[0]), w[1..]) == More(t, w)
  {
    var n := |t.chars| - 1 - t.length;
    if n > 0 {
      var v := Cut(w, n);
      assert Cut(w[1..], n - 1) == v[1..];
      assert v[1..] == w[1..] <==> v == w;
      PutOne(t.chars, t.length, v);
    } else {
      PutNothing(t.chars, t.length);
    }
  }

  lemma MoreNothing(t: Text)
    requires t.length < |t.chars|
    ensures More(t, []) == t
  {
    PutNothing(t.chars, t.length);
  }

  lemma {:induction false} VerbChars(lib: Library, r: State, w: seq<char>)
    requires r.parsing == Method && r.verb.length < |r.verb.chars| && ' ' !in w
    ensures Run(lib, r, w) == r.(verb := More(r.verb, w))
    decreases |w|
  {
    hide AddChar, More;
    if w == [] {
      MoreNothing(r.verb);
    } else {
      MoreStep(r.verb, w);
      VerbChars(lib, Feed(lib, r, w[0]), w[1..]);
    }
  }

  lemma {:induction false} PathChars(lib: Library, r: State, w: seq<char>)
    requires r.parsing == Path && r.path.length < |r.path.chars| && ' ' !in w
    ensures Run(lib, r, w) == r.(path := More(r.path, w))
    decreases |w|
  {
    hide AddChar, More;
    if w == [] {
      MoreNothing(r.path);
    } else {
      MoreStep(r.path, w);
      PathChars(lib, Feed(lib, r, w[0]), w[1..]);
    }
  }

  lemma {:induction false} VersionChars(lib: Library, r: State, w: seq<char>)
    requires r.parsing == Version && r.version.length < |r.version.chars| && '\r' !in w
    ensures Run(lib, r, w) == r.(version := More(r.version, w))
    decreases |w|
  {
    hide AddChar, More;
    if w == [] {
      MoreNothing(r.version);
    } else {
      MoreStep(r.version, w);
      VersionChars(lib, Feed(lib, r, w[0]), w[1..]);
    }
  }

  lemma FromEmpty(t: Text, w: seq<char>, size: nat)
    requires TextOk(t, size) && t.length == 0 && !t.truncated
    ensures Says(More(t, w), w, size) && TextOk(More(t, w), size)
  {
    var v := Cut(w, size - 1);
    assert v == w <==> |w| <= size - 1;
    assert Put(t.chars, 0, v)[..|v|] == v;
  }

  /** NULs at the end make no difference to a C string. */
  lemma {:induction false} CStringPadded(w: seq<char>, a: seq<char>)
    requires |w| < |a| && a[..|w|] == w && a[|w|] == '\0'
    ensures CString(a) == CString(w)
    decreases |w|
  {
    if w != [] && w[0] != '\0' {
      assert a[0] == w[0] && a[1..][..|w| - 1] == w[1..];
      CStringPadded(w[1..], a[1..]);
    } else if w == [] {
      assert CString(a) == [];
    } else {
      assert a[0] == w[0];
    }
  }

  // ---------- the whole request

  /** A cleared request that has taken up its request line. */
  ghost predicate LineRead(lib: Library, r: State, was: State, t: Text3) {
    && Says(r.verb, t.verb, 64) && Says(r.path, t.path, 1024) && Says(r.version, t.version, 16)
    && var d := Decoded(lib.hex, CString(Cut(t.path, 1023)));
    && |d| < |r.pathDecoded| && r.pathDecoded[..|d|] == d && r.pathDecoded[|d|] == '\0' && r.pathDecodedLength == |d|
    && r == was.(verb := r.verb, path := r.path, version := r.version, pathDecoded := r.pathDecoded,
                 pathDecodedLength := r.pathDecodedLength, parsing := r.parsing)
  }

  lemma VerbParses(lib: Library, r: State, w: seq<char>)
    requires r.parsing == Method && TextOk(r.verb, 64) && r.verb.length == 0 && ' ' !in w
    ensures Run(lib, r, w + [' ']) == r.(verb := More(r.verb, w), parsing := Path)
  {
    hide More;
    VerbChars(lib, r, w);
    RunConcat(lib, r, w, [' ']);
    OneChar(lib, Run(lib, r, w), ' ');
  }

  lemma OneChar(lib: Library, r: State, c: char)
    ensures Run(lib, r, [c]) == Feed(lib, r, c)
  {
    hide Feed;
    assert [c][1..] == [];
  }

  /** The path ends with a space, and is decoded. */
  lemma PathParses(lib: Library, r: State, w: seq<char>)
    requires r.parsing == Path && Good(r) && r.path.length == 0 && !r.path.truncated && ' ' !in w
    ensures var q, d := Run(lib, r, w + [' ']), Decoded(lib.hex, CString(Cut(w, 1023)));
      && |d| < |r.pathDecoded|
      && q == r.(path := More(r.path, w), pathDecoded := d + ['\0'] + r.pathDecoded[|d| + 1..],
        pathDecodedLength := |d|, parsing := Version)
  {
    assert |r.path.chars| == 1024;
    hide More, Decoded, CString, TextOk, HeadersOk, DecodePath;
    PathChars(lib, r, w);
    RunConcat(lib, r, w, [' ']);
    OneChar(lib, Run(lib, r, w), ' ');
    FromEmpty(r.path, w, 1024);
    CStringPadded(Cut(w, 1023), More(r.path, w).chars);
    PathDecodes(lib, Run(lib, r, w));
  }

  lemma VersionParses(lib: Library, r: State, w: seq<char>)
    requires r.parsing == Version && TextOk(r.version, 16) && r.version.length == 0 && '\r' !in w
    ensures Run(lib, r, w + ['\r', '\n']) == r.(version := More(r.version, w), parsing := CRLF)
  {
    hide More;
    VersionChars(lib, r, w);
    RunConcat(lib, r, w, ['\r', '\n']);
    TwoOnly(lib, Run(lib, r, w), '\r', '\n');
  }

  lemma LineParses(lib: Library, r: State, t: Text3)
    requires Cleared(r) && LineOk(t)
    ensures var q := Run(lib, r, RequestLine(t)); LineRead(lib, q, r, t) && q.parsing == CRLF
  {
    hide Run, More, Decoded, CString, TextOk, HeadersOk;
    var a, b, c := t.verb + [' '], t.path + [' '], t.version + ['\r', '\n'];
    assert RequestLine(t) == a + (b + c);
    ClearedIsGood(r);
    VerbParses(lib, r, t.verb);
    var q1 := Run(lib, r, a);
    FromEmpty(r.verb, t.verb, 64);
    PathParses(lib, q1, t.path);
    var q2 := Run(lib, q1, b);
    FromEmpty(r.path, t.path, 1024);
    VersionParses(lib, q2, t.version);
    FromEmpty(r.version, t.version, 16);
    RunConcat(lib, r, a, b + c);
    RunConcat(lib, q1, b, c);
  }

  /** The empty line ends the headers. */
  lemma HeadersEnd(lib: Library, r: State)
    requires r.parsing == CRLF
    ensures Run(lib, r, ['\r', '\n']) == StartBody(lib, r.(parsing := Done))
  {
    hide StartBody;
    TwoOnly(lib, r, '\r', '\n');
    assert Feed(lib, r, '\r') == r.(parsing := CRLFCR);
  }

  lemma PoolUnused(r: State)
    requires Cleared(r)
    ensures Unused(r.pool, 0) && Needed([]) == 0
  {
  }

  function RequestText(t: Text3, fs: seq<Field>): seq<char> {
    RequestLine(t) + (FieldsText(fs) + ['\r', '\n'])
  }

  // ---------- more headers than there is room for

  /** The headers that count: the first 64. */
  function Kept(fs: seq<Field>): seq<Field> {
    if |fs| <= MAX_HEADERS then fs else fs[..MAX_HEADERS]
  }

  lemma {:induction false} EatChars(lib: Library, r: State, w: seq<char>)
    requires r.parsing == EatHeaders && '\r' !in w
    ensures Run(lib, r, w) == r
    decreases |w|
  {
    if w != [] { EatChars(lib, r, w[1..]); }
  }

  /** A header that finds no place any more is skipped up to its end. */
  lemma HeaderEaten(lib: Library, r: State, f: Field)
    requires r.parsing == CRLF && r.headersCount == MAX_HEADERS && FieldOk(f)
    ensures Run(lib, r, FieldText(f)) == r.(tooManyHeaders := true)
  {
    hide Run;
    var w := f.name[1..] + ([':', ' '] + f.value);
    assert FieldText(f) == [f.name[0]] + (w + ['\r', '\n']);
    OneChar(lib, r, f.name[0]);
    var eating := Run(lib, r, [f.name[0]]);
    assert eating == r.(tooManyHeaders := true, parsing := EatHeaders);
    RunConcat(lib, r, [f.name[0]], w + ['\r', '\n']);
    RunConcat(lib, eating, w, ['\r', '\n']);
    EatChars(lib, eating, w);
    TwoOnly(lib, eating, '\r', '\n');
  }

  lemma {:induction false} HeadersEaten(lib: Library, r: State, fs: seq<Field>)
    requires r.parsing == CRLF && r.headersCount == MAX_HEADERS && forall k :: 0 <= k < |fs| ==> FieldOk(fs[k])
    ensures Run(lib, r, FieldsText(fs)) == r.(tooManyHeaders := r.tooManyHeaders || fs != [])
    decreases |fs|
  {
    hide Run, FieldOk, FieldText;
    if fs == [] {
      NothingRun(lib, r);
    } else {
      var before, f := fs[..|fs| - 1], fs[|fs| - 1];
      HeadersEaten(lib, r, before);
      RunConcat(lib, r, FieldsText(before), FieldText(f));
      assert FieldOk(f);
      HeaderEaten(lib, Run(lib, r, FieldsText(before)), f);
    }
  }

  lemma {:induction false} FieldsTextSplits(fs: seq<Field>, n: nat)
    requires n <= |fs|
    ensures FieldsText(fs) == FieldsText(fs[..n]) + FieldsText(fs[n..])
    decreases |fs|
  {
    hide FieldText;
    if n == |fs| {
      assert fs[..n] == fs;
    } else {
      var before, f := fs[..|fs| - 1], fs[|fs| - 1];
      FieldsTextSplits(before, n);
      assert before[..n] == fs[..n];
      assert fs[n..][..|fs[n..]| - 1] == before[n..];
      assert (FieldsText(before[..n]) + FieldsText(before[n..])) + FieldText(f)
        == FieldsText(before[..n]) + (FieldsText(before[n..]) + FieldText(f));
    }
  }

  /** All headers: the first 64 are stored, and a flag says whether there were more. */
  lemma AllHeadersParse(lib: Library, r: State, fs: seq<Field>)
    requires r.parsing == CRLF && Stores(r, []) && Needed(Kept(fs)) <= POOL_LIMIT
    requires forall k :: 0 <= k < |fs| ==> FieldOk(fs[k])
    ensures var q := Run(lib, r, FieldsText(fs)).(tooManyHeaders := false);
      Stores(q, Kept(fs)) && q.parsing == CRLF && SameLine(q, r)
    ensures Run(lib, r, FieldsText(fs)).tooManyHeaders == (|fs| > MAX_HEADERS)
  {
    hide Run, FieldsText, Needed, FieldOk, HeadersAre, Unused;
    HeadersParse(lib, r, Kept(fs));
    if |fs| > MAX_HEADERS {
      var kept, rest := fs[..MAX_HEADERS], fs[MAX_HEADERS..];
      FieldsTextSplits(fs, MAX_HEADERS);
      RunConcat(lib, r, FieldsText(kept), FieldsText(rest));
      HeadersEaten(lib, Run(lib, r, FieldsText(kept)), rest);
    }
  }

  // ---------- looking up a header

  lemma FieldFound(pool: seq<char>, s: PoolString, w: seq<char>, offset: nat)
    requires InPool(pool, s, w, offset)
    ensures StringAt(pool, s.start) == CString(w)
  {
    hide CString;
    assert pool[s.start..][..|w|] == pool[s.start..s.start + |w|];
    CStringPadded(w, pool[s.start..]);
  }

  /** Looking up a header finds the first one whose name is the same but for case. */
  lemma {:induction false} FindsFirst(r: State, fs: seq<Field>, name: seq<char>, i: nat, j: nat)
    requires Stores(r, fs) && j <= i <= |fs|
    requires forall k :: 0 <= k < i ==> !SameName(CString(fs[k].name), name)
    requires i < |fs| ==> SameName(CString(fs[i].name), name)
    ensures FindHeader(r, name, j) == i
    decreases i - j
  {
    hide CString, SameName, StringAt, InPool, Needed, Unused;
    if j < |fs| {
      assert FieldIn(r.pool, r.headers[j], fs[j], r.poolOffset);
      FieldFound(r.pool, r.headers[j].name, fs[j].name, r.poolOffset);
      if j < i { FindsFirst(r, fs, name, i, j + 1); }
    }
  }

  lemma ContentLengthIs(lib: Library, r: State, fs: seq<Field>, i: nat)
    requires Stores(r, fs) && i <= |fs|
    requires forall k :: 0 <= k < i ==> !SameName(CString(fs[k].name), "Content-Length")
    requires i < |fs| ==> SameName(CString(fs[i].name), "Content-Length")
    ensures ContentLength(lib, r) == if i < |fs| then lib.number(CString(fs[i].value)) else None
  {
    hide CString, SameName, StringAt, InPool, Needed, Unused;
    FindsFirst(r, fs, "Content-Length", i, 0);
    if i < |fs| {
      assert FieldIn(r.pool, r.headers[i], fs[i], r.poolOffset);
      FieldFound(r.pool, r.headers[i].value, fs[i].value, r.poolOffset);
    }
  }

  // ---------- the body

  /** A body that is no longer than announced is stored whole; when it is complete, so is the request. */
  lemma {:induction false} BodyParses(lib: Library, r: State, w: seq<char>)
    requires r.parsing == Body && r.bodyLength < r.bodyCapacity < |r.body| && r.bodyLength + |w| <= r.bodyCapacity
    ensures Run(lib, r, w) == r.(body := Put(r.body, r.bodyLength, w), bodyLength := r.bodyLength + |w|,
      parsing := if r.bodyLength + |w| == r.bodyCapacity then Done else Body)
    decreases |w|
  {
    hide Feed, Put;
    if w == [] {
      PutNothing(r.body, r.bodyLength);
    } else {
      BodyCharIs(lib, r, w[0]);
      PutOne(r.body, r.bodyLength, w);
      if |w| == 1 {
        assert w[1..] == [];
        PutNothing(r.body[r.bodyLength := w[0]], r.bodyLength + 1);
      } else {
        BodyParses(lib, Feed(lib, r, w[0]), w[1..]);
      }
    }
  }

  lemma BodyCharIs(lib: Library, r: State, c: char)
    requires r.parsing == Body && r.bodyLength < r.bodyCapacity < |r.body|
    ensures Feed(lib, r, c) == r.(body := r.body[r.bodyLength := c], bodyLength := r.bodyLength + 1,
      parsing := if r.bodyLength + 1 == r.bodyCapacity then Done else Body)
  {
  }

  /** Nothing is stored after the end; if there was a body, this is worth a warning. */
  lemma {:induction false} AfterEnd(lib: Library, r: State, w: seq<char>)
    requires r.parsing == Done
    ensures Run(lib, r, w) == r.(bodyTruncated := r.bodyTruncated || (w != [] && r.body != []))
    decreases |w|
  {
    if w != [] { AfterEnd(lib, Feed(lib, r, w[0]), w[1..]); }
  }

  /** What the parser has stored of the first line and the headers. */
  ghost predicate HeadIs(lib: Library, q: State, t: Text3, fs: seq<Field>) {
    && Says(q.verb, t.verb, 64) && Says(q.path, t.path, 1024) && Says(q.version, t.version, 16)
    && q.pathDecodedLength < |q.pathDecoded| && q.pathDecoded[q.pathDecodedLength] == '\0'
    && q.pathDecoded[..q.pathDecodedLength] == Decoded(lib.hex, CString(Cut(t.path, 1023)))
    && Stores(q.(tooManyHeaders := false), Kept(fs)) && (q.tooManyHeaders <==> |fs| > 64)
  }

  /** What the parser has stored of the body, if a body of n bytes has been announced and w follows
      the headers. No more than 128 megabytes are stored. */
  ghost predicate BodyIs(q: State, n: int, w: seq<char>) {
    var m := if n > 128 * 1024 * 1024 then 128 * 1024 * 1024 else n;
    if n <= 0 then
      q.body == [] && q.bodyLength == 0 && !q.bodyTruncated && q.parsing == (if w == [] then Body else Done)
    else
      && q.bodyCapacity == m && |q.body| == m + 1 && q.body[m] == '\0'
      && q.bodyLength == |Cut(w, m)| && q.body[..q.bodyLength] == Cut(w, m)
      && (q.bodyTruncated <==> |w| > m) && q.parsing == (if |w| < m then Body else Done)
  }

  /** The state after the empty line that ends the headers. */
  lemma HeadParses(lib: Library, r: State, t: Text3, fs: seq<Field>) returns (p: State)
    requires Cleared(r) && LineOk(t) && Needed(Kept(fs)) <= POOL_LIMIT
    requires forall k :: 0 <= k < |fs| ==> FieldOk(fs[k])
    ensures HeadIs(lib, p, t, fs) && p.parsing == Done && p.body == [] && p.bodyLength == 0 && !p.bodyTruncated
    ensures Run(lib, r, RequestText(t, fs)) == StartBody(lib, p)
  {
    hide Run, Decoded, CString, Says, FieldIn, Unused, RequestLine, FieldsText, Needed, FieldOk, StartBody;
    LineParses(lib, r, t);
    var q1 := Run(lib, r, RequestLine(t));
    PoolUnused(r);
    AllHeadersParse(lib, q1, fs);
    var q2 := Run(lib, q1, FieldsText(fs));
    p := q2.(parsing := Done);
    HeadersEnd(lib, q2);
    RunConcat(lib, r, RequestLine(t), FieldsText(fs) + ['\r', '\n']);
    RunConcat(lib, q1, FieldsText(fs), ['\r', '\n']);
  }

  /** What follows the headers is the body. */
  lemma RestParses(lib: Library, p: State, n: int, w: seq<char>)
    requires p.parsing == Done && p.body == [] && p.bodyLength == 0 && !p.bodyTruncated
    requires ContentLength(lib, p) == Some(n)
    ensures var q := Run(lib, StartBody(lib, p), w);
      && BodyIs(q, n, w)
      && q == p.(body := q.body, bodyLength := q.bodyLength, bodyCapacity := q.bodyCapacity,
        bodyTruncated := q.bodyTruncated, parsing := q.parsing)
  {
    hide *;
    if n <= 0 {
      EmptyBody(lib, p, n, w);
    } else {
      var m: nat := if n > 128 * 1024 * 1024 then 128 * 1024 * 1024 else n;
      WholeBody(lib, p, n, m, w);
    }
  }

  /** A body of no bytes ends with the byte after it, which is lost. */
  lemma EmptyBody(lib: Library, p: State, n: int, w: seq<char>)
    requires p.parsing == Done && p.body == [] && p.bodyLength == 0 && !p.bodyTruncated
    requires ContentLength(lib, p) == Some(n) && n <= 0
    ensures var q := Run(lib, StartBody(lib, p), w);
      BodyIs(q, n, w) && q == p.(bodyCapacity := 0, parsing := q.parsing)
  {
    hide ContentLength, Run, Feed;
    var s := StartBody(lib, p);
    assert s == p.(bodyCapacity := 0, parsing := Body);
    if w == [] {
      NothingRun(lib, s);
    } else {
      RunFirst(lib, s, w);
      LostChar(lib, s, w[0]);
      AfterEnd(lib, Feed(lib, s, w[0]), w[1..]);
    }
  }

  lemma LostChar(lib: Library, s: State, c: char)
    requires s.parsing == Body && s.bodyCapacity == s.bodyLength == 0
    ensures Feed(lib, s, c) == s.(parsing := Done)
  {
  }

  lemma BodyStarts(lib: Library, p: State, n: int, m: nat)
    requires ContentLength(lib, p) == Some(n) && n > 0
    requires m == if n > 128 * 1024 * 1024 then 128 * 1024 * 1024 else n
    ensures StartBody(lib, p) == p.(body := NewBody(m), bodyCapacity := m, bodyLength := 0, parsing := Body)
    ensures |NewBody(m)| == m + 1 && NewBody(m)[m] == '\0'
  {
    hide ContentLength;
  }

  lemma WholeBody(lib: Library, p: State, n: int, m: nat, w: seq<char>)
    requires p.parsing == Done && p.body == [] && p.bodyLength == 0 && !p.bodyTruncated
    requires ContentLength(lib, p) == Some(n) && n > 0
    requires m == if n > 128 * 1024 * 1024 then 128 * 1024 * 1024 else n
    ensures var q := Run(lib, StartBody(lib, p), w);
      && BodyIs(q, n, w)
      && q == p.(body := q.body, bodyLength := q.bodyLength, bodyCapacity := q.bodyCapacity,
        bodyTruncated := q.bodyTruncated, parsing := q.parsing)
  {
    hide ContentLength, Run, StartBody, NewBody, Put;
    BodyStarts(lib, p, n, m);
    var s := StartBody(lib, p);
    var v := Cut(w, m);
    BodyParses(lib, s, v);
    PutFirst(s.body, v, m);
    if |w| > m {
      assert w == v + w[m..];
      RunConcat(lib, s, v, w[m..]);
      AfterEnd(lib, Run(lib, s, v), w[m..]);
    }
  }

  lemma PutFirst(body: seq<char>, v: seq<char>, m: nat)
    requires |v| <= m < |body|
    ensures Put(body, 0, v)[..|v|] == v && Put(body, 0, v)[m] == body[m]
  {
  }

  lemma RunFirst(lib: Library, r: State, w: seq<char>)
    requires w != []
    ensures Run(lib, r, w) == Run(lib, Feed(lib, r, w[0]), w[1..])
  {
  }

  /** A request and what follows it: the first line and the headers are stored with everything there is room
      for, flags say what is not there, and so does the body if the first Content-Length header has a
      number. Here i is the place of that header, or the number of headers if there is none. */
  lemma RequestParses(lib: Library, r: State, t: Text3, fs: seq<Field>, i: nat, w: seq<char>)
    requires Cleared(r) && LineOk(t) && Needed(Kept(fs)) <= POOL_LIMIT
    requires forall k :: 0 <= k < |fs| ==> FieldOk(fs[k])
    requires i <= |Kept(fs)| && forall k :: 0 <= k < i ==> !SameName(CString(fs[k].name), "Content-Length")
    requires i < |Kept(fs)| ==> SameName(CString(fs[i].name), "Content-Length")
    ensures var q := Run(lib, r, RequestText(t, fs) + w);
      var number := if i < |Kept(fs)| then lib.number(CString(fs[i].value)) else None;
      && HeadIs(lib, q, t, fs)
      && (number.Some? ==> BodyIs(q, number.value, w))
      && (number.None? ==> q.parsing == Done && q.body == [] && q.bodyLength == 0 && !q.bodyTruncated)
  {
    hide Run, Decoded, CString, Says, RequestText, Needed, FieldOk, HeadersAre, Unused, StartBody, ContentLength,
      BodyIs, SameName;
    var p := HeadParses(lib, r, t, fs);
    RunConcat(lib, r, RequestText(t, fs), w);
    ContentLengthIs(lib, p.(tooManyHeaders := false), Kept(fs), i);
    SameContentLength(lib, p);
    var number := ContentLength(lib, p);
    if number.Some? {
      RestParses(lib, p, number.value, w);
    } else {
      NoBody(lib, p);
      AfterEnd(lib, p, w);
    }
  }

  lemma NoBody(lib: Library, p: State)
    requires ContentLength(lib, p) == None
    ensures StartBody(lib, p) == p
  {
  }

  lemma SameContentLength(lib: Library, p: State)
    ensures ContentLength(lib, p.(tooManyHeaders := false)) == ContentLength(lib, p)
  {
    hide StringAt, SameName;
    SameFind(p, "Content-Length", 0);
  }

  lemma {:induction false} SameFind(p: State, name: seq<char>, i: nat)
    ensures FindHeader(p.(tooManyHeaders := false), name, i) == FindHeader(p, name, i)
    decreases p.headersCount - i
  {
    hide StringAt, SameName;
    if i < p.headersCount && i < |p.headers| { SameFind(p, name, i + 1); }
  }

  /** Two names that differ only in case, and one that differs otherwise. */
  lemma NamesExample()
    ensures SameName("CONTENT-length", "Content-Length") && !SameName("Content_Length", "Content-Length")
    ensures !SameName("Content-Lengt", "Content-Length") && !SameName("Content-Length ", "Content-Length")
  {
    assert "Content_Length"[7] == '_' && "Content-Length"[7] == '-';
  }

  // ---------- a body of no length

  function PostNothing(): seq<char> {
    RequestText(Text3("POST", "/", "HTTP/1.1"), [Field("Content-Length", "0")])
  }

  /** A request whose body is announced with length 0 is not complete when its headers end. The next
      character completes it, and is lost. */
  lemma ZeroLengthWaits(lib: Library, r: State, c: char)
    requires Cleared(r) && lib.number("0") == Some(0)
    ensures Run(lib, r, PostNothing()).parsing == Body
    ensures var q := Run(lib, r, PostNothing() + [c]);
      q.parsing == Done && q.body == [] && q.bodyLength == 0 && !q.bodyTruncated
  {
    hide Run, RequestText, HeadIs, Cleared, CString, SameName;
    var t, f := Text3("POST", "/", "HTTP/1.1"), Field("Content-Length", "0");
    PlainField();
    assert PostNothing() + [] == PostNothing();
    RequestParses(lib, r, t, [f], 0, []);
    RequestParses(lib, r, t, [f], 0, [c]);
  }

  lemma PlainField()
    ensures CString("Content-Length") == "Content-Length" && CString("0") == "0"
    ensures SameName("Content-Length", "Content-Length")
    ensures FieldOk(Field("Content-Length", "0")) && Needed([Field("Content-Length", "0")]) == 16
  {
    hide CString;
    NoZeros("Content-Length");
    NoZeros("0");
    assert [Field("Content-Length", "0")][..0] == [];
  }

  lemma NoZeros(w: seq<char>)
    requires '\0' !in w
    ensures CString(w) == w
  {
    hide *;
    assert |CString(w)| == |w|;
  }
}
