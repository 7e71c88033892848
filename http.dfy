/** The HTTP framing of the tile client (LwHttp): the request line built into
    a reusable byte buffer, the keep-alive policy that decides when the socket
    is replaced, and the scan of the response header that finds the 4-byte
    content length in front of the tile. Sockets and streams are abstract: a
    connect or a write is an action that succeeds or fails, and a response is a
    sequence of chunks, one per `read` call. */
module Http {
  import opened Wire

  const BUFFER_SIZE: nat := 1024
  const RESPONSE_EXPECTED_LIVES: int := 100
  const RESPONSE_EXPECTED_TIMEOUT: int := 10000
  /** Used when the server URL names no port. */
  const DEFAULT_PORT: int := 80

  const ZERO: byte := 48     // '0'
  const SLASH: byte := 47    // '/'
  const NEWLINE: byte := 10  // '\n'

  /** The bytes of an ASCII string, as `String.getBytes` gives them. */
  function Ascii(s: string): seq<byte>
  {
    seq(|s|, i requires 0 <= i < |s| => (s[i] as int) % 0x100)
  }

  /** RESPONSE_HTTP_OK: the status line a successful response starts with. */
  const RESPONSE_HTTP_OK: seq<byte> := [72, 84, 84, 80, 47, 49, 46, 49, 32, 50, 48, 48, 32, 79, 75]
  const TILE_EXT: seq<byte> := [46, 118, 116, 109]  // ".vtm"

  predicate IsDigit(b: byte) {
    ZERO <= b < ZERO + 10
  }

  /** The decimal digits of `v`, most significant first. Only 0 starts with '0'. */
  function Decimal(v: nat): (r: seq<byte>)
    ensures 1 <= |r|
    ensures forall i :: 0 <= i < |r| ==> IsDigit(r[i])
    ensures r[0] == ZERO <==> v == 0
  {
    if v < 10 then [ZERO + v] else Decimal(v / 10) + [ZERO + v % 10]
  }

  /** The number a run of decimal digits denotes, read most significant first. */
  function DigitsValue(s: seq<byte>): int
  {
    if s == [] then 0 else DigitsValue(s[..|s| - 1]) * 10 + (s[|s| - 1] - ZERO)
  }

  /** Reading the digits back gives the number: Decimal loses nothing. */
  lemma {:induction false} DecimalRoundTrip(v: nat)
    ensures DigitsValue(Decimal(v)) == v
  {
    if v >= 10 {
      DecimalRoundTrip(v / 10);
      assert Decimal(v)[..|Decimal(v)| - 1] == Decimal(v / 10);
    }
  }

  /** What writeInt writes for `val`: its digits, or nothing at all when `val`
      is negative (the digit loop does not run). */
  function Written(val: int): seq<byte>
  {
    if val < 0 then [] else Decimal(val)
  }

  /** `s` read back to front. */
  function Reversed(s: seq<byte>): (r: seq<byte>)
    ensures |r| == |s|
  {
    seq(|s|, k requires 0 <= k < |s| => s[|s| - 1 - k])
  }

  lemma ReversedSnoc(s: seq<byte>, d: byte)
    ensures Reversed(s + [d]) == [d] + Reversed(s)
  {
  }

  /** writeInt: formats `val` into `buf` at `pos`, first least significant
      digit first and then reversing the digits in place; returns the index after
      the last digit. Nothing outside the written digits changes. */
  method WriteInt(val: int, pos: int, buf: array<byte>) returns (r: int)
    requires 0 <= pos <= buf.Length
    requires val >= 0 ==> pos + |Decimal(val)| <= buf.Length
    modifies buf
    ensures r == pos + |Written(val)|
    ensures buf[pos..r] == Written(val)
    ensures buf[..pos] == old(buf[..pos]) && buf[r..] == old(buf[r..])
    ensures buf[..r] == old(buf[..pos]) + Written(val)
  {
    if val == 0 {
      buf[pos] := ZERO;
      return pos + 1;
    }
    var i := WriteDigits(val, pos, buf);
    assert pos + i <= buf.Length;
    ghost var w := buf[pos..pos + i];
    ghost var b := buf[..];
    ReverseRange(buf, pos, pos + i);
    if val > 0 {
      assert buf[pos..pos + i] == Reversed(w);
      assert buf[..pos] == b[..pos] && buf[pos + i..] == b[pos + i..];
    }
    assert buf[..pos + i] == buf[..pos] + buf[pos..pos + i];
    return pos + i;
  }

  /** The digit loop of writeInt: the digits of a positive `val`, least
      significant first, from `pos` on; returns how many it wrote. */
  method WriteDigits(val: int, pos: int, buf: array<byte>) returns (i: int)
    requires 0 <= pos
    requires val >= 0 ==> pos + |Decimal(val)| <= buf.Length
    modifies buf
    ensures val <= 0 ==> i == 0 && buf[..] == old(buf[..])
    ensures val > 0 ==> i == |Decimal(val)| && Reversed(buf[pos..pos + i]) == Decimal(val)
    ensures val > 0 ==> buf[..pos] == old(buf[..pos]) && buf[pos + i..] == old(buf[pos + i..])
  {
    hide Decimal, Reversed;
    i := 0;
    var n := val;
    while n > 0
      invariant n <= 0 ==> n == val || n == 0
      invariant n < 0 || val == 0 ==> i == 0
      invariant 0 <= i && (val > 0 ==> pos + i <= buf.Length)
      invariant n > 0 ==> Decimal(val) == Decimal(n) + Reversed(buf[pos..pos + i])
      invariant n == 0 && val > 0 ==> Decimal(val) == Reversed(buf[pos..pos + i])
      invariant forall k :: 0 <= k < buf.Length && !(pos <= k < pos + i) ==> buf[k] == old(buf[k])
    {
      ghost var w := buf[pos..pos + i];
      var d: byte := ZERO + n % 10;
      assert pos + i < buf.Length by {
        assert |Decimal(val)| == |Decimal(n)| + i;
      }
      buf[pos + i] := d;
      assert buf[pos..pos + i + 1] == w + [d];
      ReversedSnoc(w, d);
      DecimalLast(n);
      n := n / 10;
      i := i + 1;
    }
    if val > 0 {
      assert buf[..pos] == old(buf[..pos]);
      assert buf[pos + i..] == old(buf[pos + i..]);
    } else {
      assert buf[..] == old(buf[..]);
    }
  }

  /** The last digit of a positive number, and the digits before it. */
  lemma DecimalLast(n: nat)
    requires n > 0
    ensures n < 10 ==> Decimal(n) == [ZERO + n % 10]
    ensures n >= 10 ==> Decimal(n) == Decimal(n / 10) + [ZERO + n % 10]
  {
  }

  /** The reversal loop of writeInt: swaps `buf[lo..hi)` end for end. */
  method ReverseRange(buf: array<byte>, lo: int, hi: int)
    requires 0 <= lo <= hi <= buf.Length
    modifies buf
    ensures buf[lo..hi] == Reversed(old(buf[lo..hi]))
    ensures buf[..lo] == old(buf[..lo]) && buf[hi..] == old(buf[hi..])
  {
    ghost var w := buf[lo..hi];
    var i := hi - lo;
    var j := lo;
    var end := lo + i - 1;
    var mid := lo + i / 2;
    while j < mid
      invariant lo <= j <= mid
      invariant end == hi - 1 - (j - lo)
      invariant forall k :: lo <= k < hi ==>
        buf[k] == (if k < j || k > end then w[hi - 1 - k] else w[k - lo])
      invariant forall k :: 0 <= k < buf.Length && !(lo <= k < hi) ==> buf[k] == old(buf[k])
    {
      var tmp := buf[j];
      buf[j] := buf[end];
      buf[end] := tmp;
      j := j + 1;
      end := end - 1;
    }
    assert buf[lo..hi] == Reversed(w);
    assert buf[..lo] == old(buf[..lo]);
    assert buf[hi..] == old(buf[hi..]);
  }

  /** compareBytes: whether `buffer[position..available)` holds at least
      `length` bytes and they start with `str[..length]`. */
  method CompareBytes(buffer: array<byte>, position: int, available: int, str: seq<byte>, length: nat)
    returns (r: bool)
    requires 0 <= position && length <= |str|
    requires available - position >= length ==> position + length <= buffer.Length
    ensures r <==> available - position >= length && buffer[position..position + length] == str[..length]
  {
    if available - position < length {
      return false;
    }
    for i := 0 to length
      invariant buffer[position..position + i] == str[..i]
    {
      if buffer[position + i] != str[i] {
        return false;
      }
    }
    return true;
  }

  /** The four bytes as one unsigned big-endian number. */
  function BigEndian(b0: byte, b1: byte, b2: byte, b3: byte): nat
  {
    ((b0 as int * 0x100 + b1) * 0x100 + b2) * 0x100 + b3
  }

  /** decodeInt: the four bytes at `offset` as a big-endian Java int. The first
      byte is sign-extended before its shift and the other three are masked to
      eight bits, so the four shifted fields do not overlap and `|` adds them. */
  function DecodeInt(buffer: seq<byte>, offset: nat): (r: int)
    requires offset + 4 <= |buffer|
    ensures IsInt32(r)
    ensures r == Int32(BigEndian(buffer[offset], buffer[offset + 1], buffer[offset + 2], buffer[offset + 3]))
    ensures r < 0 <==> buffer[offset] >= 0x80
  {
    var low := buffer[offset + 1] as int * 0x1_0000 + buffer[offset + 2] as int * 0x100 + buffer[offset + 3];
    assert 0 <= low < 0x100_0000;
    assert BigEndian(buffer[offset], buffer[offset + 1], buffer[offset + 2], buffer[offset + 3])
      == buffer[offset] as int * 0x100_0000 + low;
    Int8(buffer[offset]) * 0x100_0000 + low
  }

  /** decodeInt looks at its four bytes and no others. */
  lemma DecodeIntFrame(a: seq<byte>, b: seq<byte>, offset: nat)
    requires offset + 4 <= |a| && offset + 4 <= |b|
    requires forall k :: offset <= k < offset + 4 ==> a[k] == b[k]
    ensures DecodeInt(a, offset) == DecodeInt(b, offset)
  {
  }

  /** The four big-endian bytes a server sends for the int `v`. */
  function IntBytes(v: int): (r: seq<byte>)
    ensures |r| == 4
  {
    var u := Unsigned32(v);
    var x1 := u / 0x100;
    var x2 := x1 / 0x100;
    [x2 / 0x100, x2 % 0x100, x1 % 0x100, u % 0x100]
  }

  /** decodeInt reads back every int a server can send. */
  lemma DecodeIntRoundTrip(v: int, rest: seq<byte>)
    requires IsInt32(v)
    ensures DecodeInt(IntBytes(v) + rest, 0) == v
  {
    var u := Unsigned32(v);
    var x1 := u / 0x100;
    var x2 := x1 / 0x100;
    var s := IntBytes(v) + rest;
    assert BigEndian(s[0], s[1], s[2], s[3]) == u by {
      assert u == x1 * 0x100 + s[3];
      assert x1 == x2 * 0x100 + s[2];
      assert x2 == s[0] as int * 0x100 + s[1];
    }
    assert Int32(u) == v by {
      assert u == if v >= 0 then v else v + TWO32;
    }
  }

  /** The buffer after a read put `bytes` at `at`. */
  function Store(b: seq<byte>, at: nat, bytes: seq<byte>): (r: seq<byte>)
    requires at + |bytes| <= |b|
    ensures |r| == |b|
  {
    b[..at] + bytes + b[at + |bytes|..]
  }

  lemma StoreHolds(b: seq<byte>, at: nat, bytes: seq<byte>)
    requires at + |bytes| <= |b|
    ensures forall k :: 0 <= k < |bytes| ==> Store(b, at, bytes)[at + k] == bytes[k]
    ensures forall k :: 0 <= k < |b| && !(at <= k < at + |bytes|) ==> Store(b, at, bytes)[k] == b[k]
  {
  }

  /** System.arraycopy of `bytes` into `buf` at `at`, and equally a read
      that delivers `bytes` there. */
  method Fill(buf: array<byte>, at: nat, bytes: seq<byte>)
    requires at + |bytes| <= buf.Length
    modifies buf
    ensures buf[..] == Store(old(buf[..]), at, bytes)
  {
    forall k | 0 <= k < |bytes| {
      buf[at + k] := bytes[k];
    }
    assert buf[..] == Store(old(buf[..]), at, bytes);
  }

  // ---------------------------------------------------------------- requests

  /** The tile part of a request, zoom/x/y, as sendRequest writes it with
      writeInt; x and y are cast to int first. */
  function TilePath(zoom: int, x: int, y: int): seq<byte>
  {
    Written(zoom) + [SLASH] + Written(Int32(x)) + [SLASH] + Written(Int32(y))
  }

  /** REQUEST_GET_START: "GET " and the server's path. */
  function RequestStart(path: seq<byte>): seq<byte>
  {
    Ascii("GET ") + path
  }

  /** REQUEST_GET_END: the tile extension, the protocol, the Host header and the
      keep-alive header, closed by an empty line. */
  function RequestEnd(host: seq<byte>): seq<byte>
  {
    TILE_EXT + Ascii(" HTTP/1.1\n") + Ascii("Host: ") + host + Ascii("\n")
      + Ascii("Connection: Keep-Alive\n\n")
  }

  /** The bytes sendRequest hands to the socket for one tile. */
  function Request(start: seq<byte>, end: seq<byte>, zoom: int, x: int, y: int): seq<byte>
  {
    start + TilePath(zoom, x, y) + end
  }

  predicate AllDigits(d: seq<byte>) {
    forall i :: 0 <= i < |d| ==> IsDigit(d[i])
  }

  /** In a run of digits followed by '/', the first '/' is the one after the run. */
  lemma SlashAfterDigits(d: seq<byte>, r: seq<byte>)
    requires AllDigits(d)
    ensures (d + [SLASH] + r)[|d|] == SLASH
    ensures forall i :: 0 <= i < |d| ==> (d + [SLASH] + r)[i] != SLASH
  {
  }

  /** A '/' after a run of digits marks where the run ends. */
  lemma SplitAtSlash(d: seq<byte>, r: seq<byte>, d': seq<byte>, r': seq<byte>)
    requires AllDigits(d) && AllDigits(d')
    requires d + [SLASH] + r == d' + [SLASH] + r'
    ensures d == d' && r == r'
  {
    var s := d + [SLASH] + r;
    SlashAfterDigits(d, r);
    SlashAfterDigits(d', r');
    assert |d| == |d'|;
    assert d == s[..|d|] == d';
    assert r == s[|d| + 1..] == r';
  }

  lemma DecimalInjective(a: nat, b: nat)
    requires Decimal(a) == Decimal(b)
    ensures a == b
  {
    DecimalRoundTrip(a);
    DecimalRoundTrip(b);
  }

  /** For tile coordinates that fit an int, the path is the three numbers in
      decimal, separated by '/'. */
  lemma TilePathDigits(z: nat, x: nat, y: nat)
    requires IsInt32(x) && IsInt32(y)
    ensures TilePath(z, x, y) == Decimal(z) + [SLASH] + (Decimal(x) + [SLASH] + Decimal(y))
  {
    hide Decimal;
    assert Written(z) == Decimal(z) && Written(Int32(x)) == Decimal(x) && Written(Int32(y)) == Decimal(y);
  }

  /** Distinct tiles have distinct paths. */
  lemma TilePathNamesTile(z: nat, x: nat, y: nat, z': nat, x': nat, y': nat)
    requires IsInt32(x) && IsInt32(y) && IsInt32(x') && IsInt32(y')
    requires TilePath(z, x, y) == TilePath(z', x', y')
    ensures z == z' && x == x' && y == y'
  {
    hide Decimal, Written, TilePath;
    TilePathDigits(z, x, y);
    TilePathDigits(z', x', y');
    SplitAtSlash(Decimal(z), Decimal(x) + [SLASH] + Decimal(y), Decimal(z'), Decimal(x') + [SLASH] + Decimal(y'));
    SplitAtSlash(Decimal(x), Decimal(y), Decimal(x'), Decimal(y'));
    DecimalInjective(z, z');
    DecimalInjective(x, x');
    DecimalInjective(y, y');
  }

  /** Tiles with distinct coordinates get distinct requests: the request names
      the tile it asks for. */
  lemma RequestNamesTile(start: seq<byte>, end: seq<byte>, z: nat, x: nat, y: nat, z': nat, x': nat, y': nat)
    requires IsInt32(x) && IsInt32(y) && IsInt32(x') && IsInt32(y')
    requires Request(start, end, z, x, y) == Request(start, end, z', x', y')
    ensures z == z' && x == x' && y == y'
  {
    var p := TilePath(z, x, y);
    var p' := TilePath(z', x', y');
    var q := Request(start, end, z, x, y);
    assert |p| == |p'|;
    assert p == q[|start|..|start| + |p|] == p';
    TilePathNamesTile(z, x, y, z', x', y');
  }

  // ------------------------------------------------------ keep-alive policy

  /** What sendRequest knows of its connection: whether mSocket is set, the
      remaining request budget mMaxReq, and mLastRequest, the clock value the
      caller recorded at its last request. */
  datatype Link = Link(open: bool, maxReq: int, lastRequest: int)

  /** The reuse check at the start of sendRequest. An open socket is closed
      when its budget was used up before this request (mMaxReq is decremented
      after the test) or more than RESPONSE_EXPECTED_TIMEOUT ms went by since the
      last request; the clock is consulted only while budget remains. */
  function Check(l: Link, now: int): (r: Link)
    ensures r.open <==> l.open && l.maxReq > 0 && now - l.lastRequest <= RESPONSE_EXPECTED_TIMEOUT
    ensures r.maxReq == if l.open then Int32(l.maxReq - 1) else l.maxReq
    ensures r.lastRequest == l.lastRequest
  {
    if !l.open then l
    else if l.maxReq <= 0 then Link(false, Int32(l.maxReq - 1), l.lastRequest)
    else if now - l.lastRequest > RESPONSE_EXPECTED_TIMEOUT then Link(false, Int32(l.maxReq - 1), l.lastRequest)
    else Link(true, Int32(l.maxReq - 1), l.lastRequest)
  }

  /** The outcomes of the socket actions sendRequest may take, in order: the
      connect of a new socket, the write of the request, and after a failed
      write the reconnect and the second write. */
  datatype Net = Net(connect: bool, write: bool, reconnect: bool, rewrite: bool)

  /** The link after one sendRequest, how many connects it made, and whether
      it returned true (otherwise an IOException left it). */
  datatype Round = Round(link: Link, connects: nat, delivered: bool)

  /** One sendRequest: the reuse check; a connect when no socket is left,
      after which the budget is RESPONSE_EXPECTED_LIVES; the write; and when the
      write fails, exactly one reconnect (which leaves the budget alone) and one
      more write. lwHttpConnect sets mSocket before it connects, so the link is
      open afterwards even when a connect failed. */
  function SendPolicy(l: Link, now: int, net: Net): (r: Round)
    ensures r.link.open && r.link.lastRequest == l.lastRequest
    ensures var c := Check(l, now);
      && r.connects == (if c.open then 0 else 1) + (if (c.open || net.connect) && !net.write then 1 else 0)
      && r.link.maxReq == (if !c.open && net.connect then RESPONSE_EXPECTED_LIVES else c.maxReq)
      && (r.delivered <==> (c.open || net.connect) && (net.write || (net.reconnect && net.rewrite)))
  {
    var c := Check(l, now);
    if !c.open && !net.connect then Round(Link(true, c.maxReq, c.lastRequest), 1, false)
    else
      var connects: nat := if c.open then 0 else 1;
      var link := Link(true, if c.open then c.maxReq else RESPONSE_EXPECTED_LIVES, c.lastRequest);
      if net.write then Round(link, connects, true)
      else Round(link, connects + 1, net.reconnect && net.rewrite)
  }

  const AllSucceed: Net := Net(true, true, true, true)

  /** The link after `n` requests at clock `now` whose socket actions all succeed. */
  function Rounds(l: Link, n: nat, now: int): Link
    decreases n
  {
    if n == 0 then l else Rounds(SendPolicy(l, now, AllSucceed).link, n - 1, now)
  }

  /** The connects those `n` requests make. */
  function RoundConnects(l: Link, n: nat, now: int): nat
    decreases n
  {
    if n == 0 then 0
    else SendPolicy(l, now, AllSucceed).connects + RoundConnects(SendPolicy(l, now, AllSucceed).link, n - 1, now)
  }

  /** A socket with budget m serves m more requests that come within the
      timeout; the next one connects anew and starts a fresh budget. With the
      budget of a new connection, a socket carries 1 + RESPONSE_EXPECTED_LIVES
      requests in all. */
  lemma {:induction false} KeepAliveCycle(m: nat, t: int, now: int)
    requires m <= RESPONSE_EXPECTED_LIVES && now - t <= RESPONSE_EXPECTED_TIMEOUT
    ensures Rounds(Link(true, m, t), m + 1, now) == Link(true, RESPONSE_EXPECTED_LIVES, t)
    ensures RoundConnects(Link(true, m, t), m + 1, now) == 1
  {
    if m > 0 {
      assert SendPolicy(Link(true, m, t), now, AllSucceed) == Round(Link(true, m - 1, t), 0, true);
      KeepAliveCycle(m - 1, t, now);
    } else {
      assert SendPolicy(Link(true, 0, t), now, AllSucceed) == Round(Link(true, RESPONSE_EXPECTED_LIVES, t), 1, true);
    }
  }

  /** A socket idle for longer than the timeout is replaced, whatever its budget. */
  lemma IdleSocketReplaced(l: Link, now: int)
    requires l.open && now - l.lastRequest > RESPONSE_EXPECTED_TIMEOUT
    ensures SendPolicy(l, now, AllSucceed).connects == 1
    ensures SendPolicy(l, now, AllSucceed).link.maxReq == RESPONSE_EXPECTED_LIVES
  {
  }

  // ---------------------------------------------------- the response header

  /** One chunk a `read` call delivers. Never empty: a read blocks until at
      least one byte arrives or the stream ends. */
  type Chunk = c: seq<byte> | |c| > 0 witness [0]

  function Concat(chunks: seq<Chunk>): seq<byte>
  {
    if chunks == [] then [] else chunks[0] + Concat(chunks[1..])
  }

  /** What a read returns: the end of the stream (-1), or some bytes and the
      chunks still to come. */
  datatype Delivery = Eof | Got(bytes: seq<byte>, rest: seq<Chunk>)

  /** `is.read(buf, off, room)` on a response whose undelivered part is
      `rest`: the next chunk cut to `room` bytes (its remainder stays in the
      stream), nothing when `room` is 0, and -1 at the end of the stream. */
  function Read(rest: seq<Chunk>, room: nat): (r: Delivery)
    ensures r.Eof? <==> room > 0 && rest == []
    ensures r.Eof? ==> Concat(rest) == []
    ensures r.Got? ==> |r.bytes| <= room && r.bytes + Concat(r.rest) == Concat(rest)
    ensures r.Got? && room > 0 ==> |r.bytes| > 0
  {
    if room == 0 then Got([], rest)
    else if rest == [] then Eof
    else if |rest[0]| <= room then Got(rest[0], rest[1..])
    else
      assert Concat([rest[0][room..]] + rest[1..]) == rest[0][room..] + Concat(rest[1..]);
      Got(rest[0][..room], [rest[0][room..]] + rest[1..])
  }

  /** The scan `while (end < read && buf[end] != '\n') end++`: the first
      newline in `b[from..upto)`, or `upto` when there is none (`from` when it is
      already past `upto`). */
  function Newline(b: seq<byte>, from: nat, upto: nat): (e: nat)
    requires upto <= |b|
    ensures from <= e && (from <= upto ==> e <= upto)
    ensures e < upto ==> b[e] == NEWLINE
    ensures forall k :: from <= k < e && k < upto ==> b[k] != NEWLINE
    decreases upto - from
  {
    if from >= upto || b[from] == NEWLINE then from else Newline(b, from + 1, upto)
  }

  /** How readHeader ends. NotOk: it returns null. Content: it sets
      contentLength and returns the stream positioned `skip` bytes after the
      start of the response, where the tile begins. Hang: its loop repeats the
      same state forever. Thrown: an index leaves the buffer
      (ArrayIndexOutOfBoundsException). */
  datatype Header = NotOk | Content(length: int, skip: nat) | Hang | Thrown

  /** A result of readHeader together with the buffer it leaves behind. */
  datatype Scanned = Scanned(header: Header, buf: seq<byte>)

  /** The positions of readHeader's loop: `read` bytes are in the buffer, the
      current line starts at `pos`, and `b[pos..end)` holds no newline. A stale
      newline just past `read` can leave `pos` and `end` one beyond it. */
  predicate LoopState(read: nat, pos: nat, end: nat) {
    read <= BUFFER_SIZE && pos <= end && pos <= read + 1 && (end > read ==> end == pos)
  }

  /** Where one pass of readHeader's for loop leaves it: finished, in the loop
      again, or past the loop and waiting for the length bytes. */
  datatype Pass =
    | Halt(scanned: Scanned)
    | Again(b: seq<byte>, read: nat, pos: nat, end: nat, first: bool, rest: seq<Chunk>)
    | Wait(b: seq<byte>, read: nat, end: nat, len: int, rest: seq<Chunk>)

  /** One pass of readHeader's for loop, as Java runs it. A read is made only
      when `pos >= read`; the scan tests `buf[end]` even when `end` reached
      `read`, so it can see a byte left from an earlier response; and when the
      buffered bytes end inside a line, `pos < read` stays true, nothing is read
      again and the loop repeats the same pass forever. */
  function HeaderPass(b: seq<byte>, read: nat, pos: nat, end: nat, first: bool, rest: seq<Chunk>): (p: Pass)
    requires |b| == BUFFER_SIZE && LoopState(read, pos, end)
    ensures p.Again? ==> |p.b| == BUFFER_SIZE && LoopState(p.read, p.pos, p.end)
    ensures p.Again? ==> |Concat(p.rest)| < |Concat(rest)| || (p.rest == rest && p.read == read && p.pos > pos)
    ensures p.Wait? ==> |p.b| == BUFFER_SIZE && p.read <= BUFFER_SIZE
    ensures p.Halt? ==> !p.scanned.header.Content?
  {
    var got := if pos < read then Got([], rest) else Read(rest, BUFFER_SIZE - read);
    if got.Eof? then Wait(b, read, end, -1, rest)
    else
      var b1 := Store(b, read, got.bytes);
      var read1 := read + |got.bytes|;
      var e := Newline(b1, end, read1);
      if e >= BUFFER_SIZE then Halt(Scanned(Thrown, b1))
      else if b1[e] != NEWLINE then
        if pos < read then Halt(Scanned(Hang, b1))
        else Again(b1, read1, pos, e, first, got.rest)
      else if first && !(e - pos >= 15 && b1[pos..pos + 15] == RESPONSE_HTTP_OK) then Halt(Scanned(NotOk, b1))
      else if !first && e - pos == 1 then Wait(b1, read1, e + 1, |got.bytes|, got.rest)
      else Again(b1, read1, e + 1, e + 1, false, got.rest)
  }

  /** The branches of one pass, read off with the buffer as a value. */
  lemma PassCases(b: seq<byte>, read: nat, pos: nat, end: nat, first: bool, rest: seq<Chunk>)
    requires |b| == BUFFER_SIZE && LoopState(read, pos, end)
    ensures var got := if pos < read then Got([], rest) else Read(rest, BUFFER_SIZE - read);
      var p := HeaderPass(b, read, pos, end, first, rest);
      && (got.Eof? ==> p == Wait(b, read, end, -1, rest))
      && (got.Got? ==>
            var b1 := Store(b, read, got.bytes);
            var read1 := read + |got.bytes|;
            var e := Newline(b1, end, read1);
            && (e >= BUFFER_SIZE ==> p == Halt(Scanned(Thrown, b1)))
            && (e < BUFFER_SIZE && b1[e] != NEWLINE ==>
                  p == if pos < read then Halt(Scanned(Hang, b1)) else Again(b1, read1, pos, e, first, got.rest))
            && (e < BUFFER_SIZE && b1[e] == NEWLINE && first ==>
                  p == if e - pos >= 15 && b1[pos..pos + 15] == RESPONSE_HTTP_OK
                       then Again(b1, read1, e + 1, e + 1, false, got.rest) else Halt(Scanned(NotOk, b1)))
            && (e < BUFFER_SIZE && b1[e] == NEWLINE && !first ==>
                  p == if e - pos == 1 then Wait(b1, read1, e + 1, |got.bytes|, got.rest)
                       else Again(b1, read1, e + 1, e + 1, false, got.rest)))
  {
    hide Read, Newline, Concat, Store;
  }

  /** readHeader's for loop from one pass on. */
  function HeaderLoop(b: seq<byte>, read: nat, pos: nat, end: nat, first: bool, rest: seq<Chunk>): Scanned
    requires |b| == BUFFER_SIZE && LoopState(read, pos, end)
    decreases |Concat(rest)|, read + 1 - pos
  {
    match HeaderPass(b, read, pos, end, first, rest)
    case Halt(s) => s
    case Again(b', read', pos', end', first', rest') => HeaderLoop(b', read', pos', end', first', rest')
    case Wait(b', read', end', len, rest') => HeaderTail(b', read', end', len, rest')
  }

  /** The wait for the four length bytes and the check after it, as Java runs
      them: the check compares `read - len`, not `read - end`, so it passes
      whenever the header was long enough, and decodeInt may read bytes that
      never arrived. With a full buffer, read returns 0 and the wait never ends. */
  function HeaderTail(b: seq<byte>, read: nat, end: nat, len: int, rest: seq<Chunk>): Scanned
    requires |b| == BUFFER_SIZE && read <= BUFFER_SIZE
    decreases |Concat(rest)|
  {
    if read - end < 4 then
      if read == BUFFER_SIZE then Scanned(Hang, b)
      else match Read(rest, BUFFER_SIZE - read)
        case Eof => Finish(b, read, end, -1)
        case Got(c, rest') => HeaderTail(Store(b, read, c), read + |c|, end, |c|, rest')
    else Finish(b, read, end, len)
  }

  function Finish(b: seq<byte>, read: nat, end: nat, len: int): Scanned
    requires |b| == BUFFER_SIZE
  {
    if read - len < 4 then Scanned(NotOk, b)
    else if end + 4 > BUFFER_SIZE then Scanned(Thrown, b)
    else Scanned(Content(DecodeInt(b, end), end + 4), b)
  }

  /** readHeader on a buffer holding `b` and a response arriving as `response`. */
  function HeaderScan(b: seq<byte>, response: seq<Chunk>): Scanned
    requires |b| == BUFFER_SIZE
  {
    HeaderLoop(b, 0, 0, 0, true, response)
  }

  /** The header as the response defines it, read from the bytes `w` that a
      buffer of BUFFER_SIZE can hold: the first line begins with
      "HTTP/1.1 200 OK", the header ends after the first later line of a single
      byte (the "\r" of an empty line), and the content length is the big-endian
      int in the four bytes after it. */
  function ParseHeader(w: seq<byte>): Header
  {
    Lines(w, 0, true)
  }

  function Lines(w: seq<byte>, pos: nat, first: bool): Header
    requires pos <= |w|
    decreases |w| - pos
  {
    var e := Newline(w, pos, |w|);
    if e == |w| then NotOk
    else if first then
      if e - pos >= 15 && w[pos..pos + 15] == RESPONSE_HTTP_OK then Lines(w, e + 1, false) else NotOk
    else if e - pos == 1 then
      if |w| - (e + 1) >= 4 then Content(DecodeInt(w, e + 1), e + 5) else NotOk
    else Lines(w, e + 1, false)
  }

  /** The part of a response a buffer of BUFFER_SIZE bytes can hold. */
  function Window(d: seq<byte>): (w: seq<byte>)
    ensures |w| <= BUFFER_SIZE && |w| <= |d| && w == d[..|w|]
    ensures |w| == BUFFER_SIZE || w == d
  {
    if |d| <= BUFFER_SIZE then d else d[..BUFFER_SIZE]
  }

  /** The scan readHeader evidently intends: it reads more whenever no complete
      line is buffered, looks only at bytes that arrived, and answers null
      unless the empty line and the four length bytes arrived. */
  function FixedLoop(b: seq<byte>, read: nat, pos: nat, end: nat, first: bool, rest: seq<Chunk>): Header
    requires |b| == BUFFER_SIZE && pos <= end <= read <= BUFFER_SIZE
    decreases |Concat(rest)|, read - end
  {
    if end < read then
      if b[end] != NEWLINE then FixedLoop(b, read, pos, end + 1, first, rest)
      else if first then
        if end - pos >= 15 && b[pos..pos + 15] == RESPONSE_HTTP_OK then FixedLoop(b, read, end + 1, end + 1, false, rest)
        else NotOk
      else if end - pos == 1 then FixedTail(b, read, end + 1, rest)
      else FixedLoop(b, read, end + 1, end + 1, false, rest)
    else if read == BUFFER_SIZE then NotOk
    else match Read(rest, BUFFER_SIZE - read)
      case Eof => NotOk
      case Got(c, rest') => FixedLoop(Store(b, read, c), read + |c|, pos, end, first, rest')
  }

  function FixedTail(b: seq<byte>, read: nat, start: nat, rest: seq<Chunk>): Header
    requires |b| == BUFFER_SIZE && start <= read <= BUFFER_SIZE
    decreases |Concat(rest)|
  {
    if read - start >= 4 then Content(DecodeInt(b, start), start + 4)
    else if read == BUFFER_SIZE then NotOk
    else match Read(rest, BUFFER_SIZE - read)
      case Eof => NotOk
      case Got(c, rest') => FixedTail(Store(b, read, c), read + |c|, start, rest')
  }

  function FixedScan(b: seq<byte>, response: seq<Chunk>): Header
    requires |b| == BUFFER_SIZE
  {
    FixedLoop(b, 0, 0, 0, true, response)
  }

  // --------------------------------------------- what the header scans do

  lemma {:induction false} NewlineAt(w: seq<byte>, from: nat, e: nat, upto: nat)
    requires from <= e < upto <= |w| && w[e] == NEWLINE
    requires forall k :: from <= k < e ==> w[k] != NEWLINE
    ensures Newline(w, from, upto) == e
    decreases e - from
  {
    if from < e {
      NewlineAt(w, from + 1, e, upto);
    }
  }

  lemma {:induction false} NewlineNone(w: seq<byte>, from: nat, upto: nat)
    requires from <= upto <= |w|
    requires forall k :: from <= k < upto ==> w[k] != NEWLINE
    ensures Newline(w, from, upto) == upto
    decreases upto - from
  {
    if from < upto {
      NewlineNone(w, from + 1, upto);
    }
  }

  /** The intended tail: the content length when its four bytes are among the
      bytes the buffer can hold, null otherwise. */
  lemma {:induction false} FixedTailMeaning(b: seq<byte>, read: nat, start: nat, rest: seq<Chunk>)
    requires |b| == BUFFER_SIZE && start <= read <= BUFFER_SIZE
    ensures var w := Window(b[..read] + Concat(rest));
      FixedTail(b, read, start, rest) == if |w| - start >= 4 then Content(DecodeInt(w, start), start + 4) else NotOk
    decreases |Concat(rest)|
  {
    hide DecodeInt;
    var d := b[..read] + Concat(rest);
    var w := Window(d);
    if read - start >= 4 {
      assert DecodeInt(w, start) == DecodeInt(b, start) by {
        assert forall k :: 0 <= k < read ==> w[k] == b[k];
        DecodeIntFrame(w, b, start);
      }
    } else if read < BUFFER_SIZE {
      hide Window;
      match Read(rest, BUFFER_SIZE - read)
      case Eof =>
        assert w == b[..read] by {
          assert d == b[..read];
        }
      case Got(c, rest') =>
        var b' := Store(b, read, c);
        assert b'[..read + |c|] + Concat(rest') == d;
        FixedTailMeaning(b', read + |c|, start, rest');
    }
  }

  /** The intended loop reads the header lines of the bytes the buffer can
      hold, however the response was cut into chunks. */
  lemma {:induction false} FixedLoopMeaning(b: seq<byte>, read: nat, pos: nat, end: nat, first: bool, rest: seq<Chunk>)
    requires |b| == BUFFER_SIZE && pos <= end <= read <= BUFFER_SIZE
    requires forall k :: pos <= k < end ==> b[k] != NEWLINE
    ensures var w := Window(b[..read] + Concat(rest));
      pos <= |w| && FixedLoop(b, read, pos, end, first, rest) == Lines(w, pos, first)
    decreases |Concat(rest)|, read - end, 2
  {
    if end < read && b[end] != NEWLINE {
      hide Lines, Window;
      FixedLoopMeaning(b, read, pos, end + 1, first, rest);
    } else if end < read {
      FixedLineMeaning(b, read, pos, end, first, rest);
    } else {
      FixedMoreMeaning(b, read, pos, end, first, rest);
    }
  }

  /** The step of the intended loop at the end of a line. */
  lemma {:induction false} FixedLineMeaning(b: seq<byte>, read: nat, pos: nat, end: nat, first: bool, rest: seq<Chunk>)
    requires |b| == BUFFER_SIZE && pos <= end < read <= BUFFER_SIZE && b[end] == NEWLINE
    requires forall k :: pos <= k < end ==> b[k] != NEWLINE
    ensures var w := Window(b[..read] + Concat(rest));
      pos <= |w| && FixedLoop(b, read, pos, end, first, rest) == Lines(w, pos, first)
    decreases |Concat(rest)|, read - end, 1
  {
    if first {
      FixedStatusLineMeaning(b, read, pos, end, rest);
    } else {
      FixedHeaderLineMeaning(b, read, pos, end, rest);
    }
  }

  /** The end of the status line: it must start with "HTTP/1.1 200 OK". */
  lemma {:induction false} FixedStatusLineMeaning(b: seq<byte>, read: nat, pos: nat, end: nat, rest: seq<Chunk>)
    requires |b| == BUFFER_SIZE && pos <= end < read <= BUFFER_SIZE && b[end] == NEWLINE
    requires forall k :: pos <= k < end ==> b[k] != NEWLINE
    ensures var w := Window(b[..read] + Concat(rest));
      pos <= |w| && FixedLoop(b, read, pos, end, true, rest) == Lines(w, pos, true)
    decreases |Concat(rest)|, read - end, 0
  {
    hide FixedTail, Newline, DecodeInt, Read, Window;
    var w := Window(b[..read] + Concat(rest));
    assert forall k :: 0 <= k < read ==> w[k] == b[k];
    NewlineAt(w, pos, end, |w|);
    if end - pos >= 15 {
      assert w[pos..pos + 15] == b[pos..pos + 15];
    }
    FixedLoopMeaning(b, read, end + 1, end + 1, false, rest);
  }

  /** The end of a header line: the empty line leads to the length bytes. */
  lemma {:induction false} FixedHeaderLineMeaning(b: seq<byte>, read: nat, pos: nat, end: nat, rest: seq<Chunk>)
    requires |b| == BUFFER_SIZE && pos <= end < read <= BUFFER_SIZE && b[end] == NEWLINE
    requires forall k :: pos <= k < end ==> b[k] != NEWLINE
    ensures var w := Window(b[..read] + Concat(rest));
      pos <= |w| && FixedLoop(b, read, pos, end, false, rest) == Lines(w, pos, false)
    decreases |Concat(rest)|, read - end, 0
  {
    hide FixedTail, Newline, DecodeInt, Read, Window;
    var w := Window(b[..read] + Concat(rest));
    assert forall k :: 0 <= k < read ==> w[k] == b[k];
    NewlineAt(w, pos, end, |w|);
    if end - pos != 1 {
      FixedLoopMeaning(b, read, end + 1, end + 1, false, rest);
    } else {
      FixedTailMeaning(b, read, end + 1, rest);
    }
  }

  /** The step of the intended loop that needs more bytes. */
  lemma {:induction false} FixedMoreMeaning(b: seq<byte>, read: nat, pos: nat, end: nat, first: bool, rest: seq<Chunk>)
    requires |b| == BUFFER_SIZE && pos <= end == read <= BUFFER_SIZE
    requires forall k :: pos <= k < end ==> b[k] != NEWLINE
    ensures var w := Window(b[..read] + Concat(rest));
      pos <= |w| && FixedLoop(b, read, pos, end, first, rest) == Lines(w, pos, first)
    decreases |Concat(rest)|, read - end, 1
  {
    if read == BUFFER_SIZE || rest == [] {
      FixedEndMeaning(b, read, pos, first, rest);
    } else {
      FixedReadMeaning(b, read, pos, first, rest);
    }
  }

  /** No more bytes can arrive inside an unfinished line: no header. */
  lemma {:induction false} FixedEndMeaning(b: seq<byte>, read: nat, pos: nat, first: bool, rest: seq<Chunk>)
    requires |b| == BUFFER_SIZE && pos <= read <= BUFFER_SIZE && (read == BUFFER_SIZE || rest == [])
    requires forall k :: pos <= k < read ==> b[k] != NEWLINE
    ensures var w := Window(b[..read] + Concat(rest));
      pos <= |w| && FixedLoop(b, read, pos, read, first, rest) == Lines(w, pos, first) == NotOk
  {
    hide FixedTail, Newline, DecodeInt;
    var w := Window(b[..read] + Concat(rest));
    assert forall k :: 0 <= k < read ==> w[k] == b[k];
    NewlineNone(w, pos, |w|);
  }

  /** The next chunk arrives and the scan goes on over the longer buffer. */
  lemma {:induction false} FixedReadMeaning(b: seq<byte>, read: nat, pos: nat, first: bool, rest: seq<Chunk>)
    requires |b| == BUFFER_SIZE && pos <= read < BUFFER_SIZE && rest != []
    requires forall k :: pos <= k < read ==> b[k] != NEWLINE
    ensures var w := Window(b[..read] + Concat(rest));
      pos <= |w| && FixedLoop(b, read, pos, read, first, rest) == Lines(w, pos, first)
    decreases |Concat(rest)|, 0, 0
  {
    hide FixedTail, Newline, DecodeInt, Lines, Window;
    var d := b[..read] + Concat(rest);
    var got := Read(rest, BUFFER_SIZE - read);
    var b' := Store(b, read, got.bytes);
    assert b'[..read + |got.bytes|] + Concat(got.rest) == d;
    FixedLoopMeaning(b', read + |got.bytes|, pos, read, first, got.rest);
  }

  /** The intended readHeader answers from the response alone: how it was cut
      into chunks and what the buffer held before do not matter. */
  lemma FixedScanMeaning(b: seq<byte>, response: seq<Chunk>)
    requires |b| == BUFFER_SIZE
    ensures FixedScan(b, response) == ParseHeader(Window(Concat(response)))
  {
    FixedLoopMeaning(b, 0, 0, 0, true, response);
    assert b[..0] + Concat(response) == Concat(response);
  }

  /** The first pass of Java's loop when the first chunk holds the status line. */
  lemma HeaderFirstRead(b: seq<byte>, c: Chunk, rest: seq<Chunk>, e: nat)
    requires |b| == BUFFER_SIZE && |c| <= BUFFER_SIZE
    requires 15 <= e < |c| && c[e] == NEWLINE && c[..15] == RESPONSE_HTTP_OK
    requires forall k :: 0 <= k < e ==> c[k] != NEWLINE
    ensures HeaderPass(b, 0, 0, 0, true, [c] + rest) == Again(Store(b, 0, c), |c|, e + 1, e + 1, false, rest)
  {
    FirstLineStored(b, c, e);
    ReadWhole(c, rest);
    hide Newline, Concat, Store, Read;
  }

  /** The status line stored at the start of the buffer is found there. */
  lemma FirstLineStored(b: seq<byte>, c: Chunk, e: nat)
    requires |b| == BUFFER_SIZE && |c| <= BUFFER_SIZE
    requires 15 <= e < |c| && c[e] == NEWLINE && c[..15] == RESPONSE_HTTP_OK
    requires forall k :: 0 <= k < e ==> c[k] != NEWLINE
    ensures var b1 := Store(b, 0, c);
      Newline(b1, 0, |c|) == e && b1[e] == NEWLINE && b1[0..15] == RESPONSE_HTTP_OK
  {
    var b1 := Store(b, 0, c);
    assert b1[..|c|] == c;
    hide Newline, Store;
    forall k | 0 <= k < |c|
      ensures b1[k] == c[k]
    {
      assert b1[k] == b1[..|c|][k];
    }
    NewlineAt(b1, 0, e, |c|);
    assert b1[0..15] == c[..15];
  }

  /** A first chunk that fits is delivered whole. */
  lemma ReadWhole(c: Chunk, rest: seq<Chunk>)
    requires |c| <= BUFFER_SIZE
    ensures Read([c] + rest, BUFFER_SIZE) == Got(c, rest)
  {
    assert ([c] + rest)[1..] == rest;
  }

  /** A pass of Java's loop that finds the next line among the buffered bytes. */
  lemma HeaderNextLine(b: seq<byte>, read: nat, pos: nat, e: nat, rest: seq<Chunk>)
    requires |b| == BUFFER_SIZE && pos <= e < read <= BUFFER_SIZE && b[e] == NEWLINE
    requires forall k :: pos <= k < e ==> b[k] != NEWLINE
    ensures HeaderPass(b, read, pos, pos, false, rest)
      == if e - pos == 1 then Wait(b, read, e + 1, 0, rest) else Again(b, read, e + 1, e + 1, false, rest)
  {
    hide Newline, Read, Concat;
    assert Store(b, read, []) == b;
    NewlineAt(b, pos, e, read);
  }

  /** A pass of Java's loop whose buffered bytes end inside a line. */
  lemma HeaderStall(b: seq<byte>, read: nat, pos: nat, first: bool, rest: seq<Chunk>)
    requires |b| == BUFFER_SIZE && pos < read < BUFFER_SIZE && b[read] != NEWLINE
    requires forall k :: pos <= k < read ==> b[k] != NEWLINE
    ensures HeaderPass(b, read, pos, pos, first, rest) == Halt(Scanned(Hang, b))
  {
    hide Newline, Read, Concat;
    assert Store(b, read, []) == b;
    NewlineNone(b, pos, read);
  }

  /** A response that has ended leaves the wait for the length bytes at once. */
  lemma HeaderTailEof(b: seq<byte>, read: nat, end: nat, len: int)
    requires |b| == BUFFER_SIZE && read < BUFFER_SIZE && read - end < 4
    ensures HeaderTail(b, read, end, len, []) == Finish(b, read, end, -1)
  {
    assert Read([], BUFFER_SIZE - read) == Eof;
  }

  /** A response whose status line and the start of the next line come in one
      chunk: Java's readHeader never reads the second chunk and loops forever,
      while the intended scan finds the content length 5. */
  lemma ReadHeaderStallsMidLine(b: seq<byte>)
    requires |b| == BUFFER_SIZE && b[18] != NEWLINE
    ensures var response := [RESPONSE_HTTP_OK + [13, 10, 65], [66, 13, 10, 13, 10, 0, 0, 0, 5]];
      HeaderScan(b, response).header == Hang && FixedScan(b, response) == Content(5, 27)
  {
    var c1: Chunk := RESPONSE_HTTP_OK + [13, 10, 65];
    var c2: Chunk := [66, 13, 10, 13, 10, 0, 0, 0, 5];
    StallAsWritten(b, c1, c2);
    FixedScanMeaning(b, [c1, c2]);
    StallExampleParses(c1, c2);
  }

  lemma StallAsWritten(b: seq<byte>, c1: Chunk, c2: Chunk)
    requires |b| == BUFFER_SIZE && b[18] != NEWLINE
    requires c1 == RESPONSE_HTTP_OK + [13, 10, 65] && c2 == [66, 13, 10, 13, 10, 0, 0, 0, 5]
    ensures HeaderScan(b, [c1, c2]).header == Hang
  {
    hide HeaderPass, Store, Newline, Read, Concat;
    var b1 := Store(b, 0, c1);
    assert HeaderPass(b, 0, 0, 0, true, [c1, c2]) == Again(b1, 18, 17, 17, false, [c2]) by {
      assert [c1] + [c2] == [c1, c2];
      assert c1[..15] == RESPONSE_HTTP_OK && c1[16] == NEWLINE;
      assert forall k :: 0 <= k < 16 ==> c1[k] != NEWLINE;
      HeaderFirstRead(b, c1, [c2], 16);
    }
    assert HeaderPass(b1, 18, 17, 17, false, [c2]) == Halt(Scanned(Hang, b1)) by {
      StoreHolds(b, 0, c1);
      assert c1[17] == 65 && b1[0 + 17] == c1[17];
      assert b1[18] == b[18] && b1[17] == 65;
      HeaderStall(b1, 18, 17, false, [c2]);
    }
    assert HeaderLoop(b1, 18, 17, 17, false, [c2]) == Scanned(Hang, b1) by {
    }
    assert HeaderScan(b, [c1, c2]) == HeaderLoop(b1, 18, 17, 17, false, [c2]) by {
    }
  }

  lemma StallExampleParses(c1: Chunk, c2: Chunk)
    requires c1 == RESPONSE_HTTP_OK + [13, 10, 65] && c2 == [66, 13, 10, 13, 10, 0, 0, 0, 5]
    ensures ParseHeader(Window(Concat([c1, c2]))) == Content(5, 27)
  {
    var w := c1 + c2;
    assert Window(Concat([c1, c2])) == w by {
      assert [c1, c2][1..] == [c2] && [c2][1..] == [];
      assert Concat([c2]) == c2;
    }
    StallLines(w);
  }

  lemma StallLines(w: seq<byte>)
    requires w == RESPONSE_HTTP_OK + [13, 10, 65] + [66, 13, 10, 13, 10, 0, 0, 0, 5]
    ensures Lines(w, 0, true) == Content(5, 27)
  {
    hide Newline;
    assert Lines(w, 21, false) == Content(5, 27) by {
      NewlineAt(w, 21, 22, 27);
      assert w[23] == 0 && w[24] == 0 && w[25] == 0 && w[26] == 5;
    }
    assert Lines(w, 17, false) == Lines(w, 21, false) by {
      NewlineAt(w, 17, 20, 27);
    }
    assert Lines(w, 0, true) == Lines(w, 17, false) by {
      NewlineAt(w, 0, 16, 27);
      assert w[0..15] == RESPONSE_HTTP_OK;
    }
  }

  /** A response that ends two bytes after its header: Java's readHeader
      passes its `read - len` check and takes the content length from two
      received bytes and two bytes left in the buffer, while the intended scan
      returns null. */
  lemma ReadHeaderStaleLength(b: seq<byte>)
    requires |b| == BUFFER_SIZE
    ensures var response := [RESPONSE_HTTP_OK + [13, 10, 13, 10, 0, 1]];
      && HeaderScan(b, response).header == Content(0x1_0000 + b[21] as int * 0x100 + b[22], 23)
      && FixedScan(b, response) == NotOk
  {
    var c: Chunk := RESPONSE_HTTP_OK + [13, 10, 13, 10, 0, 1];
    StaleAsWritten(b, c);
    FixedScanMeaning(b, [c]);
    StaleExampleParses(c);
  }

  lemma StaleAsWritten(b: seq<byte>, c: Chunk)
    requires |b| == BUFFER_SIZE && c == RESPONSE_HTTP_OK + [13, 10, 13, 10, 0, 1]
    ensures HeaderScan(b, [c]).header == Content(0x1_0000 + b[21] as int * 0x100 + b[22], 23)
  {
    hide HeaderPass, Store, Newline, Read, Concat;
    var b1 := Store(b, 0, c);
    assert HeaderPass(b, 0, 0, 0, true, [c]) == Again(b1, 21, 17, 17, false, []) by {
      assert [c] + [] == [c];
      assert c[..15] == RESPONSE_HTTP_OK && c[16] == NEWLINE;
      assert forall k :: 0 <= k < 16 ==> c[k] != NEWLINE;
      HeaderFirstRead(b, c, [], 16);
    }
    assert HeaderPass(b1, 21, 17, 17, false, []) == Wait(b1, 21, 19, 0, []) by {
      StoreHolds(b, 0, c);
      assert c[17] == 13 && c[18] == NEWLINE && b1[0 + 17] == c[17] && b1[0 + 18] == c[18];
      assert b1[17] == 13 && b1[18] == NEWLINE;
      HeaderNextLine(b1, 21, 17, 18, []);
    }
    assert HeaderTail(b1, 21, 19, 0, []) == Finish(b1, 21, 19, -1) by {
      HeaderTailEof(b1, 21, 19, 0);
    }
    assert Finish(b1, 21, 19, -1).header == Content(0x1_0000 + b[21] as int * 0x100 + b[22], 23) by {
      StoreHolds(b, 0, c);
      assert c[19] == 0 && c[20] == 1 && b1[0 + 19] == c[19] && b1[0 + 20] == c[20];
      assert b1[19] == 0 && b1[20] == 1 && b1[21] == b[21] && b1[22] == b[22];
      assert DecodeInt(b1, 19) == 0x1_0000 + b[21] as int * 0x100 + b[22];
    }
    assert HeaderLoop(b1, 21, 17, 17, false, []) == Finish(b1, 21, 19, -1) by {
    }
    assert HeaderScan(b, [c]) == HeaderLoop(b1, 21, 17, 17, false, []) by {
    }
  }

  lemma StaleExampleParses(c: Chunk)
    requires c == RESPONSE_HTTP_OK + [13, 10, 13, 10, 0, 1]
    ensures ParseHeader(Window(Concat([c]))) == NotOk
  {
    assert Concat([c]) == c by {
      assert [c][1..] == [];
    }
    assert Lines(c, 17, false) == NotOk by {
      NewlineAt(c, 17, 18, 21);
    }
    assert Lines(c, 0, true) == Lines(c, 17, false) by {
      NewlineAt(c, 0, 16, 21);
      assert c[0..15] == RESPONSE_HTTP_OK;
    }
  }

  // -------------------------------------------------------------- the client

  /** What one pass of ScanPass leaves: readHeader finished with a result, its
      for loop goes on from new positions, or it waits for the length bytes. */
  datatype Step =
    | Done(header: Header)
    | Loop(read: nat, pos: nat, end: nat, first: bool, rest: seq<Chunk>)
    | Tail(read: nat, end: nat, len: int, rest: seq<Chunk>)

  /** The pass `s`, taken with the buffer `b` it leaves, is the pass `p`. */
  predicate Agree(p: Pass, s: Step, b: seq<byte>) {
    match p
    case Halt(sc) => s == Done(sc.header) && b == sc.buf
    case Again(b', read, pos, end, first, rest) => s == Loop(read, pos, end, first, rest) && b == b'
    case Wait(b', read, end, len, rest) => s == Tail(read, end, len, rest) && b == b'
  }

  /** writeInt followed by the '/' sendRequest puts after the zoom and after x. */
  method WriteThenSlash(val: int, pos: int, buf: array<byte>) returns (r: int)
    requires 0 <= pos && pos + |Written(val)| < buf.Length
    modifies buf
    ensures r == pos + |Written(val)| + 1
    ensures buf[..r] == old(buf[..pos]) + Written(val) + [SLASH]
    ensures Kept(old(buf[..]), buf[..], r)
  {
    r := WriteInt(val, pos, buf);
    assert Kept(old(buf[..]), buf[..], r);
    buf[r] := SLASH;
    r := r + 1;
    assert buf[..r] == buf[..r - 1] + [SLASH];
  }

  /** The request-building part of sendRequest: into a buffer that starts with
      REQUEST_GET_START, the tile path written with writeInt and then
      REQUEST_GET_END; returns the length of the request. */
  method WriteRequest(buf: array<byte>, start: seq<byte>, end: seq<byte>, zoom: int, x: int, y: int)
    returns (len: int)
    requires |start| <= buf.Length && buf[..|start|] == start
    requires |Request(start, end, zoom, x, y)| <= buf.Length
    modifies buf
    ensures len == |Request(start, end, zoom, x, y)|
    ensures buf[..len] == Request(start, end, zoom, x, y)
    ensures buf[..|start|] == start && buf[len..] == old(buf[len..])
  {
    ghost var wz, wx, wy := Written(zoom), Written(Int32(x)), Written(Int32(y));
    ghost var req := Request(start, end, zoom, x, y);
    assert req == start + wz + [SLASH] + wx + [SLASH] + wy + end;
    hide Decimal, Written, TilePath, Request;
    var pos := |start|;
    pos := WriteThenSlash(zoom, pos, buf);
    ghost var p1 := buf[..pos];
    assert p1 == start + wz + [SLASH];
    pos := WriteThenSlash(Int32(x), pos, buf);
    ghost var p2 := buf[..pos];
    assert p2 == p1 + wx + [SLASH];
    ghost var k2 := buf[..];
    pos := WriteInt(Int32(y), pos, buf);
    ghost var p3 := buf[..pos];
    assert p3 == p2 + wy;
    assert Kept(k2, buf[..], pos);
    ghost var before := buf[..];
    Fill(buf, pos, end);
    len := |end| + pos;
    StoredAfter(before, buf[..], pos, end);
    assert buf[..len] == req;
    assert buf[len..] == old(buf[len..]);
    assert buf[..|start|] == req[..|start|];
  }

  /** Storing `bytes` at `at` extends the prefix before `at` by them and keeps
      what follows them. */
  lemma StoredAfter(before: seq<byte>, after: seq<byte>, at: nat, bytes: seq<byte>)
    requires at + |bytes| <= |before| && after == Store(before, at, bytes)
    ensures after[..at + |bytes|] == before[..at] + bytes && Kept(before, after, at + |bytes|)
  {
    assert after[..at + |bytes|] == before[..at] + bytes;
  }

  /** A new zero-filled request buffer with `start` copied to its front. */
  method NewRequestBuffer(start: seq<byte>) returns (request: array<byte>)
    requires |start| <= BUFFER_SIZE
    ensures fresh(request) && request.Length == BUFFER_SIZE
    ensures request[..] == start + seq(BUFFER_SIZE - |start|, _ => 0)
  {
    request := new byte[BUFFER_SIZE](_ => 0);
    ghost var zeros := request[..];
    Fill(request, 0, start);
    assert request[..] == start + seq(BUFFER_SIZE - |start|, _ => 0) by {
      StoreHolds(zeros, 0, start);
    }
  }

  /** `b` holds the bytes of `a` from `from` on. */
  ghost predicate Kept(a: seq<byte>, b: seq<byte>, from: nat) {
    |a| == |b| && forall k :: from <= k < |a| ==> b[k] == a[k]
  }

  /** The client: its response buffer, the server it talks to, the request
      buffer, and the keep-alive state of its socket. `sent` holds the requests
      that reached the socket and `connects` counts the connects made. */
  class LwHttp {
    const buffer: array<byte>
    var host: seq<byte>
    var port: int
    var serverSet: bool
    var requestStart: seq<byte>
    var requestEnd: seq<byte>
    var requestBuffer: array<byte>
    var socketOpen: bool
    var maxReq: int
    var lastRequest: int
    var contentLength: int
    var connects: nat
    var sent: seq<seq<byte>>

    ghost predicate Valid()
      reads this, requestBuffer
    {
      && buffer.Length == BUFFER_SIZE
      && requestBuffer.Length == BUFFER_SIZE
      && requestBuffer != buffer
      && (serverSet ==> |requestStart| <= BUFFER_SIZE && requestBuffer[..|requestStart|] == requestStart)
    }

    /** The keep-alive state sendRequest works on. */
    function Connection(): Link
      reads this
    {
      Link(socketOpen, maxReq, lastRequest)
    }

    /** A new client: no server yet, no socket, mMaxReq and mLastRequest 0. */
    constructor ()
      ensures Valid() && fresh(buffer) && fresh(requestBuffer)
      ensures !serverSet && Connection() == Link(false, 0, 0)
      ensures contentLength == 0 && connects == 0 && sent == []
    {
      buffer := new byte[BUFFER_SIZE](_ => 0);
      requestBuffer := new byte[BUFFER_SIZE](_ => 0);
      host, port, serverSet := [], 0, false;
      requestStart, requestEnd := [], [];
      socketOpen, maxReq, lastRequest := false, 0, 0;
      contentLength, connects, sent := 0, 0, [];
    }

    /** setServer for a URL with host `urlHost`, port `urlPort` (negative when
        the URL names none) and path `urlPath`; `wellFormed` is false when the URL
        does not parse, and then nothing changes. Otherwise the request parts
        are built and a fresh request buffer starts with "GET " and the path. */
    method SetServer(urlHost: seq<byte>, urlPort: int, urlPath: seq<byte>, wellFormed: bool) returns (ok: bool)
      requires Valid() && |RequestStart(urlPath)| <= BUFFER_SIZE
      modifies this
      ensures Valid() && ok == wellFormed
      ensures !ok ==> unchanged(this)
      ensures ok ==> && serverSet && host == urlHost
                     && port == (if urlPort < 0 then DEFAULT_PORT else urlPort)
                     && requestStart == RequestStart(urlPath) && requestEnd == RequestEnd(urlHost)
                     && fresh(requestBuffer)
                     && requestBuffer[..] == RequestStart(urlPath) + seq(BUFFER_SIZE - |requestStart|, _ => 0)
      ensures ok ==> && Connection() == old(Connection()) && contentLength == old(contentLength)
                     && connects == old(connects) && sent == old(sent)
    {
      hide RequestStart, RequestEnd, Ascii;
      if !wellFormed {
        return false;
      }
      var p := urlPort;
      if p < 0 {
        p := DEFAULT_PORT;
      }
      requestStart := RequestStart(urlPath);
      requestEnd := RequestEnd(urlHost);
      host, port := urlHost, p;
      requestBuffer := NewRequestBuffer(requestStart);
      serverSet := true;
      return true;
    }

    /** sendRequest for the tile (zoom, x, y) at clock `now`, with the socket
        actions turning out as `net`: the keep-alive state, the connects and the
        requests sent follow SendPolicy, and the request buffer holds the
        request once a socket is there to take it. `ok` is false where Java's
        sendRequest throws an IOException. */
    method SendRequest(zoom: int, x: int, y: int, now: int, net: Net) returns (ok: bool)
      requires Valid() && serverSet
      requires |Request(requestStart, requestEnd, zoom, x, y)| <= BUFFER_SIZE
      modifies this, requestBuffer
      ensures && host == old(host) && port == old(port) && serverSet
              && requestStart == old(requestStart) && requestEnd == old(requestEnd)
              && contentLength == old(contentLength)
      ensures Valid() && requestBuffer == old(requestBuffer)
      ensures var r := SendPolicy(old(Connection()), now, net);
        && Connection() == r.link && connects == old(connects) + r.connects && ok == r.delivered
        && sent == old(sent) + (if r.delivered then [Request(requestStart, requestEnd, zoom, x, y)] else [])
      ensures var req := Request(requestStart, requestEnd, zoom, x, y);
        if Check(old(Connection()), now).open || net.connect then requestBuffer[..|req|] == req
        else requestBuffer[..] == old(requestBuffer[..])
    {
      hide SendPolicy, Check, Request, TilePath, Written, RequestStart, RequestEnd;
      ghost var r := SendPolicy(Connection(), now, net);
      ghost var req := Request(requestStart, requestEnd, zoom, x, y);
      Expire(now);
      if !socketOpen {
        var connected := Connect(net.connect);
        if !connected {
          return false;
        }
      }
      var len := WriteRequest(requestBuffer, requestStart, requestEnd, zoom, x, y);
      ok := Write(len, net.write, net.reconnect && net.rewrite);
    }

    /** The reuse check at the start of sendRequest: mMaxReq counts down and
        the socket is closed when it is spent or idle too long. */
    method Expire(now: int)
      modifies this`socketOpen, this`maxReq
      ensures Connection() == Check(old(Connection()), now)
    {
      if socketOpen {
        var expired := maxReq <= 0 || now - lastRequest > RESPONSE_EXPECTED_TIMEOUT;
        maxReq := Int32(maxReq - 1);
        if expired {
          socketOpen := false;
        }
      }
    }

    /** lwHttpConnect, with `success` telling whether the connect went through;
        mSocket is set before the connect is tried. On success sendRequest
        gives the new socket a budget of RESPONSE_EXPECTED_LIVES. */
    method Connect(success: bool) returns (ok: bool)
      modifies this`socketOpen, this`maxReq, this`connects
      ensures ok == success && socketOpen && connects == old(connects) + 1
      ensures maxReq == if success then RESPONSE_EXPECTED_LIVES else old(maxReq)
    {
      socketOpen := true;
      connects := connects + 1;
      if !success {
        return false;
      }
      maxReq := RESPONSE_EXPECTED_LIVES;
      return true;
    }

    /** The write of the first `len` bytes of the request buffer; when it
        fails, one reconnect and one more write, which together succeed when
        `retry` holds. */
    method Write(len: int, first: bool, retry: bool) returns (ok: bool)
      requires 0 <= len <= requestBuffer.Length
      modifies this`sent, this`connects
      ensures ok == (first || retry)
      ensures connects == old(connects) + (if first then 0 else 1)
      ensures sent == old(sent) + (if ok then [requestBuffer[..len]] else [])
    {
      if first {
        sent := sent + [requestBuffer[..len]];
        return true;
      }
      connects := connects + 1;
      if !retry {
        return false;
      }
      sent := sent + [requestBuffer[..len]];
      return true;
    }

    /** readHeader on a response arriving as `response`. Where Java's loop
        would repeat the same state forever, the result is Hang; where it throws
        ArrayIndexOutOfBoundsException, Thrown. On Content, contentLength holds
        the length decodeInt read. */
    method ReadHeader(response: seq<Chunk>) returns (r: Header)
      requires Valid()
      modifies this, buffer
      ensures Valid()
      ensures var s := HeaderScan(old(buffer[..]), response); r == s.header && buffer[..] == s.buf
      ensures contentLength == if r.Content? then r.length else old(contentLength)
      ensures && Connection() == old(Connection()) && connects == old(connects) && sent == old(sent)
              && requestBuffer == old(requestBuffer) && serverSet == old(serverSet)
              && requestStart == old(requestStart) && requestEnd == old(requestEnd)
              && host == old(host) && port == old(port)
    {
      hide HeaderPass, HeaderTail, Read, Concat, Newline, Store;
      ghost var goal := HeaderScan(buffer[..], response);
      var read: nat, pos: nat, end: nat, first, rest := 0, 0, 0, true, response;
      while true
        invariant LoopState(read, pos, end)
        invariant HeaderLoop(buffer[..], read, pos, end, first, rest) == goal
        invariant Valid() && unchanged(this)
        decreases |Concat(rest)|, read + 1 - pos
      {
        var s := ScanPass(read, pos, end, first, rest);
        if s.Done? {
          return s.header;
        }
        if s.Tail? {
          r := WaitLength(s.read, s.end, s.len, s.rest);
          return;
        }
        read, pos, end, first, rest := s.read, s.pos, s.end, s.first, s.rest;
      }
    }

    /** One pass of readHeader's for loop: a read only when no buffered bytes
        are left to look at, the newline scan, the status-line check with
        compareBytes on the first line, and the test for the empty line. */
    method ScanPass(read: nat, pos: nat, end: nat, first: bool, rest: seq<Chunk>) returns (s: Step)
      requires buffer.Length == BUFFER_SIZE && LoopState(read, pos, end)
      modifies buffer
      ensures Agree(HeaderPass(old(buffer[..]), read, pos, end, first, rest), s, buffer[..])
    {
      hide Read, Newline, Concat, Store, HeaderPass;
      PassCases(buffer[..], read, pos, end, first, rest);
      var got := if pos < read then Got([], rest) else Read(rest, BUFFER_SIZE - read);
      if got.Eof? {
        return Tail(read, end, -1, rest);
      }
      Fill(buffer, read, got.bytes);
      var read1 := read + |got.bytes|;
      var e := FindNewline(end, read1);
      if e >= BUFFER_SIZE {
        return Done(Thrown);
      }
      if buffer[e] != NEWLINE {
        if pos < read {
          return Done(Hang);
        }
        return Loop(read1, pos, e, first, got.rest);
      }
      if first {
        var ok := CompareBytes(buffer, pos, e, RESPONSE_HTTP_OK, 15);
        if !ok {
          return Done(NotOk);
        }
      } else if e - pos == 1 {
        return Tail(read1, e + 1, |got.bytes|, got.rest);
      }
      return Loop(read1, e + 1, e + 1, false, got.rest);
    }

    /** The scan `while (end < read && buf[end] != '\n') end++`. */
    method FindNewline(from: nat, upto: nat) returns (e: nat)
      requires upto <= buffer.Length
      ensures e == Newline(buffer[..], from, upto)
    {
      e := from;
      while e < upto && buffer[e] != NEWLINE
        invariant from <= e && (from <= upto ==> e <= upto)
        invariant Newline(buffer[..], e, upto) == Newline(buffer[..], from, upto)
        decreases upto - e
      {
        e := e + 1;
      }
    }

    /** The wait for the four length bytes and the check after it; on success
        contentLength is set from decodeInt. */
    method WaitLength(read: nat, end: nat, len: int, rest: seq<Chunk>) returns (r: Header)
      requires buffer.Length == BUFFER_SIZE && read <= BUFFER_SIZE
      modifies this`contentLength, buffer
      ensures var s := HeaderTail(old(buffer[..]), read, end, len, rest); r == s.header && buffer[..] == s.buf
      ensures contentLength == if r.Content? then r.length else old(contentLength)
    {
      ghost var goal := HeaderTail(buffer[..], read, end, len, rest);
      var rd: nat, ln, rs := read, len, rest;
      while rd - end < 4
        invariant rd <= BUFFER_SIZE && contentLength == old(contentLength)
        invariant HeaderTail(buffer[..], rd, end, ln, rs) == goal
        decreases |Concat(rs)|
      {
        if rd == BUFFER_SIZE {
          return Hang;
        }
        var got := Read(rs, BUFFER_SIZE - rd);
        if got.Eof? {
          r := CheckLength(rd, end, -1);
          return;
        }
        Fill(buffer, rd, got.bytes);
        rd, ln, rs := rd + |got.bytes|, |got.bytes|, got.rest;
      }
      r := CheckLength(rd, end, ln);
    }

    /** The check after the wait: null when fewer than four bytes seem to have
        come, otherwise decodeInt at `end` sets contentLength. */
    method CheckLength(read: nat, end: nat, len: int) returns (r: Header)
      requires buffer.Length == BUFFER_SIZE
      modifies this`contentLength
      ensures r == Finish(buffer[..], read, end, len).header
      ensures contentLength == if r.Content? then r.length else old(contentLength)
    {
      if read - len < 4 {
        return NotOk;
      }
      if end + 4 > BUFFER_SIZE {
        return Thrown;
      }
      contentLength := DecodeInt(buffer[..], end);
      return Content(contentLength, end + 4);
    }
  }
}
