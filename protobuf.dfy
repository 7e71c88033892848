/** The bounded streaming buffer of ProtobufDecoder.java: a window
    buffer[bufferPos..bufferFill) over an input stream, refilled, compacted or
    grown by ReadBuffer, never reading more than the declared content length,
    plus the varint, varint-array and string primitives on top of it.

    The input stream is the sequence `input` of bytes it would still deliver.
    One read returns some non-empty prefix of what remains that fits the
    request, or end-of-stream when nothing remains; which prefix is left open,
    so every decoding method is specified against Content(), the bytes of this
    message not yet decoded, whatever the reads delivered. */
module Protobuf {
  import opened Wire

  const VARINT_LIMIT: int := 5
  const VARINT_MAX: int := 10
  const BUFFER_SIZE: int := 0x8000

  function Min(a: int, b: int): int { if a <= b then a else b }

  /** The value readBuffer returns, as a function of the unread window length
      `w`, the request `size`, the remaining content budget and the number of
      bytes the stream still holds: true at once when more than `size` bytes
      are buffered, false when the content was read to its end, otherwise false
      exactly when the stream ends before `size` bytes could be buffered. */
  function ReadyAsWritten(w: int, size: int, budget: int, avail: int): bool {
    w > size || (budget > 0 && (budget <= avail || w + avail >= size))
  }

  /** The new read position, relative to the old one, that Java's skip()
      produces on the buffered window: the declared length is added without
      looking at how many bytes are buffered. */
  function SkipAsWrittenPos(window: seq<byte>): Option<int> {
    match Varint32(window)
    case Ok(len, n) => Some(n + len)
    case Fail(_) => None
  }

  /** A length-prefixed byte string (decodeString, and Skip below): the
      declared length, then that many bytes. */
  function LengthPrefixed(s: seq<byte>): (r: Decoded<seq<byte>>)
    ensures r.Ok? ==> |r.value| <= r.used <= |s| && r.value == s[r.used - |r.value|..r.used]
  {
    match Varint32(s)
    case Fail(e) => Fail(e)
    case Ok(size, n) =>
      if size < 0 then Fail(NegativeSize)
      else if n + size > |s| then Fail(Truncated)
      else Ok(s[n..n + size], n + size)
  }

  /** A length-prefixed string read in two steps: the length, then the bytes
      that follow it. */
  lemma LengthPrefixedSplit(s: seq<byte>)
    ensures Varint32(s).Fail? ==> LengthPrefixed(s) == Fail(Varint32(s).error)
    ensures Varint32(s).Ok? ==>
              var size, n := Varint32(s).value, Varint32(s).used;
              LengthPrefixed(s) == if size < 0 then Fail(NegativeSize)
                                   else if size > |s[n..]| then Fail(Truncated)
                                   else Ok(s[n..][..size], n + size)
  {
    if Varint32(s).Ok? {
      var size, n := Varint32(s).value, Varint32(s).used;
      if 0 <= size <= |s[n..]| {
        assert s[n..][..size] == s[n..n + size];
      }
    }
  }

  /** decodeVarintArray after its length prefix: decode varints from `s[pos..]`
      while pos < end, failing with "invalid array size" before a value beyond
      the `num` declared ones, storing each value as a short into `cap` slots,
      and requiring the bytes consumed to equal the declared count. */
  function ArrayLoop(s: seq<byte>, pos: nat, end: int, num: int, cap: int, acc: seq<short>)
    : (r: Decoded<seq<short>>)
    requires pos <= |s|
    ensures r.Ok? ==> r.used == end <= |s|
    decreases |s| - pos
  {
    if pos >= end then
      if pos == end then Ok(acc, pos) else Fail(InvalidArray)
    else if |acc| == num then Fail(InvalidArraySize)
    else
      match Varint5(s[pos..])
      case Fail(e) => Fail(e)
      case Ok(v, k) =>
        if |acc| >= cap then Fail(OutOfBounds)
        else ArrayLoop(s, pos + k, end, num, cap, acc + [Int16(v)])
  }

  /** decodeVarintArray on content `s`: the byte count, then the values. */
  function VarintArray(s: seq<byte>, num: int, cap: int): (r: Decoded<seq<short>>)
    ensures r.Ok? ==> r.used <= |s|
  {
    match Varint32(s)
    case Fail(e) => Fail(e)
    case Ok(bytes, n) =>
      match ArrayLoop(s[n..], 0, bytes, num, cap, [])
      case Fail(e) => Fail(e)
      case Ok(vs, used) => Ok(vs, n + used)
  }

  /** The array loop stores at most `cap` values, and no more than the
      `num` declared ones. */
  lemma {:induction false} ArrayLoopBound(s: seq<byte>, pos: nat, end: int, num: int, cap: int, acc: seq<short>)
    requires pos <= |s| && ArrayLoop(s, pos, end, num, cap, acc).Ok? && |acc| <= cap
    ensures var vs := ArrayLoop(s, pos, end, num, cap, acc).value;
            |acc| <= |vs| <= cap && (|acc| <= num ==> |vs| <= num) && vs[..|acc|] == acc
    decreases |s| - pos
  {
    if pos < end {
      var d := Varint5(s[pos..]);
      var acc' := acc + [Int16(d.value)];
      ArrayLoopBound(s, pos + d.used, end, num, cap, acc');
      assert acc'[..|acc|] == acc;
    }
  }

  /** decodeVarintArray stores at most `cap` values, and no more than `num`. */
  lemma VarintArrayBound(s: seq<byte>, num: int, cap: int)
    requires VarintArray(s, num, cap).Ok? && 0 <= cap
    ensures |VarintArray(s, num, cap).value| <= cap
    ensures 0 <= num ==> |VarintArray(s, num, cap).value| <= num
  {
    var n := Varint32(s).used;
    ArrayLoopBound(s[n..], 0, Varint32(s).value, num, cap, []);
  }

  class ProtobufDecoder {
    var buffer: array<byte>
    /** position in buffer */
    var bufferPos: int
    /** bytes available in buffer */
    var bufferFill: int
    /** offset of buffer in message */
    var bufferOffset: int
    /** max bytes to read: the content length */
    var readMax: int
    /** bytes of the message read from the stream so far */
    var readPos: int
    /** what the input stream would still deliver */
    var input: seq<byte>

    /** The window invariant. */
    ghost predicate Valid()
      reads this
    {
      0 <= bufferPos <= bufferFill <= buffer.Length && 0 <= readPos <= readMax
    }

    function Window(): seq<byte>
      reads this, buffer
      requires Valid()
    {
      buffer[bufferPos..bufferFill]
    }

    /** The bytes of this message the stream has yet to deliver. */
    function Pending(): seq<byte>
      reads this
      requires Valid()
    {
      input[..Min(readMax - readPos, |input|)]
    }

    /** The bytes of this message not yet decoded. */
    function Content(): seq<byte>
      reads this, buffer
      requires Valid()
    {
      Window() + Pending()
    }

    /** position(): the offset of the read position in the message. */
    function Position(): int
      reads this
    {
      bufferOffset + bufferPos
    }

    constructor ()
      ensures Valid() && fresh(buffer) && buffer.Length == BUFFER_SIZE
      ensures Content() == [] && bufferPos == 0 && bufferOffset == 0
    {
      buffer := new byte[BUFFER_SIZE];
      bufferPos, bufferFill, bufferOffset := 0, 0, 0;
      readMax, readPos := 0, 0;
      input := [];
    }

    /** setInputStream: empty window, nothing read, `contentLength` to go. The
        buffer and bufferOffset are kept. */
    method SetInputStream(stream: seq<byte>, contentLength: int)
      requires Valid() && contentLength >= 0
      modifies this
      ensures Valid() && buffer == old(buffer) && bufferOffset == old(bufferOffset)
      ensures bufferPos == 0 && bufferFill == 0 && readPos == 0 && readMax == contentLength
      ensures input == stream
      ensures Content() == stream[..Min(contentLength, |stream|)]
    {
      input := stream;
      bufferFill := 0;
      bufferPos := 0;
      readPos := 0;
      readMax := contentLength;
    }

    /** One read of at most `max` bytes into buffer[bufferFill..]: some
        non-empty prefix of what the stream holds, or -1 at end of stream. */
    method Read(max: int) returns (len: int)
      requires Valid() && 0 < max <= buffer.Length - bufferFill && max <= readMax - readPos
      modifies this, buffer
      ensures Valid() && buffer == old(buffer) && bufferPos == old(bufferPos)
      ensures bufferOffset == old(bufferOffset) && readMax == old(readMax)
      ensures old(input) == [] ==> len == -1 && input == [] && readPos == old(readPos)
                                   && bufferFill == old(bufferFill)
      ensures old(input) != [] ==> 1 <= len <= max && len <= |old(input)|
                                   && input == old(input)[len..] && readPos == old(readPos) + len
                                   && bufferFill == old(bufferFill) + len
      ensures Window() == old(Window()) + old(input)[..(if len < 0 then 0 else len)]
      ensures Content() == old(Content())
    {
      if input == [] {
        return -1;
      }
      len :| 1 <= len <= max && len <= |input|;
      ghost var b0 := buffer[..];
      ghost var in0 := input;
      Deliver(buffer, bufferFill, input[..len]);
      CopiedIn(b0, buffer[..], bufferPos, bufferFill, input, len);
      input, readPos, bufferFill := input[len..], readPos + len, bufferFill + len;
      ghost var w1, p1 := Window(), Pending();
      assert w1 == old(Window()) + in0[..len];
      PendingAfter(in0, len, readMax - old(readPos), readMax - readPos);
      assert old(Pending()) == in0[..len] + p1;
      Assoc3(old(Window()), in0[..len], p1);
      assert Content() == w1 + p1;
    }

    /** readBuffer: make `size` bytes available from bufferPos on. Grows the
        buffer when `size` exceeds it, compacts when the unread bytes would not
        fit, then reads until `size` bytes are buffered or the content is read
        to its end. */
    method ReadBuffer(size: int) returns (r: bool)
      requires Valid()
      modifies this, buffer
      ensures Valid() && (buffer == old(buffer) || fresh(buffer))
      ensures buffer.Length >= old(buffer.Length)
      ensures Content() == old(Content()) && Position() == old(Position())
      ensures |Window()| >= old(|Window()|) && Window()[..old(|Window()|)] == old(Window())
      ensures readMax == old(readMax) && old(readPos) <= readPos <= old(readPos) + |old(input)|
      ensures input == old(input)[readPos - old(readPos)..]
      ensures r == ReadyAsWritten(old(|Window()|), size, old(readMax - readPos), old(|input|))
      ensures |Window()| >= size || Pending() == []
      ensures old(bufferPos) + size < old(bufferFill) ==>
                readPos == old(readPos) && buffer == old(buffer) && bufferPos == old(bufferPos)
                && bufferFill == old(bufferFill)
    {
      // check if buffer already contains the request bytes
      if bufferPos + size < bufferFill {
        return true;
      }
      // check if inputstream is read to the end
      if readPos == readMax {
        return false;
      }
      var maxSize := MakeRoom(size);
      r := FillWindow(size, maxSize);
    }

    /** The first half of readBuffer: grow the buffer to `size` when it is
        smaller, restart an empty window at the beginning, and move the unread
        bytes to the beginning when `size` bytes would not fit after them. */
    method MakeRoom(size: int) returns (maxSize: int)
      requires Valid()
      modifies this, buffer
      ensures Valid() && (buffer == old(buffer) || fresh(buffer))
      ensures maxSize == buffer.Length >= old(buffer.Length) && bufferPos + size <= maxSize
      ensures Window() == old(Window()) && Position() == old(Position())
      ensures readPos == old(readPos) && readMax == old(readMax) && input == old(input)
    {
      maxSize := buffer.Length;
      if size > maxSize {
        maxSize := size;
        var tmp := new byte[maxSize];
        MoveWindow(tmp);
      }
      if bufferFill == bufferPos {
        ghost var w0 := Window();
        bufferOffset := bufferOffset + bufferPos;
        bufferPos := 0;
        bufferFill := 0;
        assert Window() == w0;
      } else if bufferPos + size > maxSize {
        // copy bytes left to the beginning of buffer
        MoveWindow(buffer);
      }
    }

    /** Copy the unread window to the beginning of `dst` (a new buffer, or
        the buffer itself) and make `dst` the buffer. */
    method MoveWindow(dst: array<byte>)
      requires Valid() && bufferFill - bufferPos <= dst.Length
      modifies this, dst
      ensures Valid() && buffer == dst && bufferPos == 0
      ensures Window() == old(Window()) && Position() == old(Position())
      ensures readPos == old(readPos) && readMax == old(readMax) && input == old(input)
    {
      bufferFill := bufferFill - bufferPos;
      forall i | 0 <= i < bufferFill {
        dst[i] := buffer[bufferPos + i];
      }
      bufferOffset := bufferOffset + bufferPos;
      bufferPos := 0;
      buffer := dst;
    }

    /** Since a snapshot (content `c0`, window `w0`, read position `rp0`,
        stream `in0`): the window still begins with `w0` and has grown by
        exactly the bytes taken from the stream, and the content is the same. */
    ghost predicate GrownFrom(c0: seq<byte>, w0: seq<byte>, rp0: int, in0: seq<byte>)
      reads this, buffer
    {
      Valid() && Content() == c0 && rp0 <= readPos && readPos - rp0 <= |in0|
      && input == in0[readPos - rp0..]
      && |Window()| == |w0| + (readPos - rp0) && Window()[..|w0|] == w0
    }

    /** One pass of readBuffer's loop: read at most what fits in the buffer
        and what the content still holds; at the end of the stream, write the
        end mark after the window and report a negative length. */
    method Refill(maxSize: int, ghost c0: seq<byte>, ghost w0: seq<byte>, ghost rp0: int,
                  ghost in0: seq<byte>) returns (len: int)
      requires GrownFrom(c0, w0, rp0, in0) && maxSize == buffer.Length
      requires bufferFill < maxSize && readPos < readMax
      modifies this, buffer
      ensures GrownFrom(c0, w0, rp0, in0) && buffer == old(buffer)
      ensures bufferPos == old(bufferPos) && bufferOffset == old(bufferOffset)
      ensures readMax == old(readMax) && readPos <= readMax
      ensures len < 0 ==> old(input) == [] && readPos == old(readPos)
      ensures len >= 0 ==> readPos > old(readPos)
    {
      var max := maxSize - bufferFill;
      if max > readMax - readPos {
        max := readMax - readPos;
      }
      ghost var w1, rp1, in1 := Window(), readPos, input;
      len := Read(max);
      if len < 0 {
        // finished reading, mark end
        buffer[bufferFill] := 0;
        assert Window() == w1;
      } else {
        assert Window()[..|w0|] == w1[..|w0|];
        assert input == in1[len..] == in0[readPos - rp0..];
      }
    }

    /** The second half of readBuffer: read until `size` bytes are buffered,
        the stream ends (false) or the content is read to its end. */
    method FillWindow(size: int, maxSize: int) returns (r: bool)
      requires Valid() && maxSize == buffer.Length && bufferPos + size <= maxSize
      requires bufferFill - bufferPos <= size && readPos < readMax
      modifies this, buffer
      ensures Valid() && buffer == old(buffer)
      ensures Content() == old(Content()) && Position() == old(Position())
      ensures |Window()| >= old(|Window()|) && Window()[..old(|Window()|)] == old(Window())
      ensures readMax == old(readMax) && old(readPos) <= readPos <= old(readPos) + |old(input)|
      ensures input == old(input)[readPos - old(readPos)..]
      ensures r == ReadyAsWritten(old(|Window()|), size, old(readMax - readPos), old(|input|))
      ensures |Window()| >= size || Pending() == []
    {
      ghost var c0, w0, rp0, in0 := Content(), Window(), readPos, input;
      var max := maxSize - bufferFill;
      while bufferFill - bufferPos < size && max > 0
        invariant GrownFrom(c0, w0, rp0, in0) == true
        invariant buffer == old(buffer) && bufferPos == old(bufferPos)
        invariant bufferOffset == old(bufferOffset)
        invariant readMax == old(readMax) && readPos < readMax
        invariant max <= 0 ==> bufferFill == maxSize
        decreases readMax - readPos
      {
        max := maxSize - bufferFill;
        if max > readMax - readPos {
          max := readMax - readPos;
        }
        var len := Refill(maxSize, c0, w0, rp0, in0);
        if len < 0 {
          return false;
        }
        if readPos == readMax {
          break;
        }
      }
      return true;
    }

    /** decodeVarint32: refill when fewer than VARINT_MAX bytes are buffered,
        then decode one varint (see Wire.Varint32) and move past it. */
    method DecodeVarint32() returns (r: Decoded<int>)
      requires Valid()
      modifies this, buffer
      ensures Valid() && (buffer == old(buffer) || fresh(buffer))
      ensures buffer.Length >= old(buffer.Length)
      ensures r == Varint32(old(Content()))
      ensures r.Ok? ==> Content() == old(Content())[r.used..] && Position() == old(Position()) + r.used
      ensures r.Fail? ==> Content() == old(Content()) && Position() == old(Position())
    {
      if bufferPos + VARINT_MAX > bufferFill {
        var _ := ReadBuffer(4096);
      }
      r := DecodeBuffered();
    }

    /** The rest of decodeVarint32, once the window holds nine bytes or all of
        the content: decode from the window and move past the varint. */
    method DecodeBuffered() returns (r: Decoded<int>)
      requires Valid() && (bufferFill - bufferPos >= 9 || Pending() == [])
      modifies this
      ensures Valid() && buffer == old(buffer) && r == Varint32(old(Content()))
      ensures r.Ok? ==> Content() == old(Content())[r.used..] && Position() == old(Position()) + r.used
      ensures r.Fail? ==> Content() == old(Content()) && Position() == old(Position())
    {
      ghost var w := Window();
      ghost var p := Pending();
      r := ScanVarint32(buffer, bufferPos, bufferFill);
      Varint32Window(w, p, r);
      if r.Ok? {
        Advance(r.used);
      }
    }

    /** decodeVarintArray: a byte count, then varints stored as shorts into
        `arr` until the count is used up. When the content holds fewer bytes
        than the loop looks at, Java's loop goes on over whatever stale bytes
        the buffer holds past bufferFill; the model fails instead. */
    method DecodeVarintArray(num: int, arr: array<short>) returns (r: Decoded<seq<short>>)
      requires Valid()
      modifies this, buffer, arr
      ensures Valid()
      ensures buffer == old(buffer) || fresh(buffer)
      ensures Agrees(r, VarintArray(old(Content()), num, arr.Length))
      ensures r.Ok? ==> |r.value| <= arr.Length && arr[..|r.value|] == r.value
                        && arr[|r.value|..] == old(arr[|r.value|..])
                        && Content() == old(Content())[r.used..]
                        && Position() == old(Position()) + r.used
    {
      ghost var c0 := Content();
      var len := DecodeVarint32();
      if len.Fail? {
        return Fail(len.error);
      }
      var vs := DecodeArrayBody(num, arr, len.value);
      if vs.Fail? {
        return Fail(vs.error);
      }
      r := Ok(vs.value, len.used + vs.used);
      assert c0[len.used..][vs.used..] == c0[r.used..];
    }

    /** decodeVarintArray once the byte count `bytes` is known: refill, then
        the loop over the window. */
    method DecodeArrayBody(num: int, arr: array<short>, bytes: int) returns (r: Decoded<seq<short>>)
      requires Valid()
      modifies this, buffer, arr
      ensures Valid()
      ensures buffer == old(buffer) || fresh(buffer)
      ensures Agrees(r, ArrayLoop(old(Content()), 0, bytes, num, arr.Length, []))
      ensures r.Ok? ==> |r.value| <= arr.Length && arr[..|r.value|] == r.value
                        && arr[|r.value|..] == old(arr[|r.value|..])
                        && Content() == old(Content())[r.used..]
                        && Position() == old(Position()) + r.used
    {
      var _ := ReadBuffer(bytes);
      assert bytes <= |Window()| || Pending() == [];
      r := StoreWindow(num, arr, bytes);
      if r.Ok? {
        Advance(r.used);
      }
    }

    /** The loop of decodeVarintArray run on the buffer, once readBuffer has
        buffered the declared count or all of the content. */
    method StoreWindow(num: int, arr: array<short>, bytes: int) returns (r: Decoded<seq<short>>)
      requires Valid() && (bytes <= |Window()| || Pending() == [])
      modifies arr
      ensures buffer[..] == old(buffer[..])
      ensures Agrees(r, ArrayLoop(Content(), 0, bytes, num, arr.Length, []))
      ensures r.Ok? ==> r.used == bytes <= |Window()|
      ensures r.Ok? ==> |r.value| <= arr.Length && arr[..|r.value|] == r.value
                        && arr[|r.value|..] == old(arr[|r.value|..])
    {
      ghost var w, p := Window(), Pending();
      r := StoreVarints(buffer, bufferPos, bufferFill, num, arr, bytes);
      ArrayWindow(w, p, Content(), bytes, num, arr.Length, r);
    }

    /** Moving the read position past `n` buffered bytes. */
    method Advance(n: int)
      requires Valid() && 0 <= n <= bufferFill - bufferPos
      modifies this
      ensures Valid() && buffer == old(buffer) && bufferFill == old(bufferFill)
      ensures readPos == old(readPos) && readMax == old(readMax) && input == old(input)
      ensures Window() == old(Window())[n..] && Pending() == old(Pending())
      ensures Content() == old(Content())[n..] && Position() == old(Position()) + n
    {
      ghost var w, p := Window(), Pending();
      bufferPos := bufferPos + n;
      assert Window() == w[n..];
      assert (w + p)[n..] == w[n..] + p;
    }

    /** The loop of decodeVarintArray over the window buf[start..fill), after
        the byte count `bytes` has been read. */
    static method StoreVarints(buf: array<byte>, start: int, fill: int, num: int, arr: array<short>,
                               bytes: int) returns (r: Decoded<seq<short>>)
      requires 0 <= start <= fill <= buf.Length
      modifies arr
      ensures buf[..] == old(buf[..])
      ensures r == ArrayLoop(buf[start..fill], 0, bytes, num, arr.Length, [])
      ensures r.Ok? ==> |r.value| <= arr.Length && arr[..|r.value|] == r.value
                        && arr[|r.value|..] == old(arr[|r.value|..])
    {
      hide ArrayLoop, Varint5;
      ghost var w := buf[start..fill];
      ghost var a0 := arr[..];
      var cnt := 0;
      var pos := start;
      var end := pos + bytes;
      ghost var acc: seq<short> := [];
      ghost var off := 0;
      while pos < end
        invariant start <= pos <= fill && off == pos - start && 0 <= cnt <= arr.Length && |acc| == cnt
        invariant arr[..cnt] == acc && arr[cnt..] == a0[cnt..]
        invariant ArrayLoop(w, off, bytes, num, arr.Length, acc)
                  == ArrayLoop(w, 0, bytes, num, arr.Length, [])
        decreases end - pos
      {
        if cnt == num {
          ArrayLoopStop(w, off, bytes, num, arr.Length, acc);
          return Fail(InvalidArraySize);
        }
        assert buf[pos..fill] == w[off..];
        var v := ScanVarint5(buf, pos, fill);
        if v.Fail? {
          ArrayLoopFails(w, off, bytes, num, arr.Length, acc);
          return Fail(v.error);
        }
        if cnt >= arr.Length {
          ArrayLoopStep(w, off, bytes, num, arr.Length, acc, v.value, v.used);
          return Fail(OutOfBounds);
        }
        ArrayLoopAdvance(w, off, bytes, num, arr.Length, acc, v.value, v.used);
        ghost var b0 := arr[..];
        arr[cnt] := Int16(v.value);
        SlotWritten(b0, arr[..], acc, a0, cnt, Int16(v.value));
        acc := acc + [Int16(v.value)];
        cnt := cnt + 1;
        pos := pos + v.used;
        off := off + v.used;
      }
      ArrayLoopStop(w, off, bytes, num, arr.Length, acc);
      if pos != start + bytes {
        return Fail(InvalidArray);
      }
      r := Ok(arr[..cnt], bytes);
    }

    /** decodeString: a length, then that many bytes. The bytes are returned
        as they are; their UTF-8 decoding is not modelled. */
    method DecodeString() returns (r: Decoded<seq<byte>>)
      requires Valid()
      modifies this, buffer
      ensures Valid() && r == LengthPrefixed(old(Content()))
      ensures buffer == old(buffer) || fresh(buffer)
      ensures r.Ok? ==> Content() == old(Content())[r.used..] && Position() == old(Position()) + r.used
    {
      ghost var c0 := Content();
      LengthPrefixedSplit(c0);
      var len := DecodeVarint32();
      if len.Fail? {
        return Fail(len.error);
      }
      var bs := ReadBytes(len.value);
      if bs.Fail? {
        return Fail(bs.error);
      }
      r := Ok(bs.value, len.used + bs.used);
      assert c0[len.used..][bs.used..] == c0[r.used..];
    }

    /** skip, reading the skipped bytes: a length, then at least that many
        bytes buffered before the read position moves past them, as for
        decodeString (Java's skip adds the length to bufferPos without
        buffering anything; see SkipAsWrittenPos). The
        result carries the number of bytes skipped. */
    method Skip() returns (r: Decoded<int>)
      requires Valid()
      modifies this, buffer
      ensures Valid()
      ensures r.Ok? <==> LengthPrefixed(old(Content())).Ok?
      ensures r.Fail? ==> r.error == LengthPrefixed(old(Content())).error
      ensures r.Ok? ==> r.used == LengthPrefixed(old(Content())).used
                        && r.value == |LengthPrefixed(old(Content())).value|
                        && Content() == old(Content())[r.used..]
                        && Position() == old(Position()) + r.used
    {
      ghost var c0 := Content();
      LengthPrefixedSplit(c0);
      var len := DecodeVarint32();
      if len.Fail? {
        return Fail(len.error);
      }
      var bs := ReadBytes(len.value);
      if bs.Fail? {
        return Fail(bs.error);
      }
      r := Ok(bs.used, len.used + bs.used);
      assert c0[len.used..][bs.used..] == c0[r.used..];
    }

    /** The part decodeString and skip share after the length: refill, then
        take `size` bytes from the window. */
    method ReadBytes(size: int) returns (r: Decoded<seq<byte>>)
      requires Valid()
      modifies this, buffer
      ensures Valid()
      ensures buffer == old(buffer) || fresh(buffer)
      ensures r == if size < 0 then Fail(NegativeSize)
                   else if size > |old(Content())| then Fail(Truncated)
                   else Ok(old(Content())[..size], size)
      ensures r.Ok? ==> Content() == old(Content())[size..] && Position() == old(Position()) + size
    {
      var _ := ReadBuffer(size);
      assert |Window()| >= size || Content() == Window();
      if size < 0 {
        return Fail(NegativeSize);
      }
      if bufferPos + size > bufferFill {
        return Fail(Truncated);
      }
      ghost var w := Window();
      ghost var c := Content();
      assert size <= |w| && c == w + Pending();
      assert w[..size] == c[..size];
      r := Ok(buffer[bufferPos..bufferPos + size], size);
      SlicePrefix(buffer[..], bufferPos, bufferFill, size);
      Advance(size);
    }

    /** Java's hasData: readBuffer(1). */
    method HasDataAsWritten() returns (r: bool)
      requires Valid()
      modifies this, buffer
      ensures Valid() && Content() == old(Content())
      ensures r == ReadyAsWritten(old(|Window()|), 1, old(readMax - readPos), old(|input|))
    {
      r := ReadBuffer(1);
    }

    /** The hasData of the commented-out line in Java's hasData
        (mBufferOffset + bufferPos < mReadEnd): true exactly when the content
        holds another byte. */
    method HasData() returns (r: bool)
      requires Valid()
      modifies this, buffer
      ensures Valid() && Content() == old(Content()) && Position() == old(Position())
      ensures buffer == old(buffer) || fresh(buffer)
      ensures r <==> |old(Content())| >= 1
    {
      if bufferPos < bufferFill {
        return true;
      }
      ghost var budget, avail := readMax - readPos, |input|;
      assert |Content()| == |Pending()| == Min(budget, avail);
      r := ReadBuffer(1);
      assert r == ReadyAsWritten(0, 1, budget, avail);
    }
  }

  /** The stream's read(buffer, at, n) delivering the bytes `src`: they land
      at buffer[at..], the rest of the buffer stays. */
  method Deliver(buf: array<byte>, at: int, src: seq<byte>)
    requires 0 <= at && at + |src| <= buf.Length
    modifies buf
    ensures buf[..] == old(buf[..])[..at] + src + old(buf[..])[at + |src|..]
  {
    forall i | 0 <= i < |src| {
      buf[at + i] := src[i];
    }
  }

  /** After `len` bytes of `src` were copied to position `f` of a buffer
      `b0`, the window starting at `p <= f` has grown by them. */
  lemma CopiedIn(b0: seq<byte>, b1: seq<byte>, p: int, f: int, src: seq<byte>, len: int)
    requires 0 <= p <= f && 0 <= len <= |src| && f + len <= |b0|
    requires b1 == b0[..f] + src[..len] + b0[f + len..]
    ensures b1[p..f + len] == b0[p..f] + src[..len]
  {
    assert b1[p..f + len] == b1[..f + len][p..];
    assert b1[..f + len] == b0[..f] + src[..len];
  }

  /** Reading `len` bytes moves them from what the stream still owes this
      message (`m` bytes at most) into the window. */
  lemma PendingAfter(in0: seq<byte>, len: int, m: int, m': int)
    requires 0 <= len <= |in0| && len <= m && m' == m - len
    ensures in0[..Min(m, |in0|)] == in0[..len] + in0[len..][..Min(m', |in0[len..]|)]
  {
  }

  /** The decoding part of decodeVarint32, on buf[pos..fill). */
  method ScanVarint32(buf: array<byte>, pos0: int, fill: int) returns (r: Decoded<int>)
    requires 0 <= pos0 <= fill <= buf.Length
    ensures r == Varint32(buf[pos0..fill])
  {
    ghost var w := buf[pos0..fill];
    var pos := pos0;
    if pos >= fill {
      return Fail(Truncated);
    }
    assert buf[pos] == w[0];
    if buf[pos] < 0x80 {
      return Ok(buf[pos], 1);
    } else if pos + 1 >= fill {
      return Fail(Truncated);
    }
    assert buf[pos + 1] == w[1];
    if buf[pos + 1] < 0x80 {
      Varint32Unrolled(w, 2);
      return Ok(Low7(buf[pos]) + buf[pos + 1] as int * 0x80, 2);
    } else if pos + 2 >= fill {
      return Fail(Truncated);
    }
    assert buf[pos + 2] == w[2];
    if buf[pos + 2] < 0x80 {
      Varint32Unrolled(w, 3);
      return Ok(Low7(buf[pos]) + Low7(buf[pos + 1]) * 0x80 + buf[pos + 2] as int * 0x4000, 3);
    } else if pos + 3 >= fill {
      return Fail(Truncated);
    }
    assert buf[pos + 3] == w[3];
    if buf[pos + 3] < 0x80 {
      Varint32Unrolled(w, 4);
      return Ok(Low7(buf[pos]) + Low7(buf[pos + 1]) * 0x80
                + Low7(buf[pos + 2]) * 0x4000 + buf[pos + 3] as int * 0x20_0000, 4);
    } else if pos + 4 >= fill {
      return Fail(Truncated);
    }
    assert buf[pos + 4] == w[4];
    Varint32Long(w);
    // the bits of the fifth byte from position 28 on, with 32-bit wrap-around
    var val := Int32(Low7(buf[pos]) + Low7(buf[pos + 1]) * 0x80
                     + Low7(buf[pos + 2]) * 0x4000 + Low7(buf[pos + 3]) * 0x20_0000
                     + buf[pos + 4] as int * 0x1000_0000);
    pos := pos + 4;
    // discard upper 32 bits
    var max := pos + VARINT_LIMIT;
    while pos < max
      invariant pos0 + 4 <= pos <= max && max == pos0 + 9
      invariant SkipUpper(w, 4) == SkipUpper(w, pos - pos0)
      decreases max - pos
    {
      if pos >= fill {
        return Fail(Truncated);
      }
      assert buf[pos] == w[pos - pos0];
      var b := buf[pos];
      pos := pos + 1;
      if b < 0x80 {
        break;
      }
    }
    if pos == max {
      return Fail(Malformed);
    }
    return Ok(val, pos - pos0);
  }

  /** The varint reader inlined in decodeVarintArray, on buf[pos..fill). */
  method ScanVarint5(buf: array<byte>, pos: int, fill: int) returns (r: Decoded<nat>)
    requires 0 <= pos <= fill <= buf.Length
    ensures r == Varint5(buf[pos..fill])
  {
    ghost var w := buf[pos..fill];
    if pos >= fill {
      return Fail(Truncated);
    }
    assert buf[pos] == w[0];
    if buf[pos] < 0x80 {
      Varint5Unrolled(w, 1);
      return Ok(buf[pos], 1);
    } else if pos + 1 >= fill {
      return Fail(Truncated);
    }
    assert buf[pos + 1] == w[1];
    if buf[pos + 1] < 0x80 {
      Varint5Unrolled(w, 2);
      return Ok(Low7(buf[pos]) + buf[pos + 1] as int * 0x80, 2);
    } else if pos + 2 >= fill {
      return Fail(Truncated);
    }
    assert buf[pos + 2] == w[2];
    if buf[pos + 2] < 0x80 {
      Varint5Unrolled(w, 3);
      return Ok(Low7(buf[pos]) + Low7(buf[pos + 1]) * 0x80 + buf[pos + 2] as int * 0x4000, 3);
    } else if pos + 3 >= fill {
      return Fail(Truncated);
    }
    assert buf[pos + 3] == w[3];
    if buf[pos + 3] < 0x80 {
      Varint5Unrolled(w, 4);
      return Ok(Low7(buf[pos]) + Low7(buf[pos + 1]) * 0x80
                + Low7(buf[pos + 2]) * 0x4000 + buf[pos + 3] as int * 0x20_0000, 4);
    } else if pos + 4 >= fill {
      return Fail(Truncated);
    }
    assert buf[pos + 4] == w[4];
    if buf[pos + 4] < 0x80 {
      Varint5Unrolled(w, 5);
      return Ok(Low7(buf[pos]) + Low7(buf[pos + 1]) * 0x80 + Low7(buf[pos + 2]) * 0x4000
                + Low7(buf[pos + 3]) * 0x20_0000 + buf[pos + 4] as int * 0x1000_0000, 5);
    }
    return Fail(Malformed);
  }

  /** Varint5 of a varint of k bytes, summed as decodeVarintArray's unrolled reader sums it. */
  lemma Varint5Unrolled(s: seq<byte>, k: nat)
    requires 1 <= k <= 5 && k <= |s| && s[k - 1] < 0x80
    requires forall i :: 0 <= i < k - 1 ==> s[i] >= 0x80
    ensures k == 1 ==> Varint5(s) == Ok(s[0], 1)
    ensures k == 2 ==> Varint5(s) == Ok(Low7(s[0]) + s[1] as int * 0x80, 2)
    ensures k == 3 ==> Varint5(s) == Ok(Low7(s[0]) + Low7(s[1]) * 0x80 + s[2] as int * 0x4000, 3)
    ensures k == 4 ==> Varint5(s) == Ok(Low7(s[0]) + Low7(s[1]) * 0x80 + Low7(s[2]) * 0x4000
                                        + s[3] as int * 0x20_0000, 4)
    ensures k == 5 ==> Varint5(s) == Ok(Low7(s[0]) + Low7(s[1]) * 0x80 + Low7(s[2]) * 0x4000
                                        + Low7(s[3]) * 0x20_0000 + s[4] as int * 0x1000_0000, 5)
  {
    GroupsFive(s);
    assert k >= 2 ==> s[0] >= 0x80;
    assert k >= 3 ==> s[1] >= 0x80;
    assert k >= 4 ==> s[2] >= 0x80;
    assert k >= 5 ==> s[3] >= 0x80;
  }

  /** A decided five-byte varint is decided by any longer prefix as well. */
  lemma Varint5Prefix(s: seq<byte>, m: nat)
    requires Varint5(s).Ok? && Varint5(s).used <= m <= |s|
    ensures Varint5(s[..m]) == Varint5(s)
  {
    var k := Varint5(s).used;
    assert s[..m][..k] == s[..k];
    assert forall i :: 0 <= i < k ==> s[..m][i] == s[i];
  }

  /** The array loop on the buffered window agrees with the loop on the whole
      content whenever the window holds the declared byte count or all of the
      content: a value the window cuts short either fails on both or, decoded
      from the content, runs past the declared count. */
  lemma {:induction false} ArrayLoopWindow(w: seq<byte>, p: seq<byte>, pos: nat, end: int, num: int,
                                           cap: int, acc: seq<short>)
    requires pos <= |w| && (end <= |w| || p == [])
    ensures Agrees(ArrayLoop(w, pos, end, num, cap, acc), ArrayLoop(w + p, pos, end, num, cap, acc))
    decreases |w| - pos, 1
  {
    var c := w + p;
    if pos < end && |acc| != num {
      assert c[pos..][..|w| - pos] == w[pos..];
      if Varint5(w[pos..]) != Fail(Truncated) {
        ArrayWindowDecoded(w, p, pos, end, num, cap, acc);
      } else if p != [] {
        ArrayWindowCut(w, p, pos, end, num, cap, acc);
      } else {
        assert c == w;
      }
    } else {
      ArrayLoopStop(w, pos, end, num, cap, acc);
      ArrayLoopStop(c, pos, end, num, cap, acc);
    }
  }

  /** A value the window holds whole decodes the same from the content. */
  lemma {:induction false} ArrayWindowDecoded(w: seq<byte>, p: seq<byte>, pos: nat, end: int, num: int,
                                              cap: int, acc: seq<short>)
    requires pos < end && pos <= |w| && |acc| != num && (end <= |w| || p == [])
    requires Varint5(w[pos..]) != Fail(Truncated) && (w + p)[pos..][..|w| - pos] == w[pos..]
    ensures Agrees(ArrayLoop(w, pos, end, num, cap, acc), ArrayLoop(w + p, pos, end, num, cap, acc))
    decreases |w| - pos, 0
  {
    var c := w + p;
    var d := Varint5(w[pos..]);
    Varint5Extend(c[pos..], |w| - pos);
    if d.Ok? && |acc| < cap {
      ArrayLoopWindow(w, p, pos + d.used, end, num, cap, acc + [Int16(d.value)]);
    }
    ArrayAgreeStep(w, c, pos, end, num, cap, acc);
  }

  /** Two byte strings whose next value decodes alike: the array loops on
      them agree when they agree after that value. */
  lemma ArrayAgreeStep(s: seq<byte>, t: seq<byte>, pos: nat, end: int, num: int, cap: int, acc: seq<short>)
    requires pos < end && pos <= |s| && pos <= |t| && |acc| != num && Varint5(s[pos..]) == Varint5(t[pos..])
    requires Varint5(s[pos..]).Ok? && |acc| < cap ==>
               var d := Varint5(s[pos..]);
               Agrees(ArrayLoop(s, pos + d.used, end, num, cap, acc + [Int16(d.value)]),
                      ArrayLoop(t, pos + d.used, end, num, cap, acc + [Int16(d.value)]))
    ensures Agrees(ArrayLoop(s, pos, end, num, cap, acc), ArrayLoop(t, pos, end, num, cap, acc))
  {
  }

  /** At the declared count or the expected number of values, the array
      loop stops whatever the bytes are. */
  lemma ArrayLoopStop(s: seq<byte>, pos: nat, end: int, num: int, cap: int, acc: seq<short>)
    requires pos <= |s| && (pos >= end || |acc| == num)
    ensures pos == end ==> ArrayLoop(s, pos, end, num, cap, acc) == Ok(acc, pos)
    ensures pos > end ==> ArrayLoop(s, pos, end, num, cap, acc) == Fail(InvalidArray)
    ensures pos < end ==> ArrayLoop(s, pos, end, num, cap, acc) == Fail(InvalidArraySize)
  {
  }

  /** A value the window cuts short: the loop fails on the window, and on
      the content the value either fails or ends past the declared count. */
  lemma ArrayWindowCut(w: seq<byte>, p: seq<byte>, pos: nat, end: int, num: int, cap: int, acc: seq<short>)
    requires pos < end <= |w| && |acc| != num && Varint5(w[pos..]) == Fail(Truncated)
    requires (w + p)[pos..][..|w| - pos] == w[pos..]
    ensures ArrayLoop(w, pos, end, num, cap, acc).Fail? && ArrayLoop(w + p, pos, end, num, cap, acc).Fail?
  {
    var c := w + p;
    var e := Varint5(c[pos..]);
    if e.Ok? {
      if e.used <= |w| - pos {
        Varint5Prefix(c[pos..], |w| - pos);
        assert false;
      }
      ArrayLoopStep(c, pos, end, num, cap, acc, e.value, e.used);
      if |acc| < cap {
        ArrayLoopPast(c, pos + e.used, end, num, cap, acc + [Int16(e.value)]);
      }
    }
  }

  /** ArrayLoopWindow for a whole array, stated about the outcome `r` of the
      loop over the window. */
  lemma ArrayWindow(w: seq<byte>, p: seq<byte>, c: seq<byte>, bytes: int, num: int, cap: int,
                    r: Decoded<seq<short>>)
    requires r == ArrayLoop(w, 0, bytes, num, cap, []) && (bytes <= |w| || p == []) && c == w + p
    ensures Agrees(r, ArrayLoop(c, 0, bytes, num, cap, []))
  {
    ArrayLoopWindow(w, p, 0, bytes, num, cap, []);
  }

  /** Writing `x` at index `i` of an array whose first `i` elements are
      `acc` and whose rest is still `a0`'s. */
  lemma SlicePrefix<T>(a: seq<T>, i: nat, j: nat, k: nat)
    requires i + k <= j <= |a|
    ensures a[i..j][..k] == a[i..i + k]
  {
  }

  lemma SlotWritten<T>(b0: seq<T>, b1: seq<T>, acc: seq<T>, a0: seq<T>, i: nat, x: T)
    requires i < |b0| == |a0| && b1 == b0[i := x] && b0[..i] == acc && b0[i..] == a0[i..]
    ensures b1[..i + 1] == acc + [x] && b1[i + 1..] == a0[i + 1..]
  {
    assert b0[i + 1..] == b0[i..][1..];
  }

  /** A decoded value the loop stores leaves its outcome as it was. */
  lemma ArrayLoopAdvance(s: seq<byte>, pos: nat, end: int, num: int, cap: int, acc: seq<short>, v: nat, k: nat)
    requires pos < end && pos <= |s| && Varint5(s[pos..]) == Ok(v, k) && |acc| != num && |acc| < cap
    requires ArrayLoop(s, pos, end, num, cap, acc) == ArrayLoop(s, 0, end, num, cap, [])
    ensures pos + k <= |s|
    ensures ArrayLoop(s, pos + k, end, num, cap, acc + [Int16(v)]) == ArrayLoop(s, 0, end, num, cap, [])
  {
    ArrayLoopStep(s, pos, end, num, cap, acc, v, k);
  }

  /** A value that does not decode ends the array loop with its error. */
  lemma ArrayLoopFails(s: seq<byte>, pos: nat, end: int, num: int, cap: int, acc: seq<short>)
    requires pos < end && pos <= |s| && |acc| != num && Varint5(s[pos..]).Fail?
    ensures ArrayLoop(s, pos, end, num, cap, acc) == Fail(Varint5(s[pos..]).error)
  {
  }

  /** Once past the declared count, the array loop fails. */
  lemma ArrayLoopPast(s: seq<byte>, pos: nat, end: int, num: int, cap: int, acc: seq<short>)
    requires end < pos <= |s|
    ensures ArrayLoop(s, pos, end, num, cap, acc).Fail?
  {
  }

  /** decodeVarint32 of a varint of k = 2, 3 or 4 bytes, with its groups
      written out as decodeVarint32 sums them: no narrowing is needed. */
  lemma Varint32Unrolled(s: seq<byte>, k: nat)
    requires 2 <= k <= 4 && k <= |s| && s[k - 1] < 0x80
    requires forall i :: 0 <= i < k - 1 ==> s[i] >= 0x80
    ensures k == 2 ==> Varint32(s) == Ok(Low7(s[0]) + s[1] as int * 0x80, 2)
    ensures k == 3 ==> Varint32(s) == Ok(Low7(s[0]) + Low7(s[1]) * 0x80 + s[2] as int * 0x4000, 3)
    ensures k == 4 ==> Varint32(s) == Ok(Low7(s[0]) + Low7(s[1]) * 0x80 + Low7(s[2]) * 0x4000
                                         + s[3] as int * 0x20_0000, 4)
  {
    Varint32Short(s, k);
    assert s[0] >= 0x80;
    assert k >= 3 ==> s[1] >= 0x80;
    assert k >= 4 ==> s[2] >= 0x80;
  }

  /** decodeVarint32 after four continuation bytes, with the fifth byte added
      whole at bit 28 as decodeVarint32 does. */
  lemma Varint32Long(s: seq<byte>)
    requires |s| >= 5 && s[0] >= 0x80 && s[1] >= 0x80 && s[2] >= 0x80 && s[3] >= 0x80
    ensures Varint32(s) == match SkipUpper(s, 4)
                           case None => Fail(Truncated)
                           case Some(p) =>
                             if p == 9 then Fail(Malformed)
                             else Ok(Int32(Low7(s[0]) + Low7(s[1]) * 0x80 + Low7(s[2]) * 0x4000
                                           + Low7(s[3]) * 0x20_0000 + s[4] as int * 0x1000_0000), p)
  {
    Groups5Wrapped(s);
  }

  /** A varint of two to four bytes: its groups fit an int, so no narrowing. */
  lemma Varint32Short(s: seq<byte>, k: nat)
    requires 2 <= k <= 4 && k <= |s|
    ensures k >= 2 ==> Groups(s[..2]) == Low7(s[0]) + Low7(s[1]) * 0x80
    ensures k >= 3 ==> Groups(s[..3]) == Low7(s[0]) + Low7(s[1]) * 0x80 + Low7(s[2]) * 0x4000
    ensures k >= 4 ==> Groups(s[..4]) == Low7(s[0]) + Low7(s[1]) * 0x80 + Low7(s[2]) * 0x4000
                                         + Low7(s[3]) * 0x20_0000
    ensures Groups(s[..k]) < 0x1000_0000
  {
    GroupsFive(s);
  }

  /** The fifth byte: decodeVarint32 adds the whole byte at bit 28, which differs
      from its group by a multiple of 2^32 and so narrows to the same int. */
  lemma Groups5Wrapped(s: seq<byte>)
    requires |s| >= 5
    ensures Int32(Groups(s[..5])) == Int32(Low7(s[0]) + Low7(s[1]) * 0x80 + Low7(s[2]) * 0x4000
                                           + Low7(s[3]) * 0x20_0000 + s[4] as int * 0x1000_0000)
  {
    GroupsFive(s);
    var raw := Low7(s[0]) + Low7(s[1]) * 0x80 + Low7(s[2]) * 0x4000
               + Low7(s[3]) * 0x20_0000 + s[4] as int * 0x1000_0000;
    var g := Groups(s[..5]);
    if s[4] >= 0x80 {
      assert raw - g == 0x8_0000_0000;
      Int32Congruent(g, raw);
    }
  }

  /** Two numbers with the same low 32 bits narrow to the same int. */
  lemma Int32Congruent(a: int, b: int)
    requires (a - b) % TWO32 == 0
    ensures Int32(a) == Int32(b)
  {
  }

  /** The groups of the first one to five bytes, written out. */
  lemma GroupsFive(s: seq<byte>)
    ensures |s| >= 1 ==> Groups(s[..1]) == Low7(s[0])
    ensures |s| >= 2 ==> Groups(s[..2]) == Low7(s[0]) + Low7(s[1]) * 0x80
    ensures |s| >= 3 ==> Groups(s[..3]) == Low7(s[0]) + Low7(s[1]) * 0x80 + Low7(s[2]) * 0x4000
    ensures |s| >= 4 ==> Groups(s[..4]) == Low7(s[0]) + Low7(s[1]) * 0x80 + Low7(s[2]) * 0x4000
                                           + Low7(s[3]) * 0x20_0000
    ensures |s| >= 5 ==> Groups(s[..5]) == Low7(s[0]) + Low7(s[1]) * 0x80 + Low7(s[2]) * 0x4000
                                           + Low7(s[3]) * 0x20_0000 + Low7(s[4]) * 0x1000_0000
  {
    if |s| >= 1 {
      assert s[..1] == [] + [s[0]];
      GroupsSnoc([], s[0]);
    }
    if |s| >= 2 {
      assert s[..2] == s[..1] + [s[1]];
      GroupsSnoc(s[..1], s[1]);
    }
    if |s| >= 3 {
      assert s[..3] == s[..2] + [s[2]];
      GroupsSnoc(s[..2], s[2]);
    }
    if |s| >= 4 {
      assert s[..4] == s[..3] + [s[3]];
      GroupsSnoc(s[..3], s[3]);
    }
    if |s| >= 5 {
      assert s[..5] == s[..4] + [s[4]];
      GroupsSnoc(s[..4], s[4]);
      assert Pow128(4) == 0x1000_0000;
    }
  }

  /** 128 to the power n. */
  function Pow128(n: nat): nat {
    if n == 0 then 1 else 0x80 * Pow128(n - 1)
  }

  /** Appending a byte adds its group at the next position. */
  lemma {:induction false} GroupsSnoc(t: seq<byte>, b: byte)
    ensures Groups(t + [b]) == Groups(t) + Low7(b) * Pow128(|t|)
    decreases |t|
  {
    if t == [] {
      assert [b][1..] == [];
    } else {
      assert (t + [b])[1..] == t[1..] + [b];
      GroupsSnoc(t[1..], b);
      var q := Pow128(|t| - 1);
      assert Low7(b) * Pow128(|t|) == 0x80 * (Low7(b) * q);
    }
  }

  /** The window decides decodeVarint32 whenever it holds nine bytes or all of
      the content, and what remains after the varint is the rest of the window
      followed by the bytes still pending. */
  lemma Varint32Window(w: seq<byte>, p: seq<byte>, r: Decoded<int>)
    requires r == Varint32(w) && (|w| >= 9 || p == [])
    ensures Varint32(w + p) == r
    ensures r.Ok? ==> (w + p)[r.used..] == w[r.used..] + p
  {
    if |w| >= 9 {
      Varint32Decided(w);
      assert (w + p)[..|w|] == w;
      Varint32Extend(w + p, |w|);
    } else {
      assert w + p == w;
    }
  }

  // ---------------------------------------------------------------------------
  // Properties

  /** What readBuffer's answer means: false only when the content holds at
      most `size` more bytes; true whenever more than `size` are buffered or
      the stream delivers its whole content (even a content shorter than
      `size`, whose end is then reached). */
  lemma ReadyMeaning(w: nat, size: int, budget: nat, avail: nat)
    ensures !ReadyAsWritten(w, size, budget, avail) ==> w + Min(budget, avail) <= size
    ensures w > size ==> ReadyAsWritten(w, size, budget, avail)
    ensures 0 < budget <= avail ==> ReadyAsWritten(w, size, budget, avail)
  {
  }

  /** The early return of readBuffer compares with `<`, so exactly `size`
      buffered bytes at the end of the content answer false, while the same
      content still in the stream answers true. */
  lemma ReadyOffByOne(size: nat)
    requires size >= 1
    ensures !ReadyAsWritten(size, size, 0, 0) && size + Min(0, 0) == size
    ensures ReadyAsWritten(0, size, size, size) && 0 + Min(size, size) == size
  {
  }

  /** Java's hasData depends on how the stream was chunked: one content
      byte already buffered answers false, one content byte still in the
      stream answers true. */
  lemma HasDataDependsOnBuffering()
    ensures 1 + Min(0, 0) == 0 + Min(1, 1) == 1
    ensures !ReadyAsWritten(1, 1, 0, 0) && ReadyAsWritten(0, 1, 1, 1)
  {
  }

  /** Java's skip moves the read position past the buffered window: a
      one-byte window holding the length 3 moves it four bytes on. */
  lemma SkipAsWrittenOverruns()
    ensures SkipAsWrittenPos([3]) == Some(4) && 4 > |[3]|
  {
    Varint32SingleByte(3, []);
    assert [3] + [] == [3];
  }

  /** Where the string is all there, Skip moves past exactly the bytes decodeString returns. */
  lemma SkipMatchesString(s: seq<byte>)
    ensures LengthPrefixed(s).Ok? ==>
              SkipAsWrittenPos(s) == Some(LengthPrefixed(s).used)
  {
  }

  /** The concatenation of the encodings of `vs`. */
  function EncodeAll(vs: seq<nat>): (r: seq<byte>)
    ensures vs == [] <==> r == []
  {
    if vs == [] then [] else EncodeVarint(vs[0]) + EncodeAll(vs[1..])
  }

  /** Each value narrowed to a short, as decodeVarintArray stores it. */
  function Shorts(vs: seq<nat>): (r: seq<short>)
    ensures |r| == |vs|
  {
    if vs == [] then [] else [Int16(vs[0])] + Shorts(vs[1..])
  }

  /** Each stored short is its value narrowed to 16 bits. */
  lemma {:induction false} ShortsNarrow(vs: seq<nat>)
    ensures forall i :: 0 <= i < |vs| ==> Shorts(vs)[i] == Int16(vs[i])
  {
    if vs != [] {
      ShortsNarrow(vs[1..]);
      forall i | 0 <= i < |vs| ensures Shorts(vs)[i] == Int16(vs[i]) {
        if i > 0 {
          assert Shorts(vs)[i] == Shorts(vs[1..])[i - 1];
        }
      }
    }
  }

  predicate FitsVarint5(vs: seq<nat>) {
    forall i :: 0 <= i < |vs| ==> vs[i] < 0x8_0000_0000
  }

  /** The array loop over encoded values succeeds exactly when they all fit
      the array and do not exceed the declared count, and then stores each
      value narrowed to a short. */
  /** What the array loop makes of values that all decode: the first check
      that stops it (the count, then the capacity) decides, and otherwise the
      narrowed values follow `acc`. */
  function ArrayOutcome(vs: seq<nat>, end: nat, num: int, cap: int, acc: seq<short>): Decoded<seq<short>>
    decreases |vs|
  {
    if vs == [] then Ok(acc, end)
    else if |acc| == num then Fail(InvalidArraySize)
    else if |acc| >= cap then Fail(OutOfBounds)
    else ArrayOutcome(vs[1..], end, num, cap, acc + [Int16(vs[0])])
  }

  /** The array loop over the encoded values has that outcome. */
  lemma {:induction false} ArrayLoopEncoded(s: seq<byte>, pos: nat, end: int, vs: seq<nat>, rest: seq<byte>,
                                            num: int, cap: int, acc: seq<short>)
    requires FitsVarint5(vs) && pos <= |s| && s[pos..] == EncodeAll(vs) + rest
    requires end == pos + |EncodeAll(vs)|
    ensures ArrayLoop(s, pos, end, num, cap, acc) == ArrayOutcome(vs, end, num, cap, acc)
    decreases |vs|
  {
    if vs == [] {
      assert end == pos;
    } else {
      var k := |EncodeVarint(vs[0])|;
      EncodedHead(s, pos, vs, rest);
      ArrayLoopStep(s, pos, end, num, cap, acc, vs[0], k);
      if |acc| != num && |acc| < cap {
        ArrayLoopEncoded(s, pos + k, end, vs[1..], rest, num, cap, acc + [Int16(vs[0])]);
      }
    }
  }

  /** The outcome succeeds exactly when neither the count nor the capacity
      is reached before the last value, and then holds every value. */
  lemma {:induction false} ArrayOutcomeOk(vs: seq<nat>, end: nat, num: int, cap: int, acc: seq<short>)
    requires num < 0 || |acc| <= num
    ensures ArrayOutcome(vs, end, num, cap, acc).Ok?
            <==> (vs == [] || (|acc| + |vs| <= cap && (num < 0 || |acc| + |vs| <= num)))
    ensures ArrayOutcome(vs, end, num, cap, acc).Ok? ==>
            ArrayOutcome(vs, end, num, cap, acc) == Ok(acc + Shorts(vs), end)
    decreases |vs|
  {
    if vs == [] {
      assert acc + Shorts(vs) == acc;
    } else if |acc| != num && |acc| < cap {
      ArrayOutcomeOk(vs[1..], end, num, cap, acc + [Int16(vs[0])]);
      ShortsCons(acc, vs);
    }
  }

  lemma ShortsCons(acc: seq<short>, vs: seq<nat>)
    requires vs != []
    ensures acc + [Int16(vs[0])] + Shorts(vs[1..]) == acc + Shorts(vs)
  {
    assert Shorts(vs) == [Int16(vs[0])] + Shorts(vs[1..]);
    Assoc3(acc, [Int16(vs[0])], Shorts(vs[1..]));
  }

  /** One turn of the array loop, on a value that decodes. */
  lemma ArrayLoopStep(s: seq<byte>, pos: nat, end: int, num: int, cap: int, acc: seq<short>, v: nat, k: nat)
    requires pos < end && pos <= |s| && Varint5(s[pos..]) == Ok(v, k)
    ensures |acc| == num ==> ArrayLoop(s, pos, end, num, cap, acc) == Fail(InvalidArraySize)
    ensures |acc| != num && |acc| >= cap ==> ArrayLoop(s, pos, end, num, cap, acc) == Fail(OutOfBounds)
    ensures |acc| != num && |acc| < cap ==>
              ArrayLoop(s, pos, end, num, cap, acc) == ArrayLoop(s, pos + k, end, num, cap, acc + [Int16(v)])
  {
  }

  /** The first encoded value decodes to itself, and the others follow it. */
  lemma EncodedHead(s: seq<byte>, pos: nat, vs: seq<nat>, rest: seq<byte>)
    requires vs != [] && FitsVarint5(vs) && pos <= |s| && s[pos..] == EncodeAll(vs) + rest
    ensures Varint5(s[pos..]) == Ok(vs[0], |EncodeVarint(vs[0])|)
    ensures |EncodeAll(vs)| == |EncodeVarint(vs[0])| + |EncodeAll(vs[1..])|
    ensures s[pos + |EncodeVarint(vs[0])|..] == EncodeAll(vs[1..]) + rest
    ensures FitsVarint5(vs[1..])
  {
    EncodedFirst(s, pos, vs, rest);
    SplitAfter(s, pos, EncodeVarint(vs[0]), EncodeAll(vs[1..]) + rest);
  }

  lemma EncodedFirst(s: seq<byte>, pos: nat, vs: seq<nat>, rest: seq<byte>)
    requires vs != [] && FitsVarint5(vs) && pos <= |s| && s[pos..] == EncodeAll(vs) + rest
    ensures Varint5(s[pos..]) == Ok(vs[0], |EncodeVarint(vs[0])|)
    ensures s[pos..] == EncodeVarint(vs[0]) + (EncodeAll(vs[1..]) + rest)
    ensures FitsVarint5(vs[1..])
  {
    FitsTail(vs);
    EncodeAllCons(vs, rest);
    Varint5Encoded(s[pos..], vs[0], EncodeAll(vs[1..]) + rest);
  }

  lemma EncodeAllCons(vs: seq<nat>, rest: seq<byte>)
    requires vs != []
    ensures EncodeAll(vs) + rest == EncodeVarint(vs[0]) + (EncodeAll(vs[1..]) + rest)
  {
    assert EncodeAll(vs) == EncodeVarint(vs[0]) + EncodeAll(vs[1..]);
    Assoc3(EncodeVarint(vs[0]), EncodeAll(vs[1..]), rest);
  }

  lemma Varint5Encoded(s: seq<byte>, v: nat, rest: seq<byte>)
    requires v < 0x8_0000_0000 && s == EncodeVarint(v) + rest
    ensures Varint5(s) == Ok(v, |EncodeVarint(v)|)
  {
    Varint5RoundTrip(v, rest);
  }

  lemma SplitAfter(s: seq<byte>, pos: nat, e: seq<byte>, t: seq<byte>)
    requires pos <= |s| && s[pos..] == e + t
    ensures s[pos + |e|..] == t
  {
    assert s[pos..][|e|..] == t;
  }

  lemma FitsTail(vs: seq<nat>)
    requires vs != [] && FitsVarint5(vs)
    ensures FitsVarint5(vs[1..]) && vs[0] < 0x8_0000_0000
  {
    forall i | 0 <= i < |vs[1..]| ensures vs[1..][i] < 0x8_0000_0000 {
      assert vs[1..][i] == vs[i + 1];
    }
  }

  /** Round trip of decodeVarintArray: the byte count, then the encoded values. */
  lemma VarintArrayRoundTrip(vs: seq<nat>, num: int, cap: int, rest: seq<byte>)
    requires FitsVarint5(vs) && |EncodeAll(vs)| < 0x8000_0000
    ensures var n := |EncodeVarint(|EncodeAll(vs)|)|;
            var r := VarintArray(EncodeVarint(|EncodeAll(vs)|) + EncodeAll(vs) + rest, num, cap);
            (r.Ok? <==> (vs == [] || (|vs| <= cap && (num < 0 || |vs| <= num))))
            && (r.Ok? ==> r == Ok(Shorts(vs), n + |EncodeAll(vs)|))
  {
    var e := EncodeAll(vs);
    var h := EncodeVarint(|e|);
    var s := h + e + rest;
    Assoc3(h, e, rest);
    Varint32RoundTrip(|e|, e + rest);
    assert s[|h|..] == e + rest;
    VarintArrayHeader(s, e + rest, |e|, |h|, num, cap);
    ArrayLoopFromStart(e + rest, vs, rest, num, cap);
    var a := ArrayLoop(e + rest, 0, |e|, num, cap, []);
    var r := VarintArray(s, num, cap);
    assert r.Ok? <==> a.Ok?;
    if a.Ok? {
      assert r == Ok(Shorts(vs), |h| + |e|);
    }
  }

  /** The array loop from its start over encoded values. */
  lemma ArrayLoopFromStart(t: seq<byte>, vs: seq<nat>, rest: seq<byte>, num: int, cap: int)
    requires FitsVarint5(vs) && t == EncodeAll(vs) + rest
    ensures ArrayLoop(t, 0, |EncodeAll(vs)|, num, cap, []).Ok?
            <==> (vs == [] || (|vs| <= cap && (num < 0 || |vs| <= num)))
    ensures ArrayLoop(t, 0, |EncodeAll(vs)|, num, cap, []).Ok? ==>
            ArrayLoop(t, 0, |EncodeAll(vs)|, num, cap, []) == Ok(Shorts(vs), |EncodeAll(vs)|)
  {
    ArrayLoopEncoded(t, 0, |EncodeAll(vs)|, vs, rest, num, cap, []);
    ArrayOutcomeOk(vs, |EncodeAll(vs)|, num, cap, []);
    assert [] + Shorts(vs) == Shorts(vs);
  }

  /** decodeVarintArray once the byte count has been read. */
  lemma VarintArrayHeader(s: seq<byte>, t: seq<byte>, bytes: int, n: nat, num: int, cap: int)
    requires n <= |s| && Varint32(s) == Ok(bytes, n) && t == s[n..]
    ensures VarintArray(s, num, cap).Ok? <==> ArrayLoop(t, 0, bytes, num, cap, []).Ok?
    ensures VarintArray(s, num, cap).Ok? ==>
              VarintArray(s, num, cap).value == ArrayLoop(t, 0, bytes, num, cap, []).value
              && VarintArray(s, num, cap).used == n + ArrayLoop(t, 0, bytes, num, cap, []).used
  {
  }
}
