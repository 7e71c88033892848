/** Byte-level primitives shared by the stream decoder, the tile decoder and the
    HTTP framing: Java's fixed-width integers, the error kinds of a failed decode,
    and the two base-128 varint readers the decoder uses. */
module Wire {

  /** One element of a Java byte[], as its unsigned value. Java's signed
      test `b >= 0` is `b < 0x80` here: the continuation bit is clear. */
  type byte = b: int | 0 <= b < 0x100

  /** A Java short. */
  type short = s: int | -0x8000 <= s < 0x8000

  const TWO32: int := 0x1_0000_0000

  predicate IsInt32(x: int) {
    -0x8000_0000 <= x < 0x8000_0000
  }

  /** Java's narrowing to int: the low 32 bits, read as two's complement. */
  function Int32(u: int): (r: int)
    ensures IsInt32(r)
    ensures IsInt32(u) ==> r == u
  {
    var m := u % TWO32;
    if m < 0x8000_0000 then m else m - TWO32
  }

  /** The narrowing keeps the value modulo 2^32. */
  lemma Int32Congruent(u: int)
    ensures (Int32(u) - u) % TWO32 == 0
  {
  }

  /** Adding to a narrowed int and narrowing again is narrowing the exact sum:
      Java's int additions can be narrowed once at the end. */
  lemma Int32Shift(a: int, b: int)
    ensures Int32(Int32(a) + b) == Int32(a + b)
  {
    var k := (Int32(a) - a) / TWO32;
    assert Int32(a) == a + k * TWO32 by {
      Int32Congruent(a);
    }
    assert (Int32(a) + b) % TWO32 == (a + b) % TWO32 by {
      assert Int32(a) + b == (a + b) + k * TWO32;
    }
  }

  /** Java's cast `(short)`: the low 16 bits, read as two's complement. */
  function Int16(u: int): (r: short)
    ensures -0x8000 <= u < 0x8000 ==> r == u
  {
    var m := u % 0x1_0000;
    if m < 0x8000 then m else m - 0x1_0000
  }

  /** The narrowing keeps the value modulo 2^16. */
  lemma Int16Congruent(u: int)
    ensures (Int16(u) - u) % 0x1_0000 == 0
  {
  }

  /** Java's cast `(byte)`: the low 8 bits, read as two's complement. */
  function Int8(u: int): (r: int)
    ensures -0x80 <= r < 0x80
    ensures -0x80 <= u < 0x80 ==> r == u
  {
    var m := u % 0x100;
    if m < 0x80 then m else m - 0x100
  }

  /** The narrowing keeps the value modulo 2^8. */
  lemma Int8Congruent(u: int)
    ensures (Int8(u) - u) % 0x100 == 0
  {
  }

  /** The low 32 bits of an int as an unsigned number: what `>>>` and `& 1` see. */
  function Unsigned32(x: int): (r: nat)
    ensures r < TWO32
    ensures 0 <= x < TWO32 ==> r == x
  {
    x % TWO32
  }

  /** Why a decode step failed. Truncated: the step needed a byte that the
      content does not hold. The others name the exceptions Java throws (an
      IOException message, an array index, a null dereference, a negative
      array size). */
  datatype Error =
    | Truncated
    | Malformed          // "malformed VarInt32"
    | InvalidArraySize   // "invalid array size"
    | InvalidArray       // "invalid array": consumed bytes differ from the declared count
    | OutOfBounds
    | NullReference
    | NegativeSize

  /** A decoded value together with the number of content bytes it took. */
  datatype Decoded<T> = Ok(value: T, used: nat) | Fail(error: Error)

  /** Two outcomes agree when they are equal, or both are failures (the kind of
      failure may depend on how much of the stream happened to be buffered). */
  predicate Agrees<T(==)>(a: Decoded<T>, b: Decoded<T>) {
    a == b || (a.Fail? && b.Fail?)
  }

  /** A result read after `n` bytes were already taken: the same value,
      with those bytes counted in. */
  function After<T>(n: nat, r: Decoded<T>): Decoded<T> {
    match r
    case Ok(v, k) => Ok(v, n + k)
    case Fail(e) => Fail(e)
  }

  /** `b & 0x7f`: the seven data bits of a varint byte. */
  function Low7(b: byte): (r: int)
    ensures 0 <= r < 0x80 && (b < 0x80 ==> r == b) && (b >= 0x80 ==> r == b - 0x80)
  {
    b as int % 0x80
  }

  /** The base-128 groups of `s`, least significant first: the sum of
      (s[i] & 0x7f) << 7i. */
  function Groups(s: seq<byte>): nat
  {
    if s == [] then 0 else s[0] % 0x80 + 0x80 * Groups(s[1..])
  }

  /** The discard loop of decodeVarint32: starting at the fifth byte, move past
      bytes until one without continuation bit has been passed or the window of
      VARINT_LIMIT = 5 bytes ends. None: a byte it needed is not in `s`. */
  function SkipUpper(s: seq<byte>, pos: nat): (r: Option<nat>)
    requires 4 <= pos <= 9
    ensures r.Some? ==> pos < r.value <= 9 || (pos == 9 && r.value == 9)
    decreases 9 - pos
  {
    if pos == 9 then Some(9)
    else if pos >= |s| then None
    else if s[pos] < 0x80 then Some(pos + 1)
    else SkipUpper(s, pos + 1)
  }

  datatype Option<T> = None | Some(value: T)

  /** decodeVarint32 on the bytes `s` that follow the read position: one to four
      bytes give their groups; after four continuation bytes the fifth byte adds
      its bits from position 28 on (with 32-bit wrap-around) and the discard loop
      decides the length. */
  function Varint32(s: seq<byte>): (r: Decoded<int>)
    ensures r.Ok? ==> 1 <= r.used <= 8 && r.used <= |s| && IsInt32(r.value)
  {
    if |s| < 1 then Fail(Truncated)
    else if s[0] < 0x80 then Ok(s[0], 1)
    else if |s| < 2 then Fail(Truncated)
    else if s[1] < 0x80 then Ok(Int32(Groups(s[..2])), 2)
    else if |s| < 3 then Fail(Truncated)
    else if s[2] < 0x80 then Ok(Int32(Groups(s[..3])), 3)
    else if |s| < 4 then Fail(Truncated)
    else if s[3] < 0x80 then Ok(Int32(Groups(s[..4])), 4)
    else if |s| < 5 then Fail(Truncated)
    else
      match SkipUpper(s, 4)
      case None => Fail(Truncated)
      case Some(p) => if p == 9 then Fail(Malformed) else Ok(Int32(Groups(s[..5])), p)
  }

  /** The varint reader inlined in decodeVarintArray and decodeInterleavedPoints:
      at most five bytes, and a fifth byte with continuation bit is malformed.
      The value is the raw sum of the groups; each caller narrows it. */
  function Varint5(s: seq<byte>): (r: Decoded<nat>)
    ensures r.Ok? ==> 1 <= r.used <= 5 && r.used <= |s| && r.value == Groups(s[..r.used])
  {
    if |s| < 1 then Fail(Truncated)
    else if s[0] < 0x80 then Ok(Groups(s[..1]), 1)
    else if |s| < 2 then Fail(Truncated)
    else if s[1] < 0x80 then Ok(Groups(s[..2]), 2)
    else if |s| < 3 then Fail(Truncated)
    else if s[2] < 0x80 then Ok(Groups(s[..3]), 3)
    else if |s| < 4 then Fail(Truncated)
    else if s[3] < 0x80 then Ok(Groups(s[..4]), 4)
    else if |s| < 5 then Fail(Truncated)
    else if s[4] < 0x80 then Ok(Groups(s[..5]), 5)
    else Fail(Malformed)
  }

  /** The encoder the server uses: seven bits per byte, least significant
      first, continuation bit on every byte but the last. */
  function EncodeVarint(v: nat): (r: seq<byte>)
    ensures 1 <= |r|
    decreases v
  {
    if v < 0x80 then [v] else [v % 0x80 + 0x80] + EncodeVarint(v / 0x80)
  }

  /** A varint whose every byte before the last carries the continuation bit. */
  predicate Terminates(s: seq<byte>) {
    |s| >= 1 && s[|s| - 1] < 0x80 && forall i :: 0 <= i < |s| - 1 ==> s[i] >= 0x80
  }

  // ---------------------------------------------------------------------------
  // Properties of the readers

  /** A varint of n <= 5 bytes decodes to its groups, narrowed to int (so the
      fifth group wraps around at bit 32), and decodeVarint32 moves past exactly
      n bytes. */
  lemma Varint32OfTerminated(s: seq<byte>, n: nat)
    requires 1 <= n <= 5 && n <= |s| && Terminates(s[..n])
    ensures Varint32(s) == Ok(Int32(Groups(s[..n])), n)
  {
    assert forall i :: 0 <= i < n ==> s[i] == s[..n][i];
    if n == 1 {
      assert s[..1][1..] == [];
    }
    if n == 5 {
      assert SkipUpper(s, 4) == Some(5);
    }
  }

  /** A single byte without continuation bit decodes to itself. */
  lemma Varint32SingleByte(b: byte, rest: seq<byte>)
    requires b < 0x80
    ensures Varint32([b] + rest) == Ok(b, 1)
  {
  }

  /** What the encoder produces is a terminated varint whose groups are the
      encoded number; a number below 2^32 takes at most five bytes. */
  lemma {:induction false} EncodeVarintShape(v: nat)
    ensures Terminates(EncodeVarint(v)) && Groups(EncodeVarint(v)) == v
    ensures v < 0x80 <==> |EncodeVarint(v)| == 1
    ensures v < 0x4000 ==> |EncodeVarint(v)| <= 2
    ensures v < 0x20_0000 ==> |EncodeVarint(v)| <= 3
    ensures v < 0x1000_0000 ==> |EncodeVarint(v)| <= 4
    ensures v < 0x8_0000_0000 ==> |EncodeVarint(v)| <= 5
    decreases v
  {
    if v >= 0x80 {
      EncodeVarintShape(v / 0x80);
      var t := EncodeVarint(v / 0x80);
      var e := [v % 0x80 + 0x80] + t;
      assert EncodeVarint(v) == e;
      assert e[1..] == t;
      assert forall i :: 1 <= i < |e| ==> e[i] == t[i - 1];
      assert Groups(e) == v % 0x80 + 0x80 * (v / 0x80);
    }
  }

  /** Round trip: every 32-bit unsigned value survives encoding followed by
      decodeVarint32, whatever follows it, and reads back as the Java int with
      the same bits. */
  lemma Varint32RoundTrip(v: nat, rest: seq<byte>)
    requires v < TWO32
    ensures Varint32(EncodeVarint(v) + rest) == Ok(Int32(v), |EncodeVarint(v)|)
  {
    EncodeVarintShape(v);
    var e := EncodeVarint(v);
    assert (e + rest)[..|e|] == e;
    Varint32OfTerminated(e + rest, |e|);
  }

  /** Round trip for the five-byte reader of arrays and coordinates. */
  lemma Varint5RoundTrip(v: nat, rest: seq<byte>)
    requires v < 0x8_0000_0000
    ensures Varint5(EncodeVarint(v) + rest) == Ok(v, |EncodeVarint(v)|)
  {
    EncodeVarintShape(v);
    var e := EncodeVarint(v);
    var s := e + rest;
    assert s[..|e|] == e;
    assert forall i :: 0 <= i < |e| ==> s[i] == e[i];
  }

  /** decodeVarint32 reports "malformed" exactly when the eight bytes from the
      read position all carry the continuation bit and a ninth byte is there to
      be passed: the discard loop also rejects a varint that ends at its ninth
      byte. */
  lemma Varint32MalformedIff(s: seq<byte>)
    ensures Varint32(s) == Fail(Malformed) <==>
            |s| >= 9 && forall i :: 0 <= i < 8 ==> s[i] >= 0x80
  {
    if |s| >= 5 && forall i :: 0 <= i < 4 ==> s[i] >= 0x80 {
      SkipUpperMalformed(s, 4);
    }
  }

  lemma {:induction false} SkipUpperMalformed(s: seq<byte>, pos: nat)
    requires 4 <= pos <= 9
    ensures SkipUpper(s, pos) == Some(9) <==>
            pos == 9 || (|s| >= 9 && forall i :: pos <= i < 8 ==> s[i] >= 0x80)
    decreases 9 - pos
  {
    if pos < 9 && pos < |s| && s[pos] >= 0x80 {
      SkipUpperMalformed(s, pos + 1);
    }
  }

  /** The five-byte reader is malformed exactly when five continuation bytes
      are there. */
  lemma Varint5MalformedIff(s: seq<byte>)
    ensures Varint5(s) == Fail(Malformed) <==>
            |s| >= 5 && forall i :: 0 <= i < 5 ==> s[i] >= 0x80
  {
  }

  lemma {:induction false} SkipUpperExtend(s: seq<byte>, k: nat, pos: nat)
    requires k <= |s| && 4 <= pos <= 9 && SkipUpper(s[..k], pos).Some?
    ensures SkipUpper(s, pos) == SkipUpper(s[..k], pos)
    decreases 9 - pos
  {
    if pos < 9 && s[..k][pos] >= 0x80 {
      SkipUpperExtend(s, k, pos + 1);
    }
  }

  /** Reading more of the stream cannot change a varint that was already
      decided: if the first k bytes do not leave decodeVarint32 short of input,
      the whole sequence decodes the same way. */
  lemma Varint32Extend(s: seq<byte>, k: nat)
    requires k <= |s| && Varint32(s[..k]) != Fail(Truncated)
    ensures Varint32(s) == Varint32(s[..k])
  {
    var t := s[..k];
    assert forall i :: 0 <= i < k ==> t[i] == s[i];
    forall n | 0 <= n <= k ensures t[..n] == s[..n] { }
    if |t| >= 5 && forall i :: 0 <= i < 4 ==> t[i] >= 0x80 {
      SkipUpperExtend(s, k, 4);
    }
  }

  /** Nine bytes always decide decodeVarint32. */
  lemma Varint32Decided(s: seq<byte>)
    requires |s| >= 9
    ensures Varint32(s) != Fail(Truncated)
  {
    SkipUpperDecided(s, 4);
  }

  lemma {:induction false} SkipUpperDecided(s: seq<byte>, pos: nat)
    requires |s| >= 9 && 4 <= pos <= 9
    ensures SkipUpper(s, pos).Some?
    decreases 9 - pos
  {
    if pos < 9 && s[pos] >= 0x80 {
      SkipUpperDecided(s, pos + 1);
    }
  }

  /** The same for the five-byte reader. */
  lemma Varint5Extend(s: seq<byte>, k: nat)
    requires k <= |s| && Varint5(s[..k]) != Fail(Truncated)
    ensures Varint5(s) == Varint5(s[..k])
  {
    var t := s[..k];
    assert forall i :: 0 <= i < k ==> t[i] == s[i];
    forall n | 0 <= n <= k ensures t[..n] == s[..n] { }
  }

  /** Concatenation is associative. */
  lemma DropDrop<T>(s: seq<T>, a: nat, b: nat)
    requires a + b <= |s|
    ensures s[a..][b..] == s[a + b..]
  {
  }

  lemma Assoc3<T>(a: seq<T>, b: seq<T>, c: seq<T>)
    ensures a + (b + c) == a + b + c
  {
  }
}
