/** The framed message codec: a 16-byte little-endian header followed by the payload. */
module Codec {
  import opened Options

  type Byte = x: nat | x < 256
  type Uint32 = x: nat | x < 0x1_0000_0000

  const HDR_SIZE: nat := 16
  const MAGIC: seq<Byte> := [68, 69, 77, 79]  // "DEMO"
  const FLAGS: seq<Byte> := [0, 1, 0, 0]      // little-endian, version 1, not compressed, reserved

  datatype Message = Message(id: Uint32, payload: seq<Byte>)
  datatype Error = Eof | ReadFailed | InvalidMagic | InvalidFlags | BeyondLimit
  datatype Result = Ok(msg: Message) | Err(error: Error)

  // Little-endian integers

  function Pow256(k: nat): (p: nat)
    ensures p > 0
  {
    if k == 0 then 1 else 256 * Pow256(k - 1)
  }

  function ToLe(n: nat, k: nat): (b: seq<Byte>)
    ensures |b| == k
  {
    if k == 0 then [] else [n % 256] + ToLe(n / 256, k - 1)
  }

  function FromLe(b: seq<Byte>): (n: nat)
    ensures n < Pow256(|b|)
  {
    if b == [] then 0 else (b[0] as int) + 256 * FromLe(b[1..])
  }

  lemma {:induction false} LeRoundTrip(n: nat, k: nat)
    requires n < Pow256(k)
    ensures FromLe(ToLe(n, k)) == n
  {
    if k > 0 {
      LeRoundTrip(n / 256, k - 1);
      assert ToLe(n, k)[1..] == ToLe(n / 256, k - 1);
    }
  }

  lemma {:induction false} FromLeRoundTrip(b: seq<Byte>)
    ensures ToLe(FromLe(b), |b|) == b
  {
    if b != [] {
      FromLeRoundTrip(b[1..]);
      LowByte(b[0], FromLe(b[1..]));
    }
  }

  lemma LowByte(low: Byte, high: nat)
    ensures ((low as int) + 256 * high) % 256 == low && ((low as int) + 256 * high) / 256 == high
  {
  }

  lemma Width32()
    ensures Pow256(4) == 0x1_0000_0000
  {
    assert Pow256(4) == 256 * Pow256(3);
    assert Pow256(3) == 256 * Pow256(2);
  }

  function Le32(n: Uint32): (b: seq<Byte>)
    ensures |b| == 4
  {
    ToLe(n, 4)
  }

  function FromLe32(b: seq<Byte>): Uint32
    requires |b| == 4
  {
    Width32();
    FromLe(b)
  }

  lemma Le32RoundTrip(n: Uint32)
    ensures FromLe32(Le32(n)) == n
  {
    Width32();
    LeRoundTrip(n, 4);
  }

  lemma FromLe32RoundTrip(b: seq<Byte>)
    requires |b| == 4
    ensures Le32(FromLe32(b)) == b
  {
    FromLeRoundTrip(b);
  }

  /** The lowest byte comes first. */
  lemma {:induction false} ToLeAt(n: nat, k: nat, i: nat)
    requires i < k
    ensures ToLe(n, k)[i] == n / Pow256(i) % 256
  {
    if i > 0 {
      ToLeAt(n / 256, k - 1, i - 1);
      DivDiv(n, Pow256(i - 1));
    }
  }

  lemma DivDiv(n: nat, d: nat)
    requires d > 0
    ensures n / 256 / d == n / (256 * d)
  {
    var q := n / 256;
    var p, r := q / d, 256 * (q % d) + n % 256;
    assert q == d * p + q % d && n == 256 * q + n % 256;
    Expanded(d, p, q % d, n % 256);
    QuotientUnique(n, 256 * d, p, r);
  }

  lemma Expanded(d: nat, p: nat, s: nat, t: nat)
    ensures 256 * (d * p + s) + t == (256 * d) * p + (256 * s + t)
  {
  }

  lemma QuotientUnique(n: nat, d: nat, p: nat, r: nat)
    requires n == d * p + r && r < d
    ensures n / d == p
  {
    var q, s := n / d, n % d;
    assert n == d * q + s;
    SmallMultiple(d, q - p, r - s);
  }

  lemma SmallMultiple(d: int, x: int, y: int)
    requires 0 < d && d * x == y && -d < y < d
    ensures x == 0
  {
  }

  // What the codec means, on byte sequences

  /** The length field holds only 32 bits of the payload length. */
  function LengthField(payload: seq<Byte>): Uint32
  {
    |payload| % 0x1_0000_0000
  }

  function Header(id: Uint32, len: Uint32): (h: seq<Byte>)
    ensures |h| == HDR_SIZE
  {
    MAGIC + FLAGS + Le32(id) + Le32(len)
  }

  function Encoded(m: Message): seq<Byte>
  {
    Header(m.id, LengthField(m.payload)) + m.payload
  }

  function EncodedAll(ms: seq<Message>): seq<Byte>
  {
    if ms == [] then [] else Encoded(ms[0]) + EncodedAll(ms[1..])
  }

  /** The outcome of decoding a byte stream, and the bytes left unread. A header that is refused stays
      unread; a payload cut short is lost with its header. */
  function Decoded(limit: Uint32, data: seq<Byte>): (Result, seq<Byte>)
  {
    if |data| < HDR_SIZE then (Err(Eof), data)
    else if data[..4] != MAGIC then (Err(InvalidMagic), data)
    else if data[4..8] != FLAGS then (Err(InvalidFlags), data)
    else
      var id, len := FromLe32(data[8..12]), FromLe32(data[12..16]);
      if limit > 0 && len > limit then (Err(BeyondLimit), data)
      else if |data| < HDR_SIZE + len then (Err(Eof), [])
      else (Ok(Message(id, data[HDR_SIZE..HDR_SIZE + len])), data[HDR_SIZE + len..])
  }

  /** The message fits the length field and the limit, where zero means no limit. */
  predicate Fits(limit: Uint32, m: Message)
  {
    |m.payload| < 0x1_0000_0000 && (limit == 0 || |m.payload| <= limit)
  }

  predicate AllFit(limit: Uint32, ms: seq<Message>)
  {
    forall i :: 0 <= i < |ms| ==> Fits(limit, ms[i])
  }

  lemma HeaderFields(id: Uint32, len: Uint32, rest: seq<Byte>)
    ensures var data := Header(id, len) + rest;
      && data[..4] == MAGIC && data[4..8] == FLAGS
      && FromLe32(data[8..12]) == id && FromLe32(data[12..16]) == len && data[HDR_SIZE..] == rest
  {
    var data := Header(id, len) + rest;
    assert data[8..12] == Le32(id) && data[12..16] == Le32(len);
    Le32RoundTrip(id);
    Le32RoundTrip(len);
  }

  /** The bytes on the wire: D, E, M, O, the four flags, then id and length with the lowest byte first,
      then the payload. */
  lemma WireFormat(m: Message)
    ensures var w, n := Encoded(m), |m.payload| % 0x1_0000_0000;
      && |w| == 16 + |m.payload|
      && w[0] == 68 && w[1] == 69 && w[2] == 77 && w[3] == 79
      && w[4] == 0 && w[5] == 1 && w[6] == 0 && w[7] == 0
      && w[8] == m.id % 256 && w[9] == m.id / 256 % 256 && w[10] == m.id / 65536 % 256 && w[11] == m.id / 16777216
      && w[12] == n % 256 && w[13] == n / 256 % 256 && w[14] == n / 65536 % 256 && w[15] == n / 16777216
      && w[16..] == m.payload
  {
    Le32At(m.id);
    Le32At(LengthField(m.payload));
    var a, b := Le32(m.id), Le32(LengthField(m.payload));
    hide Le32;
    var w := Encoded(m);
    assert w[8] == a[0] && w[9] == a[1] && w[10] == a[2] && w[11] == a[3];
    assert w[12] == b[0] && w[13] == b[1] && w[14] == b[2] && w[15] == b[3];
  }

  lemma Le32At(n: Uint32)
    ensures var b := Le32(n);
      b[0] == n % 256 && b[1] == n / 256 % 256 && b[2] == n / 65536 % 256 && b[3] == n / 16777216
  {
    SmallPowers();
    hide Pow256;
    ToLeAt(n, 4, 0);
    ToLeAt(n, 4, 1);
    ToLeAt(n, 4, 2);
    ToLeAt(n, 4, 3);
    hide ToLe;
  }

  lemma SmallPowers()
    ensures Pow256(0) == 1 && Pow256(1) == 256 && Pow256(2) == 65536 && Pow256(3) == 16777216
  {
    assert Pow256(3) == 256 * Pow256(2) && Pow256(2) == 256 * Pow256(1) && Pow256(1) == 256 * Pow256(0);
  }

  /** Decoding an encoding gives the message back, and leaves exactly what followed it, if and only
      if the message fits. */
  lemma RoundTripExactly(limit: Uint32, m: Message, rest: seq<Byte>)
    ensures Decoded(limit, Encoded(m) + rest) == (Ok(m), rest) <==> Fits(limit, m)
  {
    var len := LengthField(m.payload);
    var tail := m.payload + rest;
    HeaderFields(m.id, len, tail);
    hide Header, FromLe32;
    assert Encoded(m) + rest == Header(m.id, len) + tail;
    var data := Header(m.id, len) + tail;
    if Fits(limit, m) {
      assert data[HDR_SIZE..HDR_SIZE + len] == tail[..len] == m.payload;
      assert data[HDR_SIZE + len..] == tail[len..] == rest;
    }
  }

  /** For example, a payload of 2^32 zeros arrives as an empty one, and the zeros stay in the stream. */
  lemma HugePayloadLost(id: Uint32)
    ensures var zeros := seq(0x1_0000_0000, _ => 0 as Byte);
      Decoded(0, Encoded(Message(id, zeros))) == (Ok(Message(id, [])), zeros)
  {
    var zeros: seq<Byte> := seq(0x1_0000_0000, _ => 0);
    HeaderFields(id, 0, zeros);
    assert LengthField(zeros) == 0;
    hide Header, FromLe32;
    var data := Header(id, 0) + zeros;
    assert data[HDR_SIZE..HDR_SIZE + 0] == [];
  }

  lemma HeaderRebuilt(data: seq<Byte>)
    requires |data| >= HDR_SIZE && data[..4] == MAGIC && data[4..8] == FLAGS
    ensures data[..HDR_SIZE] == Header(FromLe32(data[8..12]), FromLe32(data[12..16]))
  {
    FromLe32RoundTrip(data[8..12]);
    FromLe32RoundTrip(data[12..16]);
    hide Le32, FromLe32;
    assert data[..16] == data[..4] + data[4..8] + data[8..12] + data[12..16];
  }

  lemma InThree(data: seq<Byte>, i: nat, j: nat)
    requires i <= j <= |data|
    ensures data == data[..i] + data[i..j] + data[j..]
  {
  }

  /** Whatever decodes is an encoding: the bytes consumed are exactly those of the message. */
  lemma DecodedIsEncoding(limit: Uint32, data: seq<Byte>)
    requires Decoded(limit, data).0.Ok?
    ensures var (r, rest) := Decoded(limit, data);
      data == Encoded(r.msg) + rest && Fits(limit, r.msg)
  {
    HeaderRebuilt(data);
    var len: nat := FromLe32(data[12..16]);
    InThree(data, 16, 16 + len);
    hide Header, FromLe32;
  }

  /** If a stream of encodings starts with other encodings, those are its first messages and what
      follows them encodes the others; in particular no two lists of messages share an encoding. */
  lemma {:induction false} EncodingsArePrefix(ms: seq<Message>, first: seq<Message>, left: seq<Byte>)
    requires AllFit(0, ms) && AllFit(0, first)
    requires EncodedAll(first) + left == EncodedAll(ms)
    ensures |first| <= |ms| && first == ms[..|first|] && left == EncodedAll(ms[|first|..])
  {
    hide Decoded, Header;
    if first == [] {
      assert left == EncodedAll(first) + left && ms[0..] == ms;
    } else {
      assert EncodedAll(ms) == Encoded(first[0]) + (EncodedAll(first[1..]) + left);
      RoundTripExactly(0, first[0], EncodedAll(first[1..]) + left);
      RoundTripExactly(0, ms[0], EncodedAll(ms[1..]));
      EncodingsArePrefix(ms[1..], first[1..], left);
      assert first == [first[0]] + first[1..] && ms[|first|..] == ms[1..][|first| - 1..];
    }
  }

  /** Everything a connection delivers: decode until the first error. */
  function DecodedAll(limit: Uint32, data: seq<Byte>): (seq<Message>, Error, seq<Byte>)
    decreases |data|
  {
    var (r, rest) := Decoded(limit, data);
    if r.Err? then ([], r.error, rest)
    else
      var (ms, error, left) := DecodedAll(limit, rest);
      ([r.msg] + ms, error, left)
  }

  /** Messages that fit are delivered in order, each once, and then whatever follows is decoded. */
  lemma {:induction false} StreamRoundTrip(limit: Uint32, ms: seq<Message>, rest: seq<Byte>)
    requires AllFit(limit, ms)
    ensures var (more, error, left) := DecodedAll(limit, rest);
      DecodedAll(limit, EncodedAll(ms) + rest) == (ms + more, error, left)
  {
    hide Decoded, Header;
    if ms == [] {
      assert EncodedAll(ms) + rest == rest && ms + DecodedAll(limit, rest).0 == DecodedAll(limit, rest).0;
    } else {
      var after := EncodedAll(ms[1..]) + rest;
      assert EncodedAll(ms) + rest == Encoded(ms[0]) + after;
      RoundTripExactly(limit, ms[0], after);
      StreamRoundTrip(limit, ms[1..], rest);
      var more := DecodedAll(limit, rest).0;
      assert ms + more == [ms[0]] + (ms[1..] + more);
    }
  }

  // The connection, as the buffered reader sees it

  /** How the next read of the connection goes: it delivers at least one byte and up to some number
      of them, or it fails with an error other than the end of the stream. */
  datatype Event = Chunk(size: nat) | Fail
  datatype Status = Fine | EndOfStream | Failed

  /** Bytes in the buffer, bytes still to come, and how the coming reads go. After the script, reads
      deliver all there is, or, on a lost connection, fail for good. */
  datatype Conn = Conn(buffer: seq<Byte>, coming: seq<Byte>, script: seq<Event>, lost: bool)
  {
    function Data(): seq<Byte>
    {
      buffer + coming
    }

    function Next(): Event
    {
      if script != [] then script[0] else if lost then Fail else Chunk(|coming|)
    }

    /** After a read that delivered nothing. */
    function Past(): Conn
    {
      if script == [] then this else this.(script := script[1..])
    }

    /** After a read that delivered something to the buffer. */
    function Filled(): Conn
      requires coming != [] && Next().Chunk?
    {
      var k := Clip(Next().size, |coming|);
      Past().(buffer := buffer + coming[..k], coming := coming[k..])
    }

    function Dropped(n: nat): Conn
      requires n <= |buffer|
    {
      this.(buffer := buffer[n..])
    }

    predicate Reliable()
    {
      !lost && forall i :: 0 <= i < |script| ==> script[i].Chunk?
    }
  }

  function Clip(size: nat, most: nat): (k: nat)
    requires 0 < most
    ensures 1 <= k <= most
  {
    if size == 0 then 1 else if size > most then most else size
  }

  /** Fills the buffer up to `n` bytes, the end of the stream or a failing read. */
  function Fetched(c: Conn, n: nat): (Conn, Status)
    decreases |c.coming|
  {
    if n <= |c.buffer| then (c, Fine)
    else if c.Next().Fail? then (c.Past(), Failed)
    else if c.coming == [] then (c.Past(), EndOfStream)
    else Fetched(c.Filled(), n)
  }

  /** Fetching consumes nothing; it only fails on a read that fails. */
  lemma {:induction false} FetchedFacts(c: Conn, n: nat)
    ensures var (d, status) := Fetched(c, n);
      && d.Data() == c.Data() && d.lost == c.lost && |d.script| <= |c.script|
      && (status.Fine? ==> n <= |d.buffer|) && (status.EndOfStream? ==> |c.Data()| < n)
      && (c.Reliable() ==> d.Reliable() && !status.Failed?)
    decreases |c.coming|
  {
    if |c.buffer| < n && c.Next().Chunk? && c.coming != [] {
      FilledFacts(c);
      FetchedFacts(c.Filled(), n);
    }
  }

  lemma FilledFacts(c: Conn)
    requires c.coming != [] && c.Next().Chunk?
    ensures var d := c.Filled();
      && d.Data() == c.Data() && d.lost == c.lost && |d.script| <= |c.script| && c.buffer < d.buffer
      && (c.Reliable() ==> d.Reliable()) && |d.coming| < |c.coming|
  {
    var k := Clip(c.Next().size, |c.coming|);
    assert c.buffer + c.coming[..k] + c.coming[k..] == c.buffer + c.coming;
  }

  /** For example, a failure after three bytes of the header. */
  lemma LateFailure(data: seq<Byte>)
    requires 3 < |data|
    ensures Fetched(Conn([], data, [Chunk(3), Fail], false), HDR_SIZE).1.Failed?
  {
    var c := Conn([], data, [Chunk(3), Fail], false);
    assert Fetched(c, HDR_SIZE) == Fetched(c.Filled(), HDR_SIZE);
  }

  /** The outcome of one read of the buffered reader. */
  datatype Outcome = Outcome(conn: Conn, n: nat, status: Status)

  /** What one read with room for `len > 0` bytes does to the connection: the buffer is refilled when it
      is empty, and then emptied as far as there is room. */
  function AfterRead(c: Conn, len: nat): Outcome
    requires 0 < len
  {
    if c.buffer != [] then Emptied(c, len)
    else if c.Next().Fail? then Outcome(c.Past(), 0, Failed)
    else if c.coming == [] then Outcome(c.Past(), 0, EndOfStream)
    else Emptied(c.Filled(), len)
  }

  function Emptied(c: Conn, len: nat): Outcome
  {
    var n := if len < |c.buffer| then len else |c.buffer|;
    Outcome(c.Dropped(n), n, Fine)
  }

  /** A read delivers the next bytes of the stream; one that fails changes nothing. */
  lemma ReadData(c: Conn, len: nat, o: Outcome)
    requires 0 < len && o == AfterRead(c, len)
    ensures o.n <= len && o.n <= |c.Data()| && ReadUpTo(c.Data(), o.conn.Data(), o.n)
    ensures o.status.EndOfStream? ==> o.n == 0 && c.Data() == o.conn.Data() == []
    ensures o.status.Failed? ==> o.n == 0 && o.conn.Data() == c.Data()
  {
    if c.buffer == [] && c.Next().Chunk? && c.coming != [] {
      FilledFacts(c);
    }
  }

  ghost predicate SameLine(start: Conn, now: Conn)
  {
    now.lost == start.lost && |now.script| <= |start.script| && (start.Reliable() ==> now.Reliable())
  }

  lemma ReadLine(c: Conn, len: nat, o: Outcome)
    requires 0 < len && o == AfterRead(c, len)
    ensures SameLine(c, o.conn) && o.n <= len && (o.status.Fine? <==> 0 < o.n)
    ensures o.status.Failed? ==> |o.conn.script| < |c.script| || (c.lost && o.conn == c)
  {
    if c.buffer == [] && c.Next().Chunk? && c.coming != [] {
      FilledFacts(c);
    }
  }

  /** Whether the payload loop goes on for ever: the connection is lost before the payload is complete. */
  predicate Stalls(c: Conn, len: nat)
    decreases |c.script| + len
  {
    len > 0 &&
    var o := AfterRead(c, len);
    ReadLine(c, len, o);
    if o.status.EndOfStream? then false
    else if o.status.Failed? && |o.conn.script| == |c.script| then true
    else Stalls(o.conn, len - o.n)
  }

  lemma StallsStep(c: Conn, len: nat, o: Outcome)
    requires 0 < len && o == AfterRead(c, len)
    ensures o.n <= len && (o.status.EndOfStream? ==> !Stalls(c, len))
    ensures !o.status.EndOfStream? ==> Stalls(c, len) == (o == Outcome(c, 0, Failed) || Stalls(o.conn, len - o.n))
    ensures !o.status.EndOfStream? ==>
      |o.conn.script| + (len - o.n) < |c.script| + len || (c.lost && o == Outcome(c, 0, Failed))
  {
    ReadLine(c, len, o);
    hide AfterRead, Conn.Reliable;
  }

  /** The loop ends whenever the failures end. */
  lemma {:induction false} EndsUnlessLost(c: Conn, len: nat)
    requires !c.lost
    ensures !Stalls(c, len)
    decreases |c.script| + len
  {
    if len > 0 {
      var o := AfterRead(c, len);
      ReadLine(c, len, o);
      StallsStep(c, len, o);
      hide AfterRead, Stalls, Conn.Reliable;
      if !o.status.EndOfStream? {
        EndsUnlessLost(o.conn, len - o.n);
      }
    }
  }

  /** And it may go on for ever: the connection is lost right behind a header. */
  lemma LostAfterHeader(c: Conn, len: nat)
    requires c == Conn([], c.coming, [], true) && 0 < len
    ensures Stalls(c, len)
  {
  }

  /** Part way through the payload loop: `idx` bytes are read after `count` turns. */
  ghost predicate Reading(start: Conn, now: Conn, len: nat, idx: nat, count: nat)
  {
    && idx <= len && ReadUpTo(start.Data(), now.Data(), idx)
    && SameLine(start, now) && (idx < len || count == 0) && Paced(start, now, len, len - idx, count)
  }

  /** Each turn brings the end nearer, unless there is none. */
  predicate Paced(start: Conn, now: Conn, len: nat, left: nat, count: nat)
  {
    && Stalls(now, left) == Stalls(start, len)
    && (Stalls(start, len) || count + |now.script| + left <= |start.script| + len)
  }

  lemma PacedStep(start: Conn, now: Conn, len: nat, left: nat, count: nat, o: Outcome)
    requires Paced(start, now, len, left, count) && 0 < left && o == AfterRead(now, left)
    ensures o.n <= left && (o.status.EndOfStream? || o.n == left ==> !Stalls(start, len))
    ensures !o.status.EndOfStream? && o.n < left ==> Paced(start, o.conn, len, left - o.n, count + 1)
  {
    StallsStep(now, left, o);
    ReadLine(now, left, o);
    assert !Stalls(o.conn, 0);
    hide AfterRead, Stalls, Conn.Reliable;
  }

  lemma OutOfTurns(start: Conn, now: Conn, len: nat, left: nat, count: nat)
    requires Paced(start, now, len, left, count)
    ensures !Stalls(start, len) ==> count <= |start.script| + len
  {
    hide Stalls;
  }

  predicate ReadUpTo(data: seq<Byte>, rest: seq<Byte>, idx: nat)
  {
    idx <= |data| && rest == data[idx..]
  }

  lemma ReadFurther(data: seq<Byte>, rest: seq<Byte>, idx: nat, n: nat, after: seq<Byte>)
    requires ReadUpTo(data, rest, idx) && ReadUpTo(rest, after, n)
    ensures ReadUpTo(data, after, idx + n)
  {
  }

  /** One more turn. */
  lemma ReadingStep(start: Conn, now: Conn, len: nat, idx: nat, count: nat, o: Outcome)
    requires Reading(start, now, len, idx, count) && idx < len && o == AfterRead(now, len - idx)
    ensures idx + o.n <= len && ReadUpTo(start.Data(), o.conn.Data(), idx + o.n) && SameLine(start, o.conn)
    ensures o.status.EndOfStream? ==> o.n == 0 && o.conn.Data() == [] && !Stalls(start, len)
    ensures !o.status.EndOfStream? && idx + o.n < len ==> Reading(start, o.conn, len, idx + o.n, count + 1)
    ensures !o.status.EndOfStream? && idx + o.n == len ==> !Stalls(start, len)
  {
    hide AfterRead, Stalls, Paced, Conn.Data, SameLine, ReadUpTo;
    ReadLine(now, len - idx, o);
    PacedStep(start, now, len, len - idx, count, o);
    ReadData(now, len - idx, o);
    SameLineThen(start, now, o.conn);
    ReadFurther(start.Data(), now.Data(), idx, o.n, o.conn.Data());
  }

  lemma SameLineThen(a: Conn, b: Conn, c: Conn)
    requires SameLine(a, b) && SameLine(b, c)
    ensures SameLine(a, c)
  {
    hide Conn.Reliable;
  }

  // The codec itself

  class Reader {
    var buffer: seq<Byte>
    var coming: seq<Byte>
    var script: seq<Event>
    const lost: bool

    function Now(): Conn
      reads this
    {
      Conn(buffer, coming, script, lost)
    }

    constructor (c: Conn)
      ensures Now() == c
    {
      buffer, coming, script, lost := c.buffer, c.coming, c.script, c.lost;
    }

    method Become(c: Conn)
      requires c.lost == lost
      modifies this
      ensures Now() == c
    {
      buffer, coming, script := c.buffer, c.coming, c.script;
    }

    /** Looks at the first `n` bytes without consuming them. */
    method Peek(n: nat) returns (bytes: seq<Byte>, status: Status)
      modifies this
      ensures (Now(), status) == Fetched(old(Now()), n)
      ensures status.Fine? ==> n <= |Now().Data()| && bytes == Now().Data()[..n]
    {
      while |buffer| < n
        invariant Fetched(Now(), n) == Fetched(old(Now()), n)
        decreases |coming|
      {
        var c := Now();
        if c.Next().Fail? {
          Become(c.Past());
          return [], Failed;
        } else if coming == [] {
          Become(c.Past());
          return [], EndOfStream;
        }
        Become(c.Filled());
      }
      return buffer[..n], Fine;
    }

    method Discard(n: nat)
      requires n <= |buffer|
      modifies this
      ensures Now() == old(Now()).Dropped(n)
    {
      buffer := buffer[n..];
    }

    /** One read into `into`, from index `from` on. */
    method Read(into: array<Byte>, from: nat) returns (n: nat, status: Status)
      requires from <= into.Length
      modifies this, into
      ensures from == into.Length ==> n == 0 && status.Fine? && Now() == old(Now())
      ensures from < into.Length ==> Outcome(Now(), n, status) == AfterRead(old(Now()), into.Length - from)
      ensures from + n <= into.Length && n <= |old(Now()).Data()|
      ensures into[..] == Spliced(old(into[..]), from, old(Now()).Data()[..n])
    {
      SplicedNothing(into[..], from, Now().Data());
      if from == into.Length {
        return 0, Fine;
      }
      ReadData(Now(), into.Length - from, AfterRead(Now(), into.Length - from));
      hide Spliced, Conn.Data, Conn.Filled, Conn.Past, Conn.Next, Conn.Reliable;
      status := Fine;
      if buffer == [] {
        status := Refill();
        if !status.Fine? { return 0, status; }
      }
      n := if into.Length - from < |buffer| then into.Length - from else |buffer|;
      CopyOut(into, from, n);
    }

    method Refill() returns (status: Status)
      modifies this
      ensures var c := old(Now());
        if c.Next().Fail? then status.Failed? && Now() == c.Past()
        else if c.coming == [] then status.EndOfStream? && Now() == c.Past()
        else status.Fine? && Now() == c.Filled() && Now().Data() == c.Data()
    {
      var c := Now();
      if c.Next().Fail? {
        Become(c.Past());
        return Failed;
      } else if coming == [] {
        Become(c.Past());
        return EndOfStream;
      }
      FilledFacts(c);
      Become(c.Filled());
      return Fine;
    }

    method CopyOut(into: array<Byte>, from: nat, n: nat)
      requires from + n <= into.Length && n <= |buffer|
      modifies this, into
      ensures Now() == old(Now()).Dropped(n) && n <= |old(Now()).Data()|
      ensures into[..] == Spliced(old(into[..]), from, old(Now()).Data()[..n])
    {
      assert Now().Data()[..n] == buffer[..n];
      forall i | 0 <= i < n {
        into[from + i] := buffer[i];
      }
      Discard(n);
    }
  }

  /** `bytes` written over `was` from an index on. */
  function Spliced(was: seq<Byte>, from: nat, bytes: seq<Byte>): seq<Byte>
    requires from + |bytes| <= |was|
  {
    was[..from] + bytes + was[from + |bytes|..]
  }

  lemma SplicedNothing(was: seq<Byte>, from: nat, data: seq<Byte>)
    requires from <= |was|
    ensures Spliced(was, from, data[..0]) == was
  {
  }

  lemma SplicedPrefix(was: seq<Byte>, from: nat, data: seq<Byte>, n: nat)
    requires from + n <= |was| && from + n <= |data| && was[..from] == data[..from]
    ensures Spliced(was, from, data[from..][..n])[..from + n] == data[..from + n]
  {
    assert data[..from] + data[from..][..n] == data[..from + n];
  }

  class BytesCodec {
    const maxPayloadLimit: Uint32

    constructor (maxPayloadLimit: Uint32)
      ensures this.maxPayloadLimit == maxPayloadLimit
    {
      this.maxPayloadLimit := maxPayloadLimit;
    }

    method Encode(id: Uint32, payload: seq<Byte>) returns (packet: seq<Byte>)
      ensures packet == Encoded(Message(id, payload))
    {
      packet := MAGIC;
      packet := packet + FLAGS;
      packet := packet + Le32(id);
      packet := packet + Le32(|payload| % 0x1_0000_0000);
      packet := packet + payload;
    }

    /** The payload loop, followed for up to `turns` turns. It ends with the whole payload or with the
        end of the stream, unless the connection is lost; then it never ends. */
    method ReadPayload(reader: Reader, id: Uint32, len: Uint32, turns: nat) returns (r: Option<Result>)
      modifies reader
      ensures SameLine(old(reader.Now()), reader.Now())
      ensures r.Some? ==> var data := old(reader.Now()).Data();
        if |data| < len then r == Some(Err(Eof)) && reader.Now().Data() == []
        else
          && r.value.Ok? && r.value.msg.id == id && r.value.msg.payload == data[..len]
          && reader.Now().Data() == data[len..]
      ensures Stalls(old(reader.Now()), len) ==> r.None?
      ensures !Stalls(old(reader.Now()), len) && |old(reader.script)| + len < turns ==> r.Some?
    {
      var payload := new Byte[len];
      var idx: nat := 0;
      var count: nat := 0;
      ghost var start, data := reader.Now(), reader.Now().Data();
      assert payload[..0] == data[..0] && data[0..] == data && Paced(start, start, len, len - 0, 0);
      hide Stalls, Conn.Data, Conn.Reliable, SameLine, Paced;
      while count < turns
        invariant Reading(start, reader.Now(), len, idx, count) && payload[..idx] == data[..idx]
        decreases turns - count
      {
        var n, status := Turn(reader, payload, idx, start, count);
        if status.EndOfStream? { return Some(Err(Eof)); }
        idx := idx + n;
        if idx == len {  // idx never exceeds len
          return Some(Ok(Message(id, payload[..])));
        }
        count := count + 1;
      }
      OutOfTurns(start, reader.Now(), len, len - idx, count);
      r := None;
    }

    /** One read of the payload loop. */
    method Turn(reader: Reader, payload: array<Byte>, idx: nat, ghost start: Conn, ghost count: nat)
      returns (n: nat, status: Status)
      requires Reading(start, reader.Now(), payload.Length, idx, count) && payload[..idx] == start.Data()[..idx]
      modifies reader, payload
      ensures idx + n <= payload.Length && idx + n <= |start.Data()| && payload[..idx + n] == start.Data()[..idx + n]
      ensures reader.Now().Data() == start.Data()[idx + n..] && SameLine(start, reader.Now())
      ensures status.EndOfStream? ==> n == 0 && idx < payload.Length && reader.Now().Data() == []
      ensures status.EndOfStream? || idx + n == payload.Length ==> !Stalls(start, payload.Length)
      ensures !status.EndOfStream? && idx + n < payload.Length ==>
        Reading(start, reader.Now(), payload.Length, idx + n, count + 1)
    {
      ghost var was, now := payload[..], reader.Now();
      assert !Stalls(now, 0);
      hide Stalls, Conn.Data, Conn.Reliable, AfterRead, Spliced, SameLine;
      n, status := reader.Read(payload, idx);
      if idx < payload.Length {
        ReadingStep(start, now, payload.Length, idx, count, Outcome(reader.Now(), n, status));
      }
      SplicedPrefix(was, idx, start.Data(), n);
    }

    /** Whatever sizes the reads have, the outcome and the bytes consumed are a function of the stream
        alone, unless a read fails while the header is fetched, and then nothing is consumed. A failing
        read does not end the payload loop, so on a lost connection there is no outcome at all. */
    method Decode(reader: Reader, turns: nat) returns (r: Option<Result>)
      modifies reader
      ensures SameLine(old(reader.Now()), reader.Now())
      ensures HeaderFails(old(reader.Now())) ==>
        r == Some(Err(ReadFailed)) && reader.Now().Data() == old(reader.Now()).Data()
      ensures !HeaderFails(old(reader.Now())) && r.Some? ==>
        var (result, rest) := Decoded(maxPayloadLimit, old(reader.Now()).Data());
        r.value == result && reader.Now().Data() == rest
      ensures Hangs(maxPayloadLimit, old(reader.Now())) ==> r.None?
      ensures !Hangs(maxPayloadLimit, old(reader.Now())) && |old(reader.script)| + 0x1_0000_0000 <= turns ==> r.Some?
    {
      FetchedFacts(reader.Now(), HDR_SIZE);
      ghost var start := reader.Now();
      hide Stalls, Fetched, Conn.Data, Decoded, Announced;
      var hdr, status := reader.Peek(HDR_SIZE);
      if status.Failed? { return Some(Err(ReadFailed)); }
      ghost var data, peeked := start.Data(), reader.Now();
      Verdict(maxPayloadLimit, data);
      if status.EndOfStream? { return Some(Err(Eof)); }
      SameHeader(data, hdr);
      var id, len := FromLe32(hdr[8..12]), FromLe32(hdr[12..16]);
      if hdr[..4] != MAGIC { return Some(Err(InvalidMagic)); }
      if hdr[4..8] != FLAGS { return Some(Err(InvalidFlags)); }
      if maxPayloadLimit > 0 && len > maxPayloadLimit { return Some(Err(BeyondLimit)); }
      reader.Discard(HDR_SIZE);
      DroppedData(peeked, HDR_SIZE);
      hide Conn.Dropped;
      r := ReadPayload(reader, id, len, turns);
      LineOn(start, peeked, HDR_SIZE, reader.Now());
    }
  }

  lemma DroppedData(c: Conn, n: nat)
    requires n <= |c.buffer|
    ensures n <= |c.Data()| && c.Dropped(n).Data() == c.Data()[n..] && c.Dropped(n).script == c.script
  {
  }

  lemma LineOn(a: Conn, b: Conn, n: nat, c: Conn)
    requires n <= |b.buffer| && SameLine(a, b) && SameLine(b.Dropped(n), c)
    ensures SameLine(a, c)
  {
  }

  /** The cases of decoding, one by one. */
  lemma Verdict(limit: Uint32, data: seq<Byte>)
    ensures |data| < HDR_SIZE ==> Decoded(limit, data) == (Err(Eof), data)
    ensures |data| >= HDR_SIZE && data[..4] != MAGIC ==> Decoded(limit, data) == (Err(InvalidMagic), data)
    ensures |data| >= HDR_SIZE && data[..4] == MAGIC && data[4..8] != FLAGS ==> Decoded(limit, data) == (Err(InvalidFlags), data)
    ensures |data| < HDR_SIZE || data[..4] != MAGIC || data[4..8] != FLAGS ==> Announced(limit, data).None?
    ensures |data| >= HDR_SIZE && data[..4] == MAGIC && data[4..8] == FLAGS ==>
      var len, rest := FromLe32(data[12..16]), data[HDR_SIZE..];
      if limit > 0 && len > limit then Decoded(limit, data) == (Err(BeyondLimit), data) && Announced(limit, data).None?
      else
        && Announced(limit, data) == Some(len)
        && (|rest| < len ==> Decoded(limit, data) == (Err(Eof), []))
        && (|rest| >= len ==> Decoded(limit, data) == (Ok(Message(FromLe32(data[8..12]), rest[..len])), rest[len..]))
  {
    if |data| >= HDR_SIZE {
      var len, rest := FromLe32(data[12..16]), data[HDR_SIZE..];
      if |rest| >= len {
        assert rest[..len] == data[HDR_SIZE..HDR_SIZE + len] && rest[len..] == data[HDR_SIZE + len..];
      }
    }
  }

  /** A read fails before the header is complete. */
  predicate HeaderFails(c: Conn)
  {
    Fetched(c, HDR_SIZE).1.Failed?
  }

  /** The length that an acceptable header announces. */
  function Announced(limit: Uint32, data: seq<Byte>): Option<Uint32>
  {
    if |data| < HDR_SIZE || data[..4] != MAGIC || data[4..8] != FLAGS then None
    else
      var len := FromLe32(data[12..16]);
      if limit > 0 && len > limit then None else Some(len)
  }

  /** The connection is lost within a payload. */
  predicate Hangs(limit: Uint32, c: Conn)
  {
    var (d, status) := Fetched(c, HDR_SIZE);
    status.Fine? && HDR_SIZE <= |d.buffer| && Announced(limit, c.Data()).Some? &&
    Stalls(d.Dropped(HDR_SIZE), Announced(limit, c.Data()).value)
  }

  lemma SameHeader(data: seq<Byte>, hdr: seq<Byte>)
    requires HDR_SIZE <= |data| && hdr == data[..HDR_SIZE]
    ensures hdr[..4] == data[..4] && hdr[4..8] == data[4..8]
    ensures hdr[8..12] == data[8..12] && hdr[12..16] == data[12..16]
  {
  }

  lemma {:induction false} EncodedAllAppend(ms: seq<Message>, m: Message)
    ensures EncodedAll(ms + [m]) == EncodedAll(ms) + Encoded(m)
  {
    hide Encoded;
    if ms == [] {
      assert EncodedAll([m]) == Encoded(m) + EncodedAll([]);
    } else {
      EncodedAllAppend(ms[1..], m);
      assert (ms + [m])[1..] == ms[1..] + [m];
    }
  }

  /** Part way through a stream: the messages delivered so far, and what is still unread. */
  predicate Underway(limit: Uint32, stream: seq<Byte>, ms: seq<Message>, unread: seq<Byte>)
  {
    AllFit(limit, ms) && EncodedAll(ms) + unread == stream
  }

  lemma DeliverOne(limit: Uint32, stream: seq<Byte>, ms: seq<Message>, unread: seq<Byte>)
    requires Underway(limit, stream, ms, unread) && Decoded(limit, unread).0.Ok?
    ensures var (r, rest) := Decoded(limit, unread);
      Underway(limit, stream, ms + [r.msg], rest) && |rest| < |unread|
  {
    DecodedIsEncoding(limit, unread);
    var m, rest := Decoded(limit, unread).0.msg, Decoded(limit, unread).1;
    assert |Encoded(m)| >= HDR_SIZE;
    hide Decoded, Encoded, EncodedAll, Fits;
    EncodedAllAppend(ms, m);
    Associative(EncodedAll(ms), Encoded(m), rest);
  }

  lemma Associative(a: seq<Byte>, b: seq<Byte>, c: seq<Byte>)
    ensures (a + b) + c == a + (b + c)
  {
  }

  lemma DeliverLast(limit: Uint32, stream: seq<Byte>, ms: seq<Message>, unread: seq<Byte>)
    requires Underway(limit, stream, ms, unread) && Decoded(limit, unread).0.Err?
    ensures DecodedAll(limit, stream) == (ms, Decoded(limit, unread).0.error, Decoded(limit, unread).1)
  {
    StreamRoundTrip(limit, ms, unread);
    hide Decoded, EncodedAll;
    assert DecodedAll(limit, unread).0 == [] && ms + [] == ms;
  }

  /** The server's connection handler: it decodes until the first error. What it delivered is always
      a list of messages whose encodings come first in the stream. Without a read failing inside a
      header it delivers all there is, and it only hangs on a lost connection. */
  method HandleConn(codec: BytesCodec, reader: Reader, turns: nat) returns (ms: seq<Message>, error: Option<Error>)
    modifies reader
    ensures AllFit(codec.maxPayloadLimit, ms) && EncodedAll(ms) <= old(reader.Now()).Data()
    ensures error == Some(ReadFailed) ==>
      Underway(codec.maxPayloadLimit, old(reader.Now()).Data(), ms, reader.Now().Data())
    ensures error.Some? && error != Some(ReadFailed) ==>
      var (all, cause, left) := DecodedAll(codec.maxPayloadLimit, old(reader.Now()).Data());
      ms == all && error.value == cause && reader.Now().Data() == left
    ensures !old(reader.Now()).lost && Enough(old(reader.Now()), turns) ==> error.Some?
    ensures old(reader.Now()).Reliable() ==> error != Some(ReadFailed)
  {
    ms := [];
    ghost var limit, start, stream := codec.maxPayloadLimit, reader.Now(), reader.Now().Data();
    assert Underway(limit, stream, [], stream) by {
      assert EncodedAll([]) + stream == stream;
    }
    hide Decoded, DecodedAll, Conn.Data, HeaderFails, Hangs;
    while true
      invariant Underway(limit, stream, ms, reader.Now().Data()) && SameLine(start, reader.Now())
      decreases |reader.Now().Data()|
    {
      ghost var now := reader.Now();
      UnderwayPrefix(limit, stream, ms, now.Data());
      Prospects(limit, now);
      var r := codec.Decode(reader, turns);
      if r.None? {
        return ms, None;
      }
      if r.value.Err? {
        if !HeaderFails(now) { DeliverLast(limit, stream, ms, now.Data()); }
        return ms, Some(r.value.error);
      }
      DeliverOne(limit, stream, ms, now.Data());
      ms := ms + [r.value.msg];
    }
  }

  predicate Enough(c: Conn, turns: nat)
  {
    |c.script| + 0x1_0000_0000 <= turns
  }

  lemma UnderwayPrefix(limit: Uint32, stream: seq<Byte>, ms: seq<Message>, unread: seq<Byte>)
    requires Underway(limit, stream, ms, unread)
    ensures AllFit(limit, ms) && EncodedAll(ms) <= stream
  {
  }

  /** What to expect of a connection. */
  lemma Prospects(limit: Uint32, c: Conn)
    ensures !c.lost ==> !Hangs(limit, c)
    ensures c.Reliable() ==> !HeaderFails(c)
    ensures Decoded(limit, c.Data()).0 != Err(ReadFailed)
  {
    FetchedFacts(c, HDR_SIZE);
    var d := Fetched(c, HDR_SIZE).0;
    if !c.lost && Hangs(limit, c) {
      EndsUnlessLost(d.Dropped(HDR_SIZE), Announced(limit, c.Data()).value);
    }
  }

  method EncodeAll(codec: BytesCodec, ms: seq<Message>) returns (stream: seq<Byte>)
    ensures stream == EncodedAll(ms)
  {
    hide Encoded;
    stream := [];
    for i := 0 to |ms|
      invariant stream == EncodedAll(ms[..i])
    {
      var packet := codec.Encode(ms[i].id, ms[i].payload);
      EncodedAllAppend(ms[..i], ms[i]);
      assert ms[..i + 1] == ms[..i] + [ms[i]];
      stream := stream + packet;
    }
    assert ms[..|ms|] == ms;
  }

  /** From one end of the connection to the other: what arrives is a prefix of what was sent; it is all
      of it unless a read fails inside a header or the connection is lost inside a payload. */
  method Transfer(codec: BytesCodec, sent: seq<Message>, script: seq<Event>, lost: bool, turns: nat)
    returns (received: seq<Message>, error: Option<Error>)
    requires AllFit(codec.maxPayloadLimit, sent)
    ensures received <= sent
    ensures error.Some? && error != Some(ReadFailed) ==> received == sent && error == Some(Eof)
    ensures !lost && |script| + 0x1_0000_0000 <= turns ==> error.Some?
    ensures Conn([], [], script, lost).Reliable() ==> error != Some(ReadFailed)
  {
    var stream := EncodeAll(codec, sent);
    var reader := new Reader(Conn([], stream, script, lost));
    assert Conn([], stream, script, lost).Data() == stream;
    received, error := HandleConn(codec, reader, turns);
    hide Conn.Data, DecodedAll, EncodedAll;
    EncodingsArePrefix(sent, received, stream[|EncodedAll(received)|..]);
    NothingMissing(codec.maxPayloadLimit, sent);
  }

  lemma NothingMissing(limit: Uint32, sent: seq<Message>)
    requires AllFit(limit, sent)
    ensures DecodedAll(limit, EncodedAll(sent)) == (sent, Eof, [])
  {
    StreamRoundTrip(limit, sent, []);
    assert EncodedAll(sent) + [] == EncodedAll(sent) && sent + [] == sent;
  }
}
