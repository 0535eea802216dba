/**
 * `read_line` and `read_data` over a buffered socket. What the socket will yield is cut
 * into reads in some arbitrary way; each refill of the buffer takes the next one.
 * Every claim is for all ways of cutting the stream.
 */
module SmtpReader {
  import opened Bytes
  import opened DataWire

  /** The bytes in the reader's buffer, and what the socket will yield, read by read. */
  datatype Conn = Conn(buffer: Bytes, socket: seq<Bytes>)

  predicate Nonempty(socket: seq<Bytes>) {
    forall i :: 0 <= i < |socket| ==> socket[i] != []
  }

  predicate Within(socket: seq<Bytes>, cap: nat) {
    forall i :: 0 <= i < |socket| ==> |socket[i]| <= cap
  }

  predicate Live(c: Conn) {
    Nonempty(c.socket)
  }

  /** No read exceeds the capacity of the buffer. */
  predicate Capped(c: Conn, cap: nat) {
    |c.buffer| <= cap && Within(c.socket, cap)
  }

  /** All that is still to be read. */
  function Stream(c: Conn): Bytes {
    c.buffer + Concat(c.socket)
  }

  /** `c` is one way of delivering the stream `s`. */
  predicate Delivers(c: Conn, s: Bytes) {
    Live(c) && Stream(c) == s
  }

  /** How many bytes a socket will yield. */
  function Total(socket: seq<Bytes>): nat {
    if socket == [] then 0 else |socket[0]| + Total(socket[1..])
  }

  /** How many bytes are still to be read. */
  function Size(c: Conn): nat {
    |c.buffer| + Total(c.socket)
  }

  lemma {:induction false} TotalIsLength(socket: seq<Bytes>)
    ensures Total(socket) == |Concat(socket)|
  {
    if socket != [] {
      TotalIsLength(socket[1..]);
    }
  }

  lemma {:induction false} SizeIsLength(c: Conn)
    ensures Size(c) == |Stream(c)|
  {
    TotalIsLength(c.socket);
  }

  /** The connection once an empty buffer has been refilled. */
  function Filled(c: Conn): (r: Conn)
    requires Live(c)
    ensures Live(r) && Size(r) == Size(c)
    ensures r.buffer == [] ==> r.socket == []
    ensures r.socket == c.socket || (c.buffer == [] && |r.socket| < |c.socket|)
  {
    if c.buffer == [] && c.socket != [] then Conn(c.socket[0], c.socket[1..]) else c
  }

  lemma {:induction false} FilledStream(c: Conn)
    requires Live(c)
    ensures Stream(Filled(c)) == Stream(c)
  {
    assert [] + Concat(c.socket) == Concat(c.socket);
  }

  /** Taking `n` bytes out of the buffer. */
  function Consume(c: Conn, n: nat): (r: Conn)
    requires Live(c) && n <= |c.buffer|
    ensures Live(r) && Size(r) == Size(c) - n
  {
    c.(buffer := c.buffer[n..])
  }

  lemma {:induction false} ConsumeStream(c: Conn, n: nat)
    requires Live(c) && n <= |c.buffer|
    ensures Stream(Consume(c, n)) == Stream(c)[n..]
  {
  }

  datatype LineStatus = Line | Eof | TooLong

  datatype LineRead = LineRead(status: LineStatus, line: Bytes, conn: Conn)

  /** What reading one line does, starting with `buf` already collected. */
  function LineFrom(c: Conn, buf: Bytes, max: nat): (r: LineRead)
    requires Live(c)
    ensures Live(r.conn)
    ensures r.status.Eof? || Size(r.conn) < Size(c) || (Size(c) == 0 && buf != [])
    decreases |c.socket|, |c.buffer|
  {
    var d := Filled(c);
    var chunk := d.buffer;
    if chunk == [] then LineRead(if buf == [] then Eof else Line, buf, d)
    else
      var take := LineLength(chunk);
      if chunk[take - 1] == LF then
        if |buf| + take > max then LineRead(TooLong, buf, Consume(d, take))
        else LineRead(Line, buf + chunk[..take], Consume(d, take))
      else if |buf| + |chunk| > max then LineRead(TooLong, buf, Consume(d, |chunk|))
      else LineFrom(Consume(d, |chunk|), buf + chunk, max)
  }

  /** What reading a DATA section does, given what was collected so far. */
  function DataFrom(c: Conn, data: Bytes, tooLarge: bool, max: nat): (r: (DataOutcome, Conn))
    requires Live(c)
    ensures Live(r.1)
    decreases Size(c)
  {
    var r := LineFrom(c, [], LineMax(max));
    match r.status
    case Eof => (ConnectionClosed, r.conn)
    case TooLong => DataFrom(r.conn, [], true, max)
    case Line =>
      if IsTerminator(r.line) then (if tooLarge then TooLarge else Complete(data), r.conn)
      else if tooLarge then DataFrom(r.conn, data, true, max)
      else if |data| + |Unstuff(r.line)| > max then DataFrom(r.conn, [], true, max)
      else DataFrom(r.conn, data + Unstuff(r.line), false, max)
  }

  // ----- The source's loops ---------------------------------------------------

  class ByteStream {
    var buffer: Bytes
    var socket: seq<Bytes>

    /** A reader over a socket starts with an empty buffer. */
    constructor (socket: seq<Bytes>)
      requires Nonempty(socket)
      ensures State() == Conn([], socket)
    {
      buffer, this.socket := [], socket;
    }

    function State(): Conn
      reads this
    {
      Conn(buffer, socket)
    }

    predicate Valid()
      reads this
    {
      Live(State())
    }

    /** The buffered bytes, refilled when there are none; empty only at the end of the stream. */
    method FillBuf() returns (chunk: Bytes)
      requires Valid()
      modifies this
      ensures State() == Filled(old(State())) && chunk == buffer
    {
      if buffer == [] && socket != [] {
        buffer, socket := socket[0], socket[1..];
      }
      chunk := buffer;
    }

    method Advance(n: nat)
      requires Valid() && n <= |buffer|
      modifies this`buffer
      ensures State() == Consume(old(State()), n)
    {
      buffer := buffer[n..];
    }
  }

  method ReadLine(r: ByteStream, max: nat) returns (status: LineStatus, buf: Bytes)
    requires r.Valid()
    modifies r
    ensures r.Valid()
    ensures LineRead(status, buf, r.State()) == LineFrom(old(r.State()), [], max)
  {
    buf := [];
    while true
      invariant r.Valid()
      invariant LineFrom(r.State(), buf, max) == LineFrom(old(r.State()), [], max)
      decreases |r.socket|, |r.buffer|
    {
      var chunk := r.FillBuf();
      if chunk == [] {
        return if buf == [] then Eof else Line, buf;
      }
      var take := LineLength(chunk);
      if chunk[take - 1] == LF {
        r.Advance(take);
        if |buf| + take > max {
          return TooLong, buf;
        }
        return Line, buf + chunk[..take];
      }
      r.Advance(|chunk|);
      if |buf| + |chunk| > max {
        return TooLong, buf;
      }
      buf := buf + chunk;
    }
  }

  method ReadData(r: ByteStream, max: nat) returns (outcome: DataOutcome)
    requires r.Valid()
    modifies r
    ensures r.Valid()
    ensures (outcome, r.State()) == DataFrom(old(r.State()), [], false, max)
  {
    var data: Bytes := [];
    var tooLarge := false;
    while true
      invariant r.Valid()
      invariant DataFrom(r.State(), data, tooLarge, max) == DataFrom(old(r.State()), [], false, max)
      invariant tooLarge ==> data == []
      decreases Size(r.State())
    {
      var status, line := ReadLine(r, LineMax(max));
      match status
      case Eof =>
        return ConnectionClosed;
      case TooLong =>
        if !tooLarge {
          tooLarge, data := true, [];
        }
      case Line =>
        TerminatorForms(line);
        if StripEol(line) == [DOT] {
          return if tooLarge then TooLarge else Complete(data);
        }
        if !tooLarge {
          var content := Unstuff(line);
          if |data| + |content| > max {
            tooLarge, data := true, [];
          } else {
            data := data + content;
          }
        }
    }
  }

  // ----- Lines do not depend on the chunks -----------------------------------

  /** A line read from `s` with limit `max` may leave `rest`. */
  predicate LineOutcome(s: Bytes, max: nat, r: LineRead) {
    var n := LineLength(s);
    var rest := Stream(r.conn);
    if s == [] then r.status == Eof && rest == []
    else if n <= max then r.status == Line && r.line == s[..n] && rest == s[n..]
    else r.status == TooLong && |rest| < |s| && max < |s| - |rest| <= n && rest == s[|s| - |rest|..]
  }

  lemma {:induction false} LineLengthSkip(a: Bytes, rest: Bytes)
    requires LF !in a
    ensures LineLength(a + rest) == |a| + LineLength(rest)
  {
    if a == [] {
      assert a + rest == rest;
    } else {
      assert (a + rest)[1..] == a[1..] + rest;
      LineLengthSkip(a[1..], rest);
    }
  }

  /** The first line ends in the buffered chunk. */
  lemma {:induction false} LineInChunk(buf: Bytes, chunk: Bytes, more: Bytes, take: nat, s: Bytes)
    requires LF !in buf && chunk != [] && take == LineLength(chunk) && chunk[take - 1] == LF
    requires s == buf + (chunk + more)
    ensures LineLength(s) == |buf| + take
    ensures s[..|buf| + take] == buf + chunk[..take]
    ensures s[|buf| + take..] == (chunk + more)[take..]
  {
    var line, rest := chunk[..take], chunk[take..] + more;
    assert chunk + more == line + rest;
    assert LineLength(line + rest) == take by {
      LineLengthMeaning(chunk);
      assert line[..take - 1] == chunk[..take - 1];
      LineLengthPrefix(line, rest);
    }
    LineLengthSkip(buf, chunk + more);
  }

  /** The buffered chunk holds no end of line. */
  lemma {:induction false} LineBeyondChunk(buf: Bytes, chunk: Bytes, more: Bytes)
    requires LF !in buf && chunk != [] && chunk[LineLength(chunk) - 1] != LF
    ensures LF !in buf + chunk
    ensures buf + (chunk + more) == (buf + chunk) + more
    ensures LineLength(buf + (chunk + more)) == |buf| + |chunk| + LineLength(more)
  {
    LineLengthMeaning(chunk);
    assert chunk == chunk[..|chunk| - 1] + [chunk[|chunk| - 1]];
    Reassociate(buf, chunk, more);
    LineLengthSkip(buf + chunk, more);
  }

  /** The buffer holds the end of the line: it is taken whole or dropped whole. */
  lemma {:induction false} LineEndsHere(d: Conn, buf: Bytes, max: nat, take: nat)
    requires Live(d) && LF !in buf && d.buffer != []
    requires take == LineLength(d.buffer) && d.buffer[take - 1] == LF
    ensures LineOutcome(buf + Stream(d), max, LineFrom(d, buf, max))
  {
    LineInChunk(buf, d.buffer, Concat(d.socket), take, buf + Stream(d));
    ConsumeStream(d, take);
  }

  /** The buffer holds no end of line: all of it is taken, and may be too much. */
  lemma {:induction false} LineGoesOn(d: Conn, buf: Bytes, s: Bytes) returns (next: Conn)
    requires Live(d) && LF !in buf && d.buffer != [] && s == buf + Stream(d)
    requires d.buffer[LineLength(d.buffer) - 1] != LF
    ensures next == Consume(d, |d.buffer|) && next == Conn([], d.socket)
    ensures LF !in buf + d.buffer
    ensures (buf + d.buffer) + Stream(next) == s && Stream(next) == s[|buf| + |d.buffer|..]
    ensures LineLength(s) >= |buf| + |d.buffer|
  {
    next := Consume(d, |d.buffer|);
    LineBeyondChunk(buf, d.buffer, Concat(d.socket));
    assert Stream(next) == Concat(d.socket);
  }

  /** `read_line` frames the stream, however it is cut; only the stop of an over-long line varies. */
  lemma {:induction false} LineFromMeaning(c: Conn, buf: Bytes, max: nat)
    requires Live(c) && LF !in buf && |buf| <= max
    ensures LineOutcome(buf + Stream(c), max, LineFrom(c, buf, max))
    decreases |c.socket|, |c.buffer|
  {
    var d := Filled(c);
    var chunk := d.buffer;
    FilledStream(c);
    assert LineFrom(c, buf, max) == LineFrom(d, buf, max);
    if chunk == [] {
      LineLengthSkip(buf, []);
      assert Stream(d) == [] && buf + [] == buf;
    } else if chunk[LineLength(chunk) - 1] == LF {
      LineEndsHere(d, buf, max, LineLength(chunk));
    } else {
      var next := LineGoesOn(d, buf, buf + Stream(c));
      if |buf| + |chunk| <= max {
        LineFromMeaning(next, buf + chunk, max);
      }
    }
  }

  /** With reads of at most `cap` bytes, an over-long line stops within `cap` bytes of the limit. */
  lemma {:induction false} LineFromCapped(c: Conn, buf: Bytes, max: nat, cap: nat)
    requires Live(c) && Capped(c, cap) && |buf| <= max
    ensures Capped(LineFrom(c, buf, max).conn, cap)
    ensures LineFrom(c, buf, max).status.TooLong? ==>
              |buf| + Size(c) - Size(LineFrom(c, buf, max).conn) <= max + cap
    decreases |c.socket|, |c.buffer|
  {
    var d := Filled(c);
    var chunk := d.buffer;
    if chunk != [] && chunk[LineLength(chunk) - 1] != LF && |buf| + |chunk| <= max {
      LineFromCapped(Consume(d, |chunk|), buf + chunk, max, cap);
    }
  }
}
