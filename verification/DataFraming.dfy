/**
 * `read_data` against the byte-level meaning of a DATA section: when every way of
 * cutting the stream gives the verdict the bytes call for, and when not.
 */
module DataFraming {
  import opened Bytes
  import opened DataWire
  import opened SmtpReader

  /** The verdict and unread bytes of a DATA phase already under way. */
  function Result(c: Conn, data: Bytes, tooLarge: bool, max: nat): DataResult
    requires Live(c)
  {
    var r := DataFrom(c, data, tooLarge, max);
    DataResult(r.0, Stream(r.1))
  }

  /** The whole DATA phase. */
  function ReadDataResult(c: Conn, max: nat): DataResult
    requires Live(c)
  {
    Result(c, [], false, max)
  }

  /** What is due once the message is known to be too large. */
  function Drained(s: Bytes): DataResult {
    match AfterEnd(s)
    case None => DataResult(ConnectionClosed, [])
    case Some(unread) => DataResult(TooLarge, unread)
  }

  /** What is due with `data` collected and `s` to come. */
  function Collected(s: Bytes, data: Bytes, max: nat): DataResult {
    match AfterEnd(s)
    case None => DataResult(ConnectionClosed, [])
    case Some(unread) =>
      DataResult(if |data| + |Payload(s)| <= max then Complete(data + Payload(s)) else TooLarge, unread)
  }

  /** What has been collected after one more raw line that is no terminator. */
  function AfterLine(line: Bytes, data: Bytes, tooLarge: bool, max: nat): (Bytes, bool) {
    if tooLarge then (data, true)
    else if |data| + |Unstuff(line)| > max then ([], true)
    else (data + Unstuff(line), false)
  }

  /** Reading cannot stop in `f` just before what reads as a terminator. */
  ghost predicate Quiet(f: Bytes, max: nat, cap: nat) {
    forall j :: 0 <= j <= |f| && Stops(j, LineMax(max), cap) ==> !IsTerminator(f[j..])
  }

  /** `f` ends the current line of `f + s`, quietly. */
  ghost predicate Harmless(f: Bytes, s: Bytes, max: nat, cap: nat) {
    (f != [] ==> LineLength(f + s) == |f|) && Quiet(f, max, cap)
  }

  lemma {:induction false} QuietTail(f: Bytes, k: nat, max: nat, cap: nat)
    requires Quiet(f, max, cap) && k <= |f| && Stops(k, LineMax(max), cap)
    ensures Quiet(f[k..], max, cap)
  {
    forall j | 0 <= j <= |f| - k && Stops(j, LineMax(max), cap) ensures !IsTerminator(f[k..][j..]) {
      StopsAdd(k, j, LineMax(max), cap);
      assert f[k..][j..] == f[k + j..];
    }
  }

  lemma {:induction false} QuietIsNoTerminator(f: Bytes, max: nat, cap: nat)
    requires Quiet(f, max, cap)
    ensures !IsTerminator(f)
  {
    assert Stops(0, LineMax(max), cap) && f[0..] == f;
  }

  lemma {:induction false} QuietLine(line: Bytes, max: nat, cap: nat)
    requires !IsTerminator(line) && !FalseEndIn(line, max, cap)
    ensures Quiet(line, max, cap)
  {
    assert line[0..] == line;
  }

  lemma {:induction false} LineLengthDrop(t: Bytes, k: nat)
    requires k < LineLength(t)
    ensures LineLength(t[k..]) == LineLength(t) - k
  {
    if k > 0 {
      assert t[1..][k - 1..] == t[k..];
      LineLengthDrop(t[1..], k - 1);
    } else {
      assert t[0..] == t;
    }
  }

  lemma {:induction false} ReadOne(c: Conn, s: Bytes, max: nat) returns (r: LineRead)
    requires Delivers(c, s)
    ensures r == LineFrom(c, [], max)
    ensures LineOutcome(s, max, r)
    ensures Live(r.conn)
    ensures s != [] ==> |Stream(r.conn)| < |s|
  {
    r := LineFrom(c, [], max);
    LineFromMeaning(c, [], max);
    assert [] + s == s;
  }

  /** The same from reads of at most `cap` bytes; an over-long line is read up to a stop. */
  lemma {:induction false} ReadOneCapped(c: Conn, s: Bytes, max: nat, cap: nat) returns (r: LineRead)
    requires Delivers(c, s) && Capped(c, cap)
    ensures r == LineFrom(c, [], max)
    ensures LineOutcome(s, max, r)
    ensures Live(r.conn) && Capped(r.conn, cap)
    ensures s != [] ==> |Stream(r.conn)| < |s|
    ensures r.status.TooLong? ==> Stops(|s| - |Stream(r.conn)|, max, cap)
  {
    r := ReadOne(c, s, max);
    LineFromCapped(c, [], max, cap);
    SizeIsLength(c);
    SizeIsLength(r.conn);
    if r.status.TooLong? {
      assert Stops(0, max, cap);
    }
  }

  /** What an over-long harmless line leaves is harmless. */
  lemma {:induction false} HarmlessTail(f: Bytes, s: Bytes, k: nat, max: nat, cap: nat)
    requires Harmless(f, s, max, cap) && f != [] && k <= |f| && Stops(k, LineMax(max), cap)
    ensures Harmless(f[k..], s, max, cap) && f[k..] + s == (f + s)[k..]
  {
    assert f[k..] + s == (f + s)[k..];
    if k < |f| {
      LineLengthDrop(f + s, k);
    }
    QuietTail(f, k, max, cap);
  }

  /** The first line of a stream without false ends is harmless, unless it is a terminator. */
  lemma {:induction false} FreshLine(s: Bytes, n: nat, max: nat, cap: nat)
    requires s != [] && n == LineLength(s) && !IsTerminator(s[..n]) && !FalseEnd(s, max, cap)
    ensures s[..n] + s[n..] == s
    ensures Harmless(s[..n], s[n..], max, cap) && !FalseEnd(s[n..], max, cap)
  {
    assert s[..n] + s[n..] == s;
    QuietLine(s[..n], max, cap);
  }

  /** Reading past a line, or part of one, that does not end the section. */
  lemma {:induction false} DataStep(
    c: Conn, r: LineRead, data: Bytes, tooLarge: bool, max: nat, next: (Bytes, bool))
    requires Live(c) && r == LineFrom(c, [], LineMax(max)) && !r.status.Eof?
    requires r.status.Line? ==> !IsTerminator(r.line)
    requires next == if r.status.TooLong? then ([], true) else AfterLine(r.line, data, tooLarge, max)
    ensures Result(c, data, tooLarge, max) == Result(r.conn, next.0, next.1, max)
  {
  }

  /** A content line or the end of the stream, seen from the specification. */
  lemma {:induction false} PastLine(s: Bytes, n: nat)
    requires s != [] && n == LineLength(s) && !IsTerminator(s[..n])
    ensures AfterEnd(s) == AfterEnd(s[n..]) && Payload(s) == Unstuff(s[..n]) + Payload(s[n..])
  {
  }

  /** Draining reaches the true end of data, however the rest of the stream is cut. */
  lemma {:induction false} Drain(c: Conn, f: Bytes, s: Bytes, data: Bytes, max: nat, cap: nat)
    requires Delivers(c, f + s) && Capped(c, cap)
    requires Harmless(f, s, max, cap) && !FalseEnd(s, max, cap)
    ensures Result(c, data, true, max) == Drained(s)
    decreases |f| + |s|, 1
  {
    if f != [] {
      DrainLine(c, f, s, data, max, cap);
    } else {
      assert f + s == s;
      var n := LineLength(s);
      if s != [] && !IsTerminator(s[..n]) {
        FreshLine(s, n, max, cap);
        PastLine(s, n);
        DrainLine(c, s[..n], s[n..], data, max, cap);
      } else {
        DrainEnds(c, s, data, max);
      }
    }
  }

  /** Draining stops at a terminator line, or at the end of the stream. */
  lemma {:induction false} DrainEnds(c: Conn, s: Bytes, data: Bytes, max: nat)
    requires Delivers(c, s) && (s != [] ==> IsTerminator(s[..LineLength(s)]))
    ensures Result(c, data, true, max) == Drained(s)
  {
    var r := ReadOne(c, s, LineMax(max));
  }

  /** Draining goes through a harmless line, in one read or several. */
  lemma {:induction false} DrainLine(c: Conn, f: Bytes, s: Bytes, data: Bytes, max: nat, cap: nat)
    requires Delivers(c, f + s) && Capped(c, cap) && f != []
    requires Harmless(f, s, max, cap) && !FalseEnd(s, max, cap)
    ensures Result(c, data, true, max) == Drained(s)
    decreases |f| + |s|, 0
  {
    var r := ReadOneCapped(c, f + s, LineMax(max), cap);
    if |f| <= LineMax(max) {
      assert r.line == f && Stream(r.conn) == s && [] + s == s;
      QuietIsNoTerminator(f, max, cap);
      DataStep(c, r, data, true, max, (data, true));
      EmptyIsHarmless(s, max, cap);
      Drain(r.conn, [], s, data, max, cap);
    } else {
      var k := |f + s| - |Stream(r.conn)|;
      DataStep(c, r, data, true, max, ([], true));
      HarmlessTail(f, s, k, max, cap);
      Drain(r.conn, f[k..], s, [], max, cap);
    }
  }

  /** An over-long line already makes the payload too large. */
  lemma {:induction false} LongLineIsTooLarge(s: Bytes, n: nat, data: Bytes, max: nat)
    requires s != [] && n == LineLength(s) && n > LineMax(max)
    ensures !IsTerminator(s[..n])
    ensures Collected(s, data, max) == Drained(s[n..])
  {
    PastLine(s, n);
  }

  lemma {:induction false} EmptyIsHarmless(s: Bytes, max: nat, cap: nat)
    ensures Harmless([], s, max, cap)
  {
  }

  /** What a stop in the first line leaves of it. */
  lemma {:induction false} FreshTail(s: Bytes, n: nat, k: nat, max: nat, cap: nat) returns (tail: Bytes)
    requires s != [] && n == LineLength(s) && !IsTerminator(s[..n]) && !FalseEnd(s, max, cap)
    requires k <= n && Stops(k, LineMax(max), cap)
    ensures tail + s[n..] == s[k..]
    ensures Harmless(tail, s[n..], max, cap) && !FalseEnd(s[n..], max, cap)
  {
    FreshLine(s, n, max, cap);
    HarmlessTail(s[..n], s[n..], k, max, cap);
    tail := s[..n][k..];
  }

  /** An over-long line turns collecting into draining what is left of it. */
  lemma {:induction false} CollectLong(c: Conn, s: Bytes, n: nat, data: Bytes, max: nat, cap: nat)
    requires Delivers(c, s) && Capped(c, cap) && |data| <= max && !FalseEnd(s, max, cap)
    requires s != [] && n == LineLength(s) && n > LineMax(max)
    ensures Result(c, data, false, max) == Collected(s, data, max)
  {
    var r := ReadOneCapped(c, s, LineMax(max), cap);
    DataStep(c, r, data, false, max, ([], true));
    LongLineIsTooLarge(s, n, data, max);
    var tail := FreshTail(s, n, |s| - |Stream(r.conn)|, max, cap);
    Drain(r.conn, tail, s[n..], [], max, cap);
  }

  /** Without false ends, collecting gives what the bytes call for. */
  lemma {:induction false} Collect(c: Conn, s: Bytes, data: Bytes, max: nat, cap: nat)
    requires Delivers(c, s) && Capped(c, cap) && |data| <= max && !FalseEnd(s, max, cap)
    ensures Result(c, data, false, max) == Collected(s, data, max)
    decreases |s|
  {
    var r := ReadOneCapped(c, s, LineMax(max), cap);
    if s != [] {
      var n := LineLength(s);
      if n > LineMax(max) {
        CollectLong(c, s, n, data, max, cap);
      } else if !IsTerminator(s[..n]) {
        DataStep(c, r, data, false, max, AfterLine(s[..n], data, false, max));
        CollectLine(r.conn, s, n, data, max, cap);
      } else {
        assert data + [] == data;
      }
    }
  }

  /** What is due before a content line is what is due after it, with its content collected. */
  lemma {:induction false} CollectLine(c: Conn, s: Bytes, n: nat, data: Bytes, max: nat, cap: nat)
    requires s != [] && n == LineLength(s) && !IsTerminator(s[..n]) && !FalseEnd(s, max, cap)
    requires Delivers(c, s[n..]) && Capped(c, cap) && |data| <= max
    ensures |data| + |Unstuff(s[..n])| > max ==> Result(c, [], true, max) == Collected(s, data, max)
    ensures |data| + |Unstuff(s[..n])| <= max ==>
              Result(c, data + Unstuff(s[..n]), false, max) == Collected(s, data, max)
    decreases |s|, 0
  {
    var content, rest := Unstuff(s[..n]), s[n..];
    LineIsDue(s, n, data, max, content, rest);
    FreshLine(s, n, max, cap);
    if |data| + |content| > max {
      assert [] + rest == rest;
      EmptyIsHarmless(rest, max, cap);
      Drain(c, [], rest, [], max, cap);
    } else {
      Collect(c, rest, data + content, max, cap);
    }
  }

  lemma {:induction false} LineIsDue(s: Bytes, n: nat, data: Bytes, max: nat, content: Bytes, rest: Bytes)
    requires s != [] && n == LineLength(s) && !IsTerminator(s[..n])
    requires content == Unstuff(s[..n]) && rest == s[n..]
    ensures |data| + |content| > max ==> Collected(s, data, max) == Drained(rest)
    ensures |data| + |content| <= max ==> Collected(s, data, max) == Collected(rest, data + content, max)
  {
    PastLine(s, n);
    Reassociate(data, content, Payload(rest));
  }

  /** A message once found too large is never reported complete. */
  lemma {:induction false} NeverCompleteAgain(c: Conn, data: Bytes, max: nat)
    requires Live(c)
    ensures !Result(c, data, true, max).outcome.Complete?
    decreases Size(c)
  {
    var r := LineFrom(c, [], LineMax(max));
    if r.status == TooLong {
      NeverCompleteAgain(r.conn, [], max);
    } else if r.status == Line && !IsTerminator(r.line) {
      NeverCompleteAgain(r.conn, data, max);
    }
  }

  /** Only a terminated section whose payload fits is reported complete. */
  lemma {:induction false} CompleteMeansFits(c: Conn, s: Bytes, data: Bytes, max: nat)
    requires Delivers(c, s) && |data| <= max
    requires Result(c, data, false, max).outcome.Complete?
    ensures AfterEnd(s).Some? && |data| + |Payload(s)| <= max
    decreases |s|
  {
    var r := ReadOne(c, s, LineMax(max));
    var n := LineLength(s);
    if s != [] && n > LineMax(max) {
      NeverCompleteAgain(r.conn, [], max);
    } else if s != [] && !IsTerminator(s[..n]) {
      var content := Unstuff(s[..n]);
      if |data| + |content| > max {
        NeverCompleteAgain(r.conn, [], max);
      } else {
        CompleteMeansFits(r.conn, s[n..], data + content, max);
      }
    }
  }

  /** Reading a DATA section only ever takes from the front, and keeps to the capacity. */
  lemma {:induction false} DataFromSuffix(c: Conn, data: Bytes, tooLarge: bool, max: nat)
    requires Live(c)
    ensures IsSuffix(Stream(DataFrom(c, data, tooLarge, max).1), Stream(c))
    decreases Size(c)
  {
    var r := ReadOne(c, Stream(c), LineMax(max));
    assert IsSuffix(Stream(r.conn), Stream(c));
    if !r.status.Eof? && !(r.status.Line? && IsTerminator(r.line)) {
      var next := if r.status.TooLong? then ([], true) else AfterLine(r.line, data, tooLarge, max);
      DataFromSuffix(r.conn, next.0, next.1, max);
      SuffixTransitive(Stream(DataFrom(r.conn, next.0, next.1, max).1), Stream(r.conn), Stream(c));
    }
  }

  lemma {:induction false} DataFromCapped(c: Conn, data: Bytes, tooLarge: bool, max: nat, cap: nat)
    requires Live(c) && Capped(c, cap)
    ensures Capped(DataFrom(c, data, tooLarge, max).1, cap)
    decreases Size(c)
  {
    var r := LineFrom(c, [], LineMax(max));
    LineFromCapped(c, [], LineMax(max), cap);
    if !r.status.Eof? && !(r.status.Line? && IsTerminator(r.line)) {
      var next := if r.status.TooLong? then ([], true) else AfterLine(r.line, data, tooLarge, max);
      DataFromCapped(r.conn, next.0, next.1, max, cap);
    }
  }

  lemma SocketIsSuffix(c: Conn)
    ensures IsSuffix(Concat(c.socket), Stream(c))
  {
  }

  /** Every connection is capped by the length of what it delivers. */
  lemma {:induction false} CappedByLength(c: Conn)
    requires Live(c)
    ensures Capped(c, |Stream(c)|)
  {
    PiecesWithin(c.socket);
  }

  lemma {:induction false} PiecesWithin(socket: seq<Bytes>)
    ensures Within(socket, |Concat(socket)|)
  {
    if socket != [] {
      PiecesWithin(socket[1..]);
      assert forall i :: 0 < i < |socket| ==> socket[i] == socket[1..][i - 1];
    }
  }

  /**
   * For every stream and every way of cutting it, `read_data` reports a complete
   * message exactly when a terminator line exists and the unstuffed lines before the
   * first one fit; the message is then those lines and all after the terminator is unread.
   */
  lemma {:induction false} CompleteExactly(c: Conn, s: Bytes, max: nat)
    requires Delivers(c, s)
    ensures ReadDataResult(c, max).outcome.Complete? <==> AfterEnd(s).Some? && |Payload(s)| <= max
    ensures ReadDataResult(c, max).outcome.Complete? ==>
              ReadDataResult(c, max) == DataResult(Complete(Payload(s)), AfterEnd(s).value)
  {
    if ReadDataResult(c, max).outcome.Complete? {
      CompleteMeansFits(c, s, [], max);
    }
    if |Payload(s)| <= max {
      FittingHasShortLines(s, max);
      ShortLinesHaveNoFalseEnd(s, max, |s|);
      CappedByLength(c);
      ReadAsExpected(c, s, max, |s|);
    }
  }

  // ----- Exactly when the chunks cannot matter --------------------------------

  /** Reads of one byte each. */
  function Singles(a: Bytes): (r: seq<Bytes>)
    ensures Nonempty(r) && Within(r, 1) && |r| == |a|
  {
    seq(|a|, i requires 0 <= i < |a| => [a[i]])
  }

  lemma {:induction false} SinglesConcat(a: Bytes)
    ensures Concat(Singles(a)) == a
  {
    if a != [] {
      assert Singles(a)[1..] == Singles(a[1..]);
      SinglesConcat(a[1..]);
    }
  }

  /** Bytes read one by one are collected as long as they fit and hold no end of line. */
  lemma {:induction false} CollectSingles(a: Bytes, more: seq<Bytes>, buf: Bytes, max: nat)
    requires LF !in a && |buf| + |a| <= max && Nonempty(more)
    ensures LineFrom(Conn([], Singles(a) + more), buf, max) == LineFrom(Conn([], more), buf + a, max)
    decreases |a|
  {
    if a == [] {
      assert Singles(a) + more == more && buf + a == buf;
    } else {
      var socket := Singles(a) + more;
      assert socket[0] == [a[0]];
      assert socket[1..] == Singles(a[1..]) + more;
      assert LineFrom(Conn([], socket), buf, max) == LineFrom(Conn([], socket[1..]), buf + [a[0]], max);
      assert buf + [a[0]] + a[1..] == buf + a;
      CollectSingles(a[1..], more, buf + [a[0]], max);
    }
  }

  /** The reads that make `read_line` stop exactly after `a`: its limit byte by byte, then the rest at once. */
  function StopAfter(a: Bytes, max: nat): (r: seq<Bytes>)
    requires max < |a|
    ensures Nonempty(r)
  {
    Singles(a[..max]) + [a[max..]]
  }

  lemma {:induction false} StopAfterConcat(a: Bytes, max: nat)
    requires max < |a|
    ensures Concat(StopAfter(a, max)) == a
  {
    SinglesConcat(a[..max]);
    ConcatAppend(Singles(a[..max]), [a[max..]]);
    assert Concat([a[max..]]) == a[max..];
    assert a[..max] + a[max..] == a;
  }

  lemma {:induction false} StopsAfter(a: Bytes, more: seq<Bytes>, max: nat)
    requires max < |a| && LF !in a && Nonempty(more)
    ensures LineFrom(Conn([], StopAfter(a, max) + more), [], max).status == TooLong
    ensures LineFrom(Conn([], StopAfter(a, max) + more), [], max).conn == Conn([], more)
  {
    var last, rest := a[max..], [a[max..]] + more;
    Reassociate(Singles(a[..max]), [last], more);
    CollectSingles(a[..max], rest, [], max);
    assert [] + a[..max] == a[..max];
    assert rest[0] == last && rest[1..] == more;
    LineLengthSkip(last, []);
    assert last + [] == last && last[LineLength(last) - 1] != LF;
  }

  /** A byte after `a`, read by itself, that ends the line or goes past the limit. */
  lemma {:induction false} LastSingle(a: Bytes, b: byte, more: seq<Bytes>, max: nat)
    requires LF !in a && |a| <= max && Nonempty(more) && (b == LF || |a| == max)
    ensures LineFrom(Conn([], Singles(a) + ([[b]] + more)), [], max)
         == if |a| == max then LineRead(TooLong, a, Conn([], more)) else LineRead(Line, a + [b], Conn([], more))
  {
    var rest := [[b]] + more;
    CollectSingles(a, rest, [], max);
    assert [] + a == a;
    assert rest[0] == [b] && rest[1..] == more;
  }

  /** A whole line in one-byte reads: taken if it fits, else dropped up to one byte past the limit. */
  lemma {:induction false} LineOfSingles(f: Bytes, more: seq<Bytes>, max: nat)
    requires WholeLine(f) && Nonempty(more)
    ensures |f| <= max ==> LineFrom(Conn([], Singles(f) + more), [], max) == LineRead(Line, f, Conn([], more))
    ensures |f| > max ==>
              LineFrom(Conn([], Singles(f) + more), [], max)
              == LineRead(TooLong, f[..max], Conn([], Singles(f[max + 1..]) + more))
  {
    var k := if |f| <= max then |f| - 1 else max;
    SinglesSplit(f, k, more);
    assert f[..k] == f[..|f| - 1][..k];
    LastSingle(f[..k], f[k], Singles(f[k + 1..]) + more, max);
    if |f| <= max {
      assert f[..k] + [f[k]] == f;
      assert Singles(f[k + 1..]) + more == more;
    }
  }

  lemma SinglesSplit(f: Bytes, k: nat, more: seq<Bytes>)
    requires k < |f|
    ensures Singles(f) + more == Singles(f[..k]) + ([[f[k]]] + (Singles(f[k + 1..]) + more))
  {
    assert Singles(f) == Singles(f[..k]) + [[f[k]]] + Singles(f[k + 1..]);
  }

  lemma {:induction false} WholeLineTail(f: Bytes, k: nat)
    requires WholeLine(f) && k < |f|
    ensures WholeLine(f[k..])
  {
    assert f[k..][..|f| - k - 1] == f[..|f| - 1][k..];
  }

  lemma {:induction false} SkipPart(f: Bytes, more: seq<Bytes>, data: Bytes, tooLarge: bool, max: nat)
    requires WholeLine(f) && |f| > LineMax(max) && Nonempty(more)
    ensures Result(Conn([], Singles(f) + more), data, tooLarge, max)
         == Result(Conn([], Singles(f[LineMax(max) + 1..]) + more), [], true, max)
  {
    var c := Conn([], Singles(f) + more);
    LineOfSingles(f, more, LineMax(max));
    DataStep(c, LineFrom(c, [], LineMax(max)), data, tooLarge, max, ([], true));
  }

  /** One-byte reads of a quiet line that does not fit. */
  lemma {:induction false} SkipLong(f: Bytes, more: seq<Bytes>, data: Bytes, tooLarge: bool, max: nat, cap: nat)
    requires WholeLine(f) && |f| > LineMax(max) && Quiet(f, max, cap) && Nonempty(more) && cap > 0
    ensures Result(Conn([], Singles(f) + more), data, tooLarge, max) == Result(Conn([], more), [], true, max)
    decreases |f|, 0
  {
    var k := LineMax(max) + 1;
    SkipPart(f, more, data, tooLarge, max);
    assert Stops(0, LineMax(max), cap) && Stops(k, LineMax(max), cap);
    QuietTail(f, k, max, cap);
    if k < |f| {
      WholeLineTail(f, k);
    }
    SkipTail(f[k..], more, max, cap);
  }

  /** One-byte reads of what is left of a quiet line are drained. */
  lemma {:induction false} SkipTail(f: Bytes, more: seq<Bytes>, max: nat, cap: nat)
    requires (f == [] || WholeLine(f)) && Quiet(f, max, cap) && Nonempty(more) && cap > 0
    ensures Result(Conn([], Singles(f) + more), [], true, max) == Result(Conn([], more), [], true, max)
    decreases |f|, 1
  {
    if f == [] {
      assert Singles(f) + more == more;
    } else if |f| > LineMax(max) {
      SkipLong(f, more, [], true, max, cap);
    } else {
      SkipShort(f, more, [], true, max, cap, ([], true));
    }
  }

  /** One-byte reads of a quiet line that fits. */
  lemma {:induction false} SkipShort(
    f: Bytes, more: seq<Bytes>, data: Bytes, tooLarge: bool, max: nat, cap: nat, next: (Bytes, bool))
    requires WholeLine(f) && |f| <= LineMax(max) && Quiet(f, max, cap) && Nonempty(more)
    requires next == AfterLine(f, data, tooLarge, max)
    ensures Result(Conn([], Singles(f) + more), data, tooLarge, max) == Result(Conn([], more), next.0, next.1, max)
  {
    var c := Conn([], Singles(f) + more);
    LineOfSingles(f, more, LineMax(max));
    QuietIsNoTerminator(f, max, cap);
    DataStep(c, LineFrom(c, [], LineMax(max)), data, tooLarge, max, next);
  }

  /** The reads of one stop. */
  lemma {:induction false} StopCut(a: Bytes, more: seq<Bytes>, data: Bytes, tooLarge: bool, max: nat, cap: nat)
    returns (cut: seq<Bytes>)
    requires LF !in a && LineMax(max) < |a| <= LineMax(max) + cap && Nonempty(more) && cap > 0
    ensures Nonempty(cut) && Within(cut, cap) && Concat(cut) == a
    ensures Result(Conn([], cut + more), data, tooLarge, max) == Result(Conn([], more), [], true, max)
  {
    cut := StopAfter(a, LineMax(max));
    StopAfterConcat(a, LineMax(max));
    StopsAfter(a, more, LineMax(max));
    var c := Conn([], cut + more);
    DataStep(c, LineFrom(c, [], LineMax(max)), data, tooLarge, max, ([], true));
  }

  /** Reads that stop at the end of `a` and leave the message too large. */
  lemma {:induction false} StopCuts(a: Bytes, more: seq<Bytes>, data: Bytes, tooLarge: bool, max: nat, cap: nat)
    returns (cut: seq<Bytes>)
    requires LF !in a && a != [] && Stops(|a|, LineMax(max), cap) && Nonempty(more) && cap > 0
    ensures Nonempty(cut) && Within(cut, cap) && Concat(cut) == a
    ensures Result(Conn([], cut + more), data, tooLarge, max) == Result(Conn([], more), [], true, max)
    decreases |a|
  {
    var r: nat :| r < |a| && LineMax(max) < |a| - r <= LineMax(max) + cap && Stops(r, LineMax(max), cap);
    if r == 0 {
      cut := StopCut(a, more, data, tooLarge, max, cap);
    } else {
      var last := StopCut(a[r..], more, [], true, max, cap);
      var before := StopCuts(a[..r], last + more, data, tooLarge, max, cap);
      cut := before + last;
      ConcatAppend(before, last);
      assert a[..r] + a[r..] == a;
      Reassociate(before, last, more);
    }
  }

  /** A stop just before what reads as a terminator ends the DATA phase there. */
  lemma {:induction false} FalseTerminator(c: Conn, t: Bytes, rest: Bytes, max: nat)
    requires Delivers(c, t + rest) && IsTerminator(t) && LineLength(t + rest) == |t|
    ensures Result(c, [], true, max) == DataResult(TooLarge, rest)
  {
    var r := ReadOne(c, t + rest, LineMax(max));
    assert (t + rest)[..|t|] == t && (t + rest)[|t|..] == rest;
  }

  /** A false end splits its line. */
  lemma {:induction false} SplitAtFalseEnd(s: Bytes, n: nat, max: nat, cap: nat) returns (a: Bytes, t: Bytes)
    requires s != [] && n == LineLength(s) && FalseEndIn(s[..n], max, cap)
    ensures s[..n] == a + t && s == a + (t + s[n..])
    ensures a != [] && LF !in a && Stops(|a|, LineMax(max), cap)
    ensures IsTerminator(t) && LineLength(t + s[n..]) == |t|
  {
    var line := s[..n];
    var k :| 0 < k <= n && Stops(k, LineMax(max), cap) && IsTerminator(line[k..]);
    a, t := line[..k], line[k..];
    assert LF !in a by {
      LineLengthMeaning(s);
      assert a == s[..n - 1][..k];
    }
    assert t + s[n..] == s[k..];
    LineLengthDrop(s, k);
  }

  lemma {:induction false} EndCut(t: Bytes, rest: Bytes, max: nat) returns (cut: seq<Bytes>)
    requires IsTerminator(t) && LineLength(t + rest) == |t|
    ensures Nonempty(cut) && Within(cut, 1) && Concat(cut) == t + rest
    ensures Result(Conn([], cut), [], true, max) == DataResult(TooLarge, rest)
  {
    cut := Singles(t + rest);
    SinglesConcat(t + rest);
    assert [] + (t + rest) == t + rest;
    FalseTerminator(Conn([], cut), t, rest, max);
  }

  /** A line with a false end can be delivered so that the DATA phase ends with it. */
  lemma {:induction false} CutLine(s: Bytes, n: nat, data: Bytes, tooLarge: bool, max: nat, cap: nat)
    returns (cut: seq<Bytes>)
    requires s != [] && n == LineLength(s) && FalseEndIn(s[..n], max, cap) && cap > 0
    ensures Nonempty(cut) && Within(cut, cap) && Concat(cut) == s
    ensures Result(Conn([], cut), data, tooLarge, max) == DataResult(TooLarge, s[n..])
  {
    var a, t := SplitAtFalseEnd(s, n, max, cap);
    var more := EndCut(t, s[n..], max);
    var before := StopCuts(a, more, data, tooLarge, max, cap);
    cut := before + more;
    ConcatAppend(before, more);
  }

  /** One-byte reads of a line without a false end, before any others. */
  lemma {:induction false} CutPast(
    line: Bytes, more: seq<Bytes>, data: Bytes, tooLarge: bool, max: nat, cap: nat, next: (Bytes, bool))
    returns (cut: seq<Bytes>)
    requires WholeLine(line) && !IsTerminator(line) && !FalseEndIn(line, max, cap) && cap > 0
    requires Nonempty(more) && Within(more, cap)
    requires next == if |line| > LineMax(max) then ([], true) else AfterLine(line, data, tooLarge, max)
    ensures Nonempty(cut) && Within(cut, cap) && Concat(cut) == line + Concat(more)
    ensures Result(Conn([], cut), data, tooLarge, max) == Result(Conn([], more), next.0, next.1, max)
  {
    QuietLine(line, max, cap);
    if |line| > LineMax(max) {
      SkipLong(line, more, data, tooLarge, max, cap);
    } else {
      SkipShort(line, more, data, tooLarge, max, cap, next);
    }
    cut := Singles(line) + more;
    ConcatAppend(Singles(line), more);
    SinglesConcat(line);
  }

  /** A DATA phase that ended before the terminator of `s`, if it has one. */
  predicate EndedEarly(r: DataResult, s: Bytes) {
    r.outcome == TooLarge && (AfterEnd(s).Some? ==> |r.unread| > |AfterEnd(s).value|)
  }

  /** A stream with a false end can be delivered so that the DATA phase ends too early. */
  lemma {:induction false} CutMisreads(s: Bytes, data: Bytes, tooLarge: bool, max: nat, cap: nat)
    returns (cut: seq<Bytes>)
    requires FalseEnd(s, max, cap) && cap > 0
    ensures Nonempty(cut) && Within(cut, cap) && Concat(cut) == s
    ensures EndedEarly(Result(Conn([], cut), data, tooLarge, max), s)
    decreases |s|
  {
    var n := LineLength(s);
    PastLine(s, n);
    if FalseEndIn(s[..n], max, cap) {
      cut := CutLine(s, n, data, tooLarge, max, cap);
    } else {
      var line := LineBefore(s, n);
      var next := if n > LineMax(max) then ([], true) else AfterLine(line, data, tooLarge, max);
      var more := CutMisreads(s[n..], next.0, next.1, max, cap);
      cut := CutPast(line, more, data, tooLarge, max, cap, next);
    }
  }

  /** A line with more after it is a whole line. */
  lemma {:induction false} LineBefore(s: Bytes, n: nat) returns (line: Bytes)
    requires s != [] && n == LineLength(s) && n < |s|
    ensures line == s[..n] && line + s[n..] == s && WholeLine(line)
  {
    line := s[..n];
    LineLengthMeaning(s);
    assert line[..n - 1] == s[..n - 1];
  }

  /** For every stream with a false end there is a delivery that is misread, within any capacity. */
  lemma {:induction false} MisreadExists(s: Bytes, max: nat, cap: nat) returns (c: Conn)
    requires FalseEnd(s, max, cap) && cap > 0
    ensures Delivers(c, s) && Capped(c, cap) && ReadDataResult(c, max) != Expected(s, max)
  {
    var cut := CutMisreads(s, [], false, max, cap);
    c := Conn([], cut);
    assert [] + s == s;
    assert !EndedEarly(Expected(s, max), s);
  }

  lemma {:induction false} ReadAsExpected(c: Conn, s: Bytes, max: nat, cap: nat)
    requires Delivers(c, s) && Capped(c, cap) && !FalseEnd(s, max, cap)
    ensures ReadDataResult(c, max) == Expected(s, max)
  {
    Collect(c, s, [], max, cap);
    CollectedFromStart(s, max);
  }

  lemma {:induction false} CollectedFromStart(s: Bytes, max: nat)
    ensures Collected(s, [], max) == Expected(s, max)
  {
    assert [] + Payload(s) == Payload(s);
  }

  /**
   * With a read buffer of `cap` bytes, every delivery of the stream gives the verdict and
   * the unread bytes that the bytes alone call for, if and only if no line before the
   * terminator has what reads as a terminator at a place where reading it can stop.
   */
  lemma {:induction false} FramingExact(s: Bytes, max: nat, cap: nat)
    requires cap > 0
    ensures (forall c :: Delivers(c, s) && Capped(c, cap) ==> ReadDataResult(c, max) == Expected(s, max))
       <==> !FalseEnd(s, max, cap)
  {
    if FalseEnd(s, max, cap) {
      var c := MisreadExists(s, max, cap);
    } else {
      forall c | Delivers(c, s) && Capped(c, cap) ensures ReadDataResult(c, max) == Expected(s, max) {
        ReadAsExpected(c, s, max, cap);
      }
    }
  }

  /** With reads of any size, it is enough for an over-long line to end in what reads as a terminator. */
  lemma {:induction false} FramingExactUncapped(s: Bytes, max: nat)
    ensures (forall c :: Delivers(c, s) ==> ReadDataResult(c, max) == Expected(s, max))
       <==> !LooseEnd(s, max)
  {
    if s == [] {
      forall c | Delivers(c, s) ensures ReadDataResult(c, max) == Expected(s, max) {
        CompleteExactly(c, s, max);
      }
    } else {
      FramingExact(s, max, |s|);
      LooseEndIsFalseEnd(s, max, |s|);
      forall c | Delivers(c, s) ensures Capped(c, |s|) {
        CappedByLength(c);
      }
    }
  }

  /**
   * Dot transparency (section 4.5.2 of RFC 5321): a stuffed body of whole lines that
   * fits, followed by the end mark and anything else, is received as it was, with
   * exactly that anything left unread, however the connection delivers it.
   */
  lemma {:induction false} DotTransparency(body: Bytes, rest: Bytes, c: Conn, max: nat)
    requires WholeLines(body) && |body| <= max
    requires Delivers(c, DotStuff(body) + ([DOT, CR, LF] + rest))
    ensures ReadDataResult(c, max) == DataResult(Complete(body), rest)
  {
    StuffedSection(body, rest);
    CompleteExactly(c, DotStuff(body) + ([DOT, CR, LF] + rest), max);
  }
}
