/**
 * What a DATA section means, as bytes: lines end at LF, the first lone-dot line
 * ends the section, and a leading dot on any other line is an escape
 * (section 4.5.2 of RFC 5321). Nothing here knows about reads or buffers.
 */
module DataWire {
  import opened Bytes

  /** Length of the first line: through its LF, or everything when there is none. */
  function LineLength(s: Bytes): (n: nat)
    ensures n <= |s|
    ensures s != [] ==> n > 0
  {
    if s == [] then 0 else if s[0] == LF then 1 else 1 + LineLength(s[1..])
  }

  /** The first line holds LF at most once, as its last byte, and lacks it only at the end. */
  lemma {:induction false} LineLengthMeaning(s: Bytes)
    requires s != []
    ensures var n := LineLength(s);
            LF !in s[..n - 1] && (s[n - 1] == LF || n == |s|)
  {
    var n := LineLength(s);
    if s[0] != LF && |s| > 1 {
      LineLengthMeaning(s[1..]);
      assert s[..n - 1] == [s[0]] + s[1..][..n - 2];
    }
  }

  /** A line without its trailing CRLF or LF; a bare trailing CR goes too. */
  function StripEol(line: Bytes): Bytes {
    var noLf := if line != [] && line[|line| - 1] == LF then line[..|line| - 1] else line;
    if noLf != [] && noLf[|noLf| - 1] == CR then noLf[..|noLf| - 1] else noLf
  }

  lemma {:induction false} StripLast(text: Bytes, e: byte)
    requires e == CR || (e == LF && (text == [] || text[|text| - 1] != CR))
    ensures StripEol(text + [e]) == text
  {
    assert (text + [e])[..|text|] == text;
  }

  lemma {:induction false} StripCrLf(text: Bytes)
    ensures StripEol(text + [CR, LF]) == text
  {
    var line := text + [CR, LF];
    var noLf := line[..|line| - 1];
    assert noLf == text + [CR] && noLf[..|text|] == text;
  }

  /** Exactly one line ending goes: CRLF, LF, or a bare CR; a line without one is left alone. */
  lemma {:induction false} StripEolExactly(text: Bytes)
    ensures StripEol(text + [CR, LF]) == text && StripEol(text + [CR]) == text
    ensures text == [] || text[|text| - 1] != CR ==> StripEol(text + [LF]) == text
    ensures text == [] || (text[|text| - 1] != CR && text[|text| - 1] != LF) ==> StripEol(text) == text
  {
    StripCrLf(text);
    StripLast(text, CR);
    if text == [] || text[|text| - 1] != CR {
      StripLast(text, LF);
    }
  }

  /** A lone dot, with any of the four endings the receiver tolerates: none, LF, CR or CRLF. */
  predicate IsTerminator(line: Bytes) {
    && 1 <= |line| <= 3 && line[0] == DOT
    && (|line| == 2 ==> line[1] == LF || line[1] == CR)
    && (|line| == 3 ==> line[1] == CR && line[2] == LF)
  }

  /** The terminator forms are exactly the lines that strip to a dot. */
  lemma {:induction false} TerminatorForms(line: Bytes)
    ensures StripEol(line) == [DOT] <==> IsTerminator(line)
  {
    if StripEol(line) == [DOT] {
      assert |line| <= 3 && line[0] == DOT;
    }
    assert IsTerminator(line) ==> StripEol(line) == line[..1];
  }

  function Unstuff(line: Bytes): (r: Bytes)
    ensures |line| - 1 <= |r| <= |line|
  {
    if line != [] && line[0] == DOT then line[1..] else line
  }

  /** What follows the first terminator line, if the stream holds one. */
  function AfterEnd(s: Bytes): (r: Option<Bytes>)
    ensures r.Some? ==> |r.value| < |s| && r.value == s[|s| - |r.value|..]
    decreases |s|
  {
    if s == [] then None
    else
      var n := LineLength(s);
      if IsTerminator(s[..n]) then Some(s[n..])
      else
        var rest := s[n..];
        var r := AfterEnd(rest);
        assert r.Some? ==> s[|s| - |r.value|..] == rest[|rest| - |r.value|..];
        r
  }

  /** The unstuffed lines before the first terminator line (all lines when there is none). */
  function Payload(s: Bytes): Bytes
    decreases |s|
  {
    if s == [] then []
    else
      var n := LineLength(s);
      if IsTerminator(s[..n]) then [] else Unstuff(s[..n]) + Payload(s[n..])
  }

  datatype DataOutcome = Complete(data: Bytes) | TooLarge | ConnectionClosed

  /** A finished DATA phase: its verdict and the bytes left for the next command. */
  datatype DataResult = DataResult(outcome: DataOutcome, unread: Bytes)

  /** The verdict the byte stream alone calls for. */
  function Expected(s: Bytes, max: nat): DataResult {
    match AfterEnd(s)
    case None => DataResult(ConnectionClosed, [])
    case Some(unread) =>
      DataResult(if |Payload(s)| <= max then Complete(Payload(s)) else TooLarge, unread)
  }

  /** Longest raw line that `read_data` buffers for a given message limit. */
  function LineMax(max: nat): nat { max + 4 }

  /**
   * Reading an over-long line can stop `k` bytes into it: each stop lies past `limit` bytes
   * from the one before, and within `cap` bytes, one refill of the buffer, of that point.
   */
  ghost predicate Stops(k: nat, limit: nat, cap: nat)
    decreases k
  {
    k == 0 || exists r: nat :: r < k && limit < k - r <= limit + cap && Stops(r, limit, cap)
  }

  /** Stops add up. */
  lemma {:induction false} StopsAdd(a: nat, b: nat, limit: nat, cap: nat)
    requires Stops(a, limit, cap) && Stops(b, limit, cap)
    ensures Stops(a + b, limit, cap)
    decreases b
  {
    if b > 0 {
      var r: nat :| r < b && limit < b - r <= limit + cap && Stops(r, limit, cap);
      StopsAdd(a, r, limit, cap);
      assert a + b - (a + r) == b - r;
    }
  }

  /** `k` is within the reach of `j` stops. */
  predicate InWindow(k: nat, j: nat, limit: nat, cap: nat) {
    j > 0 && j * (limit + 1) <= k <= j * (limit + cap)
  }

  lemma {:induction false} StopsInWindow(k: nat, limit: nat, cap: nat) returns (j: nat)
    requires k > 0 && Stops(k, limit, cap)
    ensures InWindow(k, j, limit, cap)
  {
    var r: nat :| r < k && limit < k - r <= limit + cap && Stops(r, limit, cap);
    if r == 0 {
      j := 1;
    } else {
      var i := StopsInWindow(r, limit, cap);
      j := i + 1;
      assert j * (limit + 1) == i * (limit + 1) + (limit + 1);
      assert j * (limit + cap) == i * (limit + cap) + (limit + cap);
    }
  }

  lemma {:induction false} WindowStops(k: nat, j: nat, limit: nat, cap: nat)
    requires cap > 0 && InWindow(k, j, limit, cap)
    ensures Stops(k, limit, cap)
    decreases j
  {
    if j == 1 {
      assert Stops(0, limit, cap);
    } else {
      var i := j - 1;
      assert j * (limit + 1) == i * (limit + 1) + (limit + 1);
      assert j * (limit + cap) == i * (limit + cap) + (limit + cap);
      assert 0 <= i * (limit + 1) <= i * (limit + cap);
      var r: nat := if k - (limit + cap) >= i * (limit + 1) then k - (limit + cap) else i * (limit + 1);
      WindowStops(r, i, limit, cap);
    }
  }

  /** Where reading an over-long line can stop, in closed form. */
  lemma {:induction false} StopsExactly(k: nat, limit: nat, cap: nat)
    requires k > 0 && cap > 0
    ensures Stops(k, limit, cap) <==> exists j: nat :: InWindow(k, j, limit, cap)
  {
    if Stops(k, limit, cap) {
      var j := StopsInWindow(k, limit, cap);
    }
    if j: nat :| InWindow(k, j, limit, cap) {
      WindowStops(k, j, limit, cap);
    }
  }

  /** A buffer as large as the line can stop anywhere past the limit. */
  lemma StopsAnywhere(k: nat, limit: nat, cap: nat)
    requires 0 < k <= cap
    ensures Stops(k, limit, cap) <==> k > limit
  {
    if k > limit {
      assert Stops(0, limit, cap);
    }
  }

  /** Reading can stop in this line just before something that reads as a terminator. */
  ghost predicate FalseEndIn(line: Bytes, max: nat, cap: nat) {
    exists k :: 0 < k <= |line| && Stops(k, LineMax(max), cap) && IsTerminator(line[k..])
  }

  /** The same, with the places where reading can stop in closed form. */
  lemma {:induction false} FalseEndInExactly(line: Bytes, max: nat, limit: nat, cap: nat)
    requires cap > 0 && limit == max + 4
    ensures FalseEndIn(line, max, cap) <==>
            exists k: nat, j: nat :: k <= |line| && InWindow(k, j, limit, cap) && IsTerminator(line[k..])
  {
    if FalseEndIn(line, max, cap) {
      var k :| 0 < k <= |line| && Stops(k, limit, cap) && IsTerminator(line[k..]);
      var j := StopsInWindow(k, limit, cap);
    }
    if k: nat, j: nat :| k <= |line| && InWindow(k, j, limit, cap) && IsTerminator(line[k..]) {
      WindowStops(k, j, limit, cap);
    }
  }

  /** Some line before the first terminator has a false end. */
  ghost predicate FalseEnd(s: Bytes, max: nat, cap: nat)
    decreases |s|
  {
    s != [] &&
    var n := LineLength(s);
    !IsTerminator(s[..n]) && (FalseEndIn(s[..n], max, cap) || FalseEnd(s[n..], max, cap))
  }

  /** Some over-long line before the first terminator ends, past the limit, in what reads as one. */
  ghost predicate LooseEnd(s: Bytes, max: nat)
    decreases |s|
  {
    s != [] &&
    var n := LineLength(s);
    && !IsTerminator(s[..n])
    && ((exists k :: LineMax(max) < k <= n && IsTerminator(s[..n][k..])) || LooseEnd(s[n..], max))
  }

  /** When one read can hold the whole stream, every such end is a false end. */
  lemma {:induction false} LooseEndIsFalseEnd(s: Bytes, max: nat, cap: nat)
    requires |s| <= cap
    ensures FalseEnd(s, max, cap) <==> LooseEnd(s, max)
    decreases |s|
  {
    if s != [] {
      var n := LineLength(s);
      forall k | 0 < k <= n ensures Stops(k, LineMax(max), cap) <==> k > LineMax(max) {
        StopsAnywhere(k, LineMax(max), cap);
      }
      LooseEndIsFalseEnd(s[n..], max, cap);
    }
  }

  /** No raw line before the first terminator exceeds the buffering limit. */
  predicate ShortLines(s: Bytes, max: nat)
    decreases |s|
  {
    s == [] ||
    var n := LineLength(s);
    IsTerminator(s[..n]) || (n <= LineMax(max) && ShortLines(s[n..], max))
  }

  lemma {:induction false} ShortLinesHaveNoFalseEnd(s: Bytes, max: nat, cap: nat)
    requires ShortLines(s, max)
    ensures !FalseEnd(s, max, cap)
    decreases |s|
  {
    if s != [] && !IsTerminator(s[..LineLength(s)]) {
      ShortLinesHaveNoFalseEnd(s[LineLength(s)..], max, cap);
    }
  }

  /** A section whose payload fits has only short lines. */
  lemma {:induction false} FittingHasShortLines(s: Bytes, max: nat)
    requires |Payload(s)| <= max
    ensures ShortLines(s, max)
    decreases |s|
  {
    if s != [] && !IsTerminator(s[..LineLength(s)]) {
      FittingHasShortLines(s[LineLength(s)..], max);
    }
  }

  /** A line of one byte more than the limit before a dot and CRLF has a false end, whatever the buffer. */
  lemma {:induction false} FalseEndInstance(rest: Bytes, max: nat, cap: nat)
    requires cap > 0
    ensures FalseEnd(seq(max + 5, _ => 120 as byte) + [DOT, CR, LF] + rest, max, cap)
  {
    var k := LineMax(max) + 1;
    var line := seq(k, _ => 120 as byte) + [DOT, CR, LF];
    LineLengthPrefix(line, rest);
    assert (line + rest)[..|line|] == line;
    assert line[k..] == [DOT, CR, LF];
    assert Stops(0, LineMax(max), cap) && Stops(k, LineMax(max), cap);
  }

  /** Splitting off a first line that ends in LF. */
  lemma {:induction false} LineLengthPrefix(line: Bytes, rest: Bytes)
    requires line != [] && line[|line| - 1] == LF && LF !in line[..|line| - 1]
    ensures LineLength(line + rest) == |line|
  {
    var s := line + rest;
    if |line| > 1 {
      assert s[0] == line[..|line| - 1][0];
      assert s[1..] == line[1..] + rest;
      assert line[1..][..|line| - 2] == line[..|line| - 1][1..];
      LineLengthPrefix(line[1..], rest);
    }
  }

  // ----- Dot transparency ---------------------------------------------------

  /** Sender-side escaping: a line that starts with a dot gets one more. */
  function DotStuff(body: Bytes): Bytes
    decreases |body|
  {
    if body == [] then []
    else
      var n := LineLength(body);
      (if body[0] == DOT then [DOT] else []) + body[..n] + DotStuff(body[n..])
  }

  /** A body made of whole lines. */
  predicate WholeLines(body: Bytes) {
    body == [] || body[|body| - 1] == LF
  }

  predicate WholeLine(line: Bytes) {
    line != [] && line[|line| - 1] == LF && LF !in line[..|line| - 1]
  }

  /** Peeling one whole content line off the front of a section. */
  lemma {:induction false} PeelLine(line: Bytes, rest: Bytes)
    requires WholeLine(line) && !IsTerminator(line)
    ensures Payload(line + rest) == Unstuff(line) + Payload(rest)
    ensures AfterEnd(line + rest) == AfterEnd(rest)
  {
    LineLengthPrefix(line, rest);
    assert (line + rest)[..|line|] == line && (line + rest)[|line|..] == rest;
  }

  /** The payload of a content line is the line, less one leading dot if it has any. */
  lemma {:induction false} LineContent(line: Bytes, rest: Bytes)
    requires WholeLine(line) && !IsTerminator(line)
    ensures line[0] == DOT ==> Payload(line + rest) == line[1..] + Payload(rest)
    ensures line[0] != DOT ==> Payload(line + rest) == line + Payload(rest)
  {
    PeelLine(line, rest);
  }

  /** Escaping a whole line gives a whole line that is no terminator and unescapes to it. */
  lemma {:induction false} StuffedLine(line: Bytes) returns (raw: Bytes)
    requires WholeLine(line)
    ensures raw == (if line[0] == DOT then [DOT] else []) + line
    ensures WholeLine(raw) && !IsTerminator(raw) && Unstuff(raw) == line
  {
    raw := (if line[0] == DOT then [DOT] else []) + line;
    if line[0] == DOT {
      assert raw[..|raw| - 1] == [DOT] + line[..|line| - 1];
      assert raw[1] == DOT;
    } else {
      assert raw == line;
    }
  }

  /** The end mark by itself is an empty section. */
  lemma EndMark(rest: Bytes)
    ensures Payload([DOT, CR, LF] + rest) == []
    ensures AfterEnd([DOT, CR, LF] + rest) == Some(rest)
  {
    var mark := [DOT, CR, LF];
    LineLengthPrefix(mark, rest);
    assert (mark + rest)[..3] == mark && (mark + rest)[3..] == rest;
  }

  /** The first line of a body of whole lines, and what escaping makes of it. */
  lemma {:induction false} PeelBody(body: Bytes) returns (line: Bytes, raw: Bytes, more: Bytes)
    requires WholeLines(body) && body != []
    ensures body == line + more && |more| < |body|
    ensures WholeLine(raw) && !IsTerminator(raw) && Unstuff(raw) == line
    ensures WholeLines(more)
    ensures DotStuff(body) == raw + DotStuff(more)
  {
    line, more := FirstWholeLine(body, LineLength(body));
    raw := StuffedLine(line);
    StuffFirst(body, LineLength(body), line, raw);
  }

  lemma {:induction false} StuffFirst(body: Bytes, n: nat, line: Bytes, raw: Bytes)
    requires body != [] && n == LineLength(body) && line == body[..n]
    requires raw == (if line[0] == DOT then [DOT] else []) + line
    ensures DotStuff(body) == raw + DotStuff(body[n..])
  {
  }

  lemma {:induction false} FirstWholeLine(body: Bytes, n: nat) returns (line: Bytes, more: Bytes)
    requires WholeLines(body) && body != [] && n == LineLength(body)
    ensures line == body[..n] && more == body[n..] && body == line + more
    ensures WholeLine(line) && WholeLines(more)
  {
    line, more := body[..n], body[n..];
    LineLengthMeaning(body);
    assert line[..n - 1] == body[..n - 1];
  }

  /** Escaped lines come out of any section they open as they went in. */
  lemma {:induction false} StuffedPayload(body: Bytes, tail: Bytes)
    requires WholeLines(body)
    ensures Payload(DotStuff(body) + tail) == body + Payload(tail)
    decreases |body|
  {
    if body == [] {
      assert DotStuff(body) + tail == tail;
    } else {
      var line, raw, more := PeelBody(body);
      var deeper := DotStuff(more) + tail;
      calc {
        Payload(DotStuff(body) + tail);
        { Reassociate(raw, DotStuff(more), tail); }
        Payload(raw + deeper);
        { PeelLine(raw, deeper); }
        line + Payload(deeper);
        { StuffedPayload(more, tail); }
        line + (more + Payload(tail));
        { Reassociate(line, more, Payload(tail)); }
        body + Payload(tail);
      }
    }
  }

  /** Escaped lines never end the section they open. */
  lemma {:induction false} StuffedEnd(body: Bytes, tail: Bytes)
    requires WholeLines(body)
    ensures AfterEnd(DotStuff(body) + tail) == AfterEnd(tail)
    decreases |body|
  {
    if body == [] {
      assert DotStuff(body) + tail == tail;
    } else {
      var line, raw, more := PeelBody(body);
      var deeper := DotStuff(more) + tail;
      calc {
        AfterEnd(DotStuff(body) + tail);
        { Reassociate(raw, DotStuff(more), tail); }
        AfterEnd(raw + deeper);
        { PeelLine(raw, deeper); }
        AfterEnd(deeper);
        { StuffedEnd(more, tail); }
        AfterEnd(tail);
      }
    }
  }

  /** A stuffed body followed by the end mark carries exactly that body, and no more. */
  lemma {:induction false} StuffedSection(body: Bytes, rest: Bytes)
    requires WholeLines(body)
    ensures var s := DotStuff(body) + ([DOT, CR, LF] + rest);
            Payload(s) == body && AfterEnd(s) == Some(rest)
  {
    StuffedPayload(body, [DOT, CR, LF] + rest);
    StuffedEnd(body, [DOT, CR, LF] + rest);
    EndMark(rest);
  }
}
