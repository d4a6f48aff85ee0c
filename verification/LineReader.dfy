/** The sliding-buffer line reader: three blocks, refilled a block at a time, must be
    indistinguishable from splitting the whole input at newlines. */
module LineReaders {
  import opened ByteOrder
  import AsyncReaders

  const NL: byte := 10
  const CR: byte := 13
  const BOM: Bytes := [0xEF, 0xBB, 0xBF]

  // ----- what reading lines should mean -----

  /** Index of the first newline, or the length. */
  function LineEnd(text: Bytes): (n: nat)
    ensures n <= |text| && (n < |text| ==> text[n] == NL)
    ensures forall i :: 0 <= i < n ==> text[i] != NL
  {
    if text == [] || text[0] == NL then 0 else 1 + LineEnd(text[1..])
  }

  function StripCR(line: Bytes): Bytes {
    if line != [] && line[|line| - 1] == CR then line[..|line| - 1] else line
  }

  function AfterLine(text: Bytes): (rest: Bytes)
    ensures text != [] ==> |rest| < |text|
  {
    if LineEnd(text) < |text| then text[LineEnd(text) + 1..] else []
  }

  datatype LineResult = NoMore | TooLong | Line(text: Bytes)

  /** The next line of the unread text; lines are limited to blockLen - 1 bytes before the newline. */
  function NextLineSpec(text: Bytes, blockLen: nat): LineResult {
    if text == [] then NoMore
    else if LineEnd(text) + 1 > blockLen then TooLong
    else Line(StripCR(text[..LineEnd(text)]))
  }

  datatype Outcome = Outcome(lines: seq<Bytes>, tooLong: bool)

  function AllLines(text: Bytes, blockLen: nat): Outcome
    decreases |text|
  {
    match NextLineSpec(text, blockLen)
    case NoMore => Outcome([], false)
    case TooLong => Outcome([], true)
    case Line(line) =>
      var rest := AllLines(AfterLine(text), blockLen);
      Outcome([line] + rest.lines, rest.tooLong)
  }

  function DropBom(text: Bytes): Bytes {
    if BOM <= text then text[3..] else text
  }

  // ----- the reader -----

  class LineReader {
    const blockLen: nat
    const buffer: array<byte>
    var dataBegin: int
    var dataEnd: int
    var readerValid: bool
    /** The bytes the source has not delivered yet. */
    var remaining: Bytes
    var fileLine: nat
    /** Did the last finish_read return 0? The asynchronous worker has stopped then. */
    ghost var sawZero: bool
    /** The input left to the background reader, and what its finish_read calls have delivered. */
    ghost var handed: Bytes
    ghost var results: seq<Bytes>

    /** The deliveries so far are those of the synchronous reader, which AsyncReaders shows to be those of
        the background one, and none but the last is empty. */
    ghost predicate InStep()
      reads this`handed, this`results, this`remaining, this`sawZero
    {
      && results == AsyncReaders.SyncResults(handed, blockLen, |results|)
      && remaining == AsyncReaders.SyncRest(handed, blockLen, |results|)
      && (sawZero <==> exists i :: 0 <= i < |results| && results[i] == [])
    }

    ghost predicate Valid()
      reads this
    {
      && blockLen >= 2 && buffer.Length == 3 * blockLen
      && 0 <= dataBegin <= dataEnd <= 2 * blockLen
      && (remaining != [] ==> readerValid && dataBegin < dataEnd == 2 * blockLen)
      && (sawZero ==> remaining == [] && (dataEnd <= blockLen || dataBegin == dataEnd))
      && InStep()
    }

    /** Everything not yet handed out. */
    ghost function Pending(): Bytes
      reads this, buffer
      requires Valid()
    {
      buffer[dataBegin..dataEnd] + remaining
    }

    /** byte_source->read: as many bytes as asked for unless the input ends. */
    method ReadSource(at: nat, n: nat) returns (k: nat)
      requires at + n <= buffer.Length
      modifies this`remaining, buffer
      ensures k == if |old(remaining)| < n then |old(remaining)| else n
      ensures remaining == old(remaining)[k..]
      ensures buffer[..at] == old(buffer[..at])
      ensures buffer[at..at + k] == old(remaining)[..k]
    {
      k := if |remaining| < n then |remaining| else n;
      forall i | 0 <= i < k { buffer[at + i] := remaining[i]; }
      remaining := remaining[k..];
    }

    constructor (input: Bytes, len: nat)
      requires len >= 2
      ensures Valid() && fresh(buffer) && blockLen == len
      ensures Pending() == DropBom(input) && results == []
    {
      blockLen := len;
      buffer := new byte[3 * len](_ => 0);
      fileLine, dataBegin, dataEnd := 0, 0, 0;
      readerValid, sawZero, remaining := false, false, input;
      new;
      dataEnd := ReadSource(0, 2 * blockLen);
      assert buffer[0..dataEnd] == input[..dataEnd];
      assert forall i :: 0 <= i < dataEnd ==> buffer[i] == buffer[0..dataEnd][i];
      if dataEnd >= 3 && buffer[0] == 0xEF && buffer[1] == 0xBB && buffer[2] == 0xBF {
        dataBegin := 3;
        assert input[..3] == BOM;
      }
      assert buffer[dataBegin..dataEnd] == input[dataBegin..dataEnd];
      assert input[dataBegin..dataEnd] + input[dataEnd..] == input[dataBegin..];
      handed, results := remaining, [];
      if dataEnd == 2 * blockLen { readerValid := true; }
    }

    /** reader.finish_read(): the third block has been filled; never called after it returned 0. */
    method FinishRead() returns (k: nat)
      requires blockLen >= 2 && buffer.Length == 3 * blockLen && readerValid && !sawZero && InStep()
      modifies this`remaining, this`sawZero, this`results, buffer
      ensures k == if |old(remaining)| < blockLen then |old(remaining)| else blockLen
      ensures InStep() && results == old(results) + [old(remaining)[..k]]
      ensures remaining == old(remaining)[k..] && sawZero == (k == 0)
      ensures buffer[..2 * blockLen] == old(buffer[..2 * blockLen])
      ensures buffer[2 * blockLen..2 * blockLen + k] == old(remaining)[..k]
    {
      hide AsyncReaders.SyncResults, AsyncReaders.SyncRest;
      AsyncReaders.SyncExtend(handed, blockLen, |results|);
      ghost var chunk, before := AsyncReaders.Chunk(remaining, blockLen), results;
      ghost var source := remaining;
      k := ReadSource(2 * blockLen, blockLen);
      assert chunk == source[..k];
      sawZero := k == 0;
      results := results + [chunk];
      assert results[|before|] == chunk;
      assert forall i :: 0 <= i < |before| ==> results[i] == before[i];
    }

    /** memcpy of one block onto the block before it. */
    method CopyDown(at: nat)
      requires at + 2 * blockLen <= buffer.Length
      modifies buffer
      ensures buffer[..at] == old(buffer[..at]) && buffer[at + blockLen..] == old(buffer[at + blockLen..])
      ensures buffer[at..at + blockLen] == old(buffer[at + blockLen..at + 2 * blockLen])
    {
      forall i | 0 <= i < blockLen { buffer[at + i] := buffer[at + blockLen + i]; }
    }

    /** The window moves down one block.  The block being filled in the background is not touched. */
    method SlideDown()
      requires buffer.Length == 3 * blockLen && blockLen <= dataBegin < dataEnd <= 2 * blockLen
      modifies this`dataBegin, this`dataEnd, buffer
      ensures dataBegin == old(dataBegin) - blockLen && dataEnd == old(dataEnd) - blockLen
      ensures buffer[dataBegin..dataEnd] == old(buffer[dataBegin..dataEnd])
      ensures buffer[2 * blockLen..] == old(buffer[2 * blockLen..])
    {
      ghost var before := buffer[..];
      CopyDown(0);
      assert buffer[2 * blockLen..] == buffer[blockLen..][blockLen..];
      dataBegin := dataBegin - blockLen;
      dataEnd := dataEnd - blockLen;
      Slid(before, buffer[..], blockLen, dataBegin, dataEnd);
    }

    /** The block the reader has fetched joins the window. */
    method Refill() returns (k: nat)
      requires blockLen >= 2 && buffer.Length == 3 * blockLen && readerValid && !sawZero && InStep()
      requires 0 <= dataBegin < dataEnd <= blockLen && (remaining != [] ==> dataEnd == blockLen)
      modifies this`dataEnd, this`remaining, this`sawZero, this`results, buffer
      ensures k == (if |old(remaining)| < blockLen then |old(remaining)| else blockLen) && sawZero == (k == 0)
      ensures InStep() && results == old(results) + [old(remaining)[..k]]
      ensures remaining == old(remaining)[k..] && dataEnd == old(dataEnd) + k
      ensures buffer[dataBegin..dataEnd] == old(buffer[dataBegin..dataEnd]) + old(remaining)[..k]
    {
      hide InStep;
      ghost var b1, source, end := buffer[..], remaining, dataEnd;
      k := FinishRead();
      ghost var b2 := buffer[..];
      dataEnd := dataEnd + k;
      CopyDown(blockLen);
      Refilled(b1, b2, buffer[..], source[..k], blockLen, dataBegin, end);
    }

    /** Slide the window down one block and take in the next one. */
    method Shift()
      requires Valid() && blockLen <= dataBegin < dataEnd
      modifies this`dataBegin, this`dataEnd, this`remaining, this`sawZero, this`results, buffer
      ensures Valid() && Pending() == old(Pending()) && dataBegin < dataEnd && dataBegin < blockLen
      ensures |results| == |old(results)| + (if readerValid then 1 else 0) && old(results) <= results
    {
      ghost var unread, source := buffer[dataBegin..dataEnd], remaining;
      SlideDown();
      if readerValid {
        var k := Refill();
        Rejoined(unread, source, k);
      }
    }

    /** The scan for the end of the line. */
    method ScanLine() returns (lineEnd: int)
      requires Valid()
      ensures dataBegin <= lineEnd <= dataEnd
      ensures lineEnd < dataEnd ==> buffer[lineEnd] == NL
      ensures LineEndsAt(buffer[dataBegin..dataEnd], lineEnd - dataBegin)
    {
      lineEnd := dataBegin;
      while lineEnd != dataEnd && buffer[lineEnd] != NL
        invariant dataBegin <= lineEnd <= dataEnd
        invariant forall i :: dataBegin <= i < lineEnd ==> buffer[i] != NL
      {
        lineEnd := lineEnd + 1;
      }
    }

    /** The newline, or the place after the last byte, becomes NUL, and so does a carriage return before it. */
    method Terminate(start: nat, lineEnd: nat) returns (text: Bytes)
      requires start <= lineEnd < buffer.Length
      modifies buffer
      ensures text == StripCR(old(buffer[start..lineEnd])) && start + |text| <= lineEnd
      ensures StartsAt(buffer[..], start, text)
      ensures buffer[lineEnd + 1..] == old(buffer[lineEnd + 1..])
    {
      ghost var raw := buffer[start..lineEnd];
      buffer[lineEnd] := 0;
      var length := lineEnd - start;
      if lineEnd != start && buffer[lineEnd - 1] == CR {
        buffer[lineEnd - 1] := 0;
        length := length - 1;
      }
      text := buffer[start..start + length];
      assert text == raw[..length];
    }

    /** Cut the line off and step past it.  The block being filled in the background is not touched. */
    method CutLine(lineEnd: int) returns (start: nat, text: Bytes)
      requires Valid() && dataBegin < dataEnd && dataBegin <= lineEnd <= dataEnd && lineEnd + 1 < 2 * blockLen
      requires lineEnd < dataEnd ==> buffer[lineEnd] == NL
      requires lineEnd == dataEnd ==> remaining == [] && !(sawZero && dataEnd > blockLen)
      modifies this`dataBegin, this`dataEnd, buffer
      ensures Valid()
      ensures text == StripCR(old(buffer[dataBegin..lineEnd]))
      ensures StartsAt(buffer[..], start, text)
      ensures start + |text| < dataBegin
      ensures Pending() == if lineEnd < old(dataEnd) then old(Pending())[lineEnd + 1 - old(dataBegin)..] else []
      ensures buffer[2 * blockLen..] == old(buffer[2 * blockLen..])
    {
      hide StripCR, InStep, StartsAt;
      ghost var src := buffer[..];
      CutParts(src, remaining, dataBegin, lineEnd, dataEnd);
      if lineEnd == dataEnd || buffer[lineEnd] != NL {
        dataEnd := dataEnd + 1;
      }
      start := dataBegin;
      text := Terminate(dataBegin, lineEnd);
      dataBegin := lineEnd + 1;
      SuffixKept(src, buffer[..], lineEnd + 1, 2 * blockLen);
      SliceKept(src, buffer[..], lineEnd + 1, dataBegin, dataEnd);
    }

    /** The line that starts in the first block. */
    method LineInWindow() returns (r: LineResult, start: nat)
      requires Valid() && dataBegin < dataEnd && dataBegin < blockLen
      modifies this`dataBegin, this`dataEnd, buffer
      ensures Valid()
      ensures !r.NoMore? && (r.TooLong? <==> LineEnd(old(Pending())) + 1 > blockLen)
      ensures buffer[2 * blockLen..] == old(buffer[2 * blockLen..])
      ensures r.TooLong? ==> Pending() == old(Pending())
      ensures r.Line? ==>
                && r.text == StripCR(old(Pending())[..LineEnd(old(Pending()))])
                && Pending() == AfterLine(old(Pending()))
                && StartsAt(buffer[..], start, r.text)
                && start + |r.text| < dataBegin
    {
      hide LineEnd, StripCR, StartsAt;
      ghost var pending, window := Pending(), buffer[dataBegin..dataEnd];
      var lineEnd := ScanLine();
      ghost var n := lineEnd - dataBegin;
      ScannedLine(window, remaining, n);
      if lineEnd - dataBegin + 1 > blockLen { return TooLong, 0; }
      assert buffer[dataBegin..lineEnd] == pending[..n] by {
        SubSlice(buffer[..], dataBegin, dataEnd, 0, n);
      }
      assert n == LineEnd(pending);
      var text;
      start, text := CutLine(lineEnd);
      r := Line(text);
    }

    /** The next line: `start` is the pointer handed out.  The caller sees a C string there, the line up to
        its first NUL. */
    method NextLine() returns (r: LineResult, start: nat)
      requires Valid()
      modifies this, buffer
      ensures Valid()
      ensures r == NextLineSpec(old(Pending()), blockLen)
      ensures Pending() == if r.Line? then AfterLine(old(Pending())) else old(Pending())
      ensures r.Line? ==>
                && StartsAt(buffer[..], start, r.text)
                && start + |r.text| < dataBegin
                && CStringAt(buffer[..], start) == CString(r.text)
                && (CStringAt(buffer[..], start) == r.text <==> NulFree(r.text))
      ensures fileLine == old(fileLine) + (if r.NoMore? then 0 else 1)
    {
      hide LineEnd, StripCR, NextLineSpec, AfterLine, CString, CStringAt, NulFree;
      NextLineWhen(Pending(), blockLen);
      if dataBegin == dataEnd { return NoMore, 0; }
      fileLine := fileLine + 1;
      if dataBegin >= blockLen { Shift(); }
      r, start := LineInWindow();
      if r.Line? { SeenAt(buffer[..], start, r.text); }
    }
  }

  /** What is left of the unread text once its first line is cut off. */
  lemma CutParts(src: Bytes, remaining: Bytes, begin: nat, at: nat, end: nat)
    requires begin <= at <= end <= |src|
    ensures at < end ==> (src[begin..end] + remaining)[at + 1 - begin..] == src[at + 1..end] + remaining
  {
  }

  lemma SuffixKept(s0: Bytes, s1: Bytes, a: nat, b: nat)
    requires |s0| == |s1| && a <= b <= |s0| && s1[a..] == s0[a..]
    ensures s1[b..] == s0[b..]
  {
    assert s1[a..][b - a..] == s0[a..][b - a..];
  }

  lemma SliceKept(s0: Bytes, s1: Bytes, a: nat, b: nat, c: nat)
    requires |s0| == |s1| && a <= b <= c <= |s0| && s1[a..] == s0[a..]
    ensures s1[b..c] == s0[b..c]
  {
    assert s1[a..][b - a..c - a] == s0[a..][b - a..c - a];
  }

  lemma {:induction false} NextLineWhen(text: Bytes, blockLen: nat)
    ensures text == [] ==> NextLineSpec(text, blockLen) == NoMore
    ensures text != [] && LineEnd(text) + 1 > blockLen ==> NextLineSpec(text, blockLen) == TooLong
    ensures text != [] && LineEnd(text) + 1 <= blockLen ==>
              NextLineSpec(text, blockLen) == Line(StripCR(text[..LineEnd(text)]))
    ensures AfterLine(text) == if LineEnd(text) < |text| then text[LineEnd(text) + 1..] else []
  {
  }

  lemma SubSlice<T>(s: seq<T>, a: nat, b: nat, c: nat, d: nat)
    requires a <= b <= |s| && c <= d <= b - a
    ensures s[a..b][c..d] == s[a + c..a + d]
  {
    var x, y := s[a..b][c..d], s[a + c..a + d];
    forall i | 0 <= i < d - c ensures x[i] == y[i] {
      assert x[i] == s[a..b][c + i];
    }
  }

  lemma Slid(b0: Bytes, b1: Bytes, blockLen: nat, begin: nat, end: nat)
    requires |b0| == |b1| == 3 * blockLen && begin <= end <= blockLen
    requires b1[0..blockLen] == b0[blockLen..2 * blockLen]
    ensures b1[begin..end] == b0[begin + blockLen..end + blockLen]
  {
    SubSlice(b1, 0, blockLen, begin, end);
    SubSlice(b0, blockLen, 2 * blockLen, begin, end);
  }

  /** Reading into the third block and copying it onto the second extends the window. */
  lemma Refilled(b1: Bytes, b2: Bytes, b3: Bytes, got: Bytes, blockLen: nat, begin: nat, end: nat)
    requires |b1| == |b2| == |b3| == 3 * blockLen && begin <= end <= blockLen && |got| <= blockLen
    requires got != [] ==> end == blockLen
    requires b2[..2 * blockLen] == b1[..2 * blockLen] && b2[2 * blockLen..2 * blockLen + |got|] == got
    requires b3[..blockLen] == b2[..blockLen] && b3[blockLen..2 * blockLen] == b2[2 * blockLen..3 * blockLen]
    ensures b3[begin..end + |got|] == b1[begin..end] + got
  {
    SubSlice(b1, 0, 2 * blockLen, begin, end);
    SubSlice(b2, 0, 2 * blockLen, begin, end);
    SubSlice(b2, 0, blockLen, begin, end);
    SubSlice(b3, 0, blockLen, begin, end);
    SubSlice(b2, 2 * blockLen, 3 * blockLen, 0, |got|);
    SubSlice(b3, blockLen, 2 * blockLen, 0, |got|);
    assert b3[begin..end] == b1[begin..end];
    if got != [] {
      assert b3[begin..end + |got|] == b3[begin..end] + b3[blockLen..blockLen + |got|];
    }
  }

  ghost predicate LineEndsAt(window: Bytes, n: int) {
    && 0 <= n <= |window| && (n < |window| ==> window[n] == NL)
    && forall i :: 0 <= i < n ==> window[i] != NL
  }

  /** What the scan over the window says about the whole unread text. */
  lemma {:induction false} ScannedLine(window: Bytes, remaining: Bytes, n: nat)
    requires LineEndsAt(window, n)
    ensures n < |window| || remaining == [] ==> LineEnd(window + remaining) == n
    ensures LineEnd(window + remaining) >= n
    ensures (window + remaining)[..n] == window[..n]
  {
    hide LineEnd;
    var text := window + remaining;
    assert forall i :: 0 <= i < |window| ==> text[i] == window[i];
  }

  lemma Rejoined(unread: Bytes, source: Bytes, k: nat)
    requires k <= |source|
    ensures (unread + source[..k]) + source[k..] == unread + source
  {
    assert source[..k] + source[k..] == source;
  }

  /** The C string at `start`, as a caller copies it. */
  method CopyString(a: array<byte>, start: nat, ghost end: nat) returns (s: Bytes)
    requires start <= end < a.Length && a[end] == NUL
    ensures s == CStringAt(a[..], start)
  {
    hide CStringAt;
    s := [];
    var i := start;
    while a[i] != NUL
      invariant start <= i <= end && CStringAt(a[..], start) == s + CStringAt(a[..], i)
      decreases end - i
    {
      CStringStep(a[..], i);
      assert s + ([a[i]] + CStringAt(a[..], i + 1)) == (s + [a[i]]) + CStringAt(a[..], i + 1);
      s := s + [a[i]];
      i := i + 1;
    }
    CStringStep(a[..], i);
    assert s + [] == s;
  }

  /** The lines as their C strings. */
  function Seen(lines: seq<Bytes>): (seen: seq<Bytes>)
    ensures |seen| == |lines|
  {
    seq(|lines|, i requires 0 <= i < |lines| => CString(lines[i]))
  }

  lemma {:induction false} SeenMore(lines: seq<Bytes>, line: Bytes)
    ensures Seen([]) == [] && Seen(lines + [line]) == Seen(lines) + [CString(line)]
  {
  }

  /** The caller sees the lines whole exactly when none of them holds a NUL. */
  lemma SeenWhole(lines: seq<Bytes>)
    ensures Seen(lines) == lines <==> forall i :: 0 <= i < |lines| ==> NulFree(lines[i])
  {
    forall i | 0 <= i < |lines| ensures Seen(lines)[i] == lines[i] <==> NulFree(lines[i]) {
      CStringWhole(lines[i], []);
    }
  }

  /** Reading to the end: exactly the lines of the input after a leading byte order mark, whatever the
      block length, stopping with an error at the first line that does not fit in a block.  `lines` is
      what the caller has copied out: each line up to its first NUL. */
  method ReadAll(input: Bytes, blockLen: nat) returns (lines: seq<Bytes>, tooLong: bool)
    requires blockLen >= 2
    ensures var o := AllLines(DropBom(input), blockLen);
            lines == Seen(o.lines) && tooLong == o.tooLong
  {
    hide AllLines, NextLineSpec, AfterLine, CString, CStringAt, NulFree, Seen, StripCR, LineEnd;
    SeenMore([], []);
    ghost var whole: seq<Bytes> := [];
    var reader := new LineReader(input, blockLen);
    lines, tooLong := [], false;
    ghost var todo := AllLines(reader.Pending(), blockLen);
    ghost var all := todo;
    var more := true;
    while more
      invariant reader.Valid() && fresh(reader) && fresh(reader.buffer) && reader.blockLen == blockLen
      invariant more ==> !tooLong && todo == AllLines(reader.Pending(), blockLen)
      invariant more ==> all == Outcome(whole + todo.lines, todo.tooLong)
      invariant !more ==> all == Outcome(whole, tooLong)
      invariant lines == Seen(whole)
      decreases more, |reader.Pending()|
    {
      AllLinesStep(reader.Pending(), blockLen);
      var r, start := reader.NextLine();
      match r {
        case NoMore => more := false;
        case TooLong => more, tooLong := false, true;
        case Line(text) =>
          todo := AllLines(reader.Pending(), blockLen);
          assert whole + ([text] + todo.lines) == (whole + [text]) + todo.lines;
          SeenMore(whole, text);
          whole := whole + [text];
          var line := CopyString(reader.buffer, start, start + |text|);
          lines := lines + [line];
      }
    }
  }

  lemma {:induction false} AllLinesStep(text: Bytes, blockLen: nat)
    ensures AllLines(text, blockLen) ==
            match NextLineSpec(text, blockLen)
            case NoMore => Outcome([], false)
            case TooLong => Outcome([], true)
            case Line(line) =>
              Outcome([line] + AllLines(AfterLine(text), blockLen).lines, AllLines(AfterLine(text), blockLen).tooLong)
    ensures NextLineSpec(text, blockLen).Line? ==> |AfterLine(text)| < |text|
  {
  }

  // ----- lines against splitting at newlines -----

  /** A text as newline-terminated lines followed by an unterminated rest. */
  ghost function JoinLines(lines: seq<Bytes>, last: Bytes): Bytes {
    if lines == [] then last else lines[0] + [NL] + JoinLines(lines[1..], last)
  }

  ghost predicate NewlineFree(line: Bytes) {
    forall i :: 0 <= i < |line| ==> line[i] != NL
  }

  ghost predicate AllNewlineFree(lines: seq<Bytes>) {
    forall i :: 0 <= i < |lines| ==> NewlineFree(lines[i])
  }

  ghost predicate AllFit(lines: seq<Bytes>, blockLen: nat) {
    forall i :: 0 <= i < |lines| ==> |lines[i]| + 1 <= blockLen
  }

  /** The raw lines: an empty rest is not a line. */
  ghost function RawLines(lines: seq<Bytes>, last: Bytes): seq<Bytes> {
    if last == [] then lines else lines + [last]
  }

  ghost function Stripped(lines: seq<Bytes>): seq<Bytes> {
    seq(|lines|, i requires 0 <= i < |lines| => StripCR(lines[i]))
  }

  lemma {:induction false} EveryTextSplits(text: Bytes) returns (lines: seq<Bytes>, last: Bytes)
    ensures text == JoinLines(lines, last) && AllNewlineFree(lines) && NewlineFree(last)
    decreases |text|
  {
    var n := LineEnd(text);
    if n == |text| {
      lines, last := [], text;
    } else {
      var rest;
      rest, last := EveryTextSplits(text[n + 1..]);
      lines := [text[..n]] + rest;
      assert lines[1..] == rest;
      assert text == text[..n] + [NL] + text[n + 1..];
    }
  }

  lemma {:induction false} FirstLine(line: Bytes, rest: Bytes)
    requires NewlineFree(line)
    ensures LineEnd(line + [NL] + rest) == |line|
    ensures (line + [NL] + rest)[..|line|] == line && AfterLine(line + [NL] + rest) == rest
  {
    hide LineEnd;
    var text := line + [NL] + rest;
    assert forall i :: 0 <= i < |line| ==> text[i] == line[i];
    assert text[|line|] == NL;
  }

  lemma {:induction false} LastLine(line: Bytes)
    requires NewlineFree(line)
    ensures LineEnd(line) == |line| && line[..|line|] == line && AfterLine(line) == []
  {
    hide LineEnd;
  }

  /** The lines read are exactly the raw lines, each with one trailing carriage return removed, and the
      error is reported exactly when some raw line does not fit. */
  lemma {:induction false} LinesAreTheSplit(lines: seq<Bytes>, last: Bytes, blockLen: nat)
    requires AllNewlineFree(lines) && NewlineFree(last)
    ensures var o, raw := AllLines(JoinLines(lines, last), blockLen), RawLines(lines, last);
            && (o.tooLong <==> !AllFit(raw, blockLen))
            && o.lines <= Stripped(raw)
            && (!o.tooLong ==> o.lines == Stripped(raw))
            && (o.tooLong ==> |o.lines| < |raw| && |raw[|o.lines|]| + 1 > blockLen)
    decreases |lines|
  {
    hide LineEnd, StripCR, NextLineSpec, AfterLine, AllLines, AllFit, Stripped;
    if lines == [] {
      OnlyRest(last, blockLen);
    } else {
      LinesAreTheSplit(lines[1..], last, blockLen);
      assert RawLines(lines, last) == [lines[0]] + RawLines(lines[1..], last);
      FirstThenRest(lines[0], JoinLines(lines[1..], last), RawLines(lines[1..], last), blockLen);
    }
  }

  lemma {:induction false} OnlyRest(last: Bytes, blockLen: nat)
    requires NewlineFree(last)
    ensures var o, raw := AllLines(last, blockLen), RawLines([], last);
            && (o.tooLong <==> !AllFit(raw, blockLen))
            && o.lines <= Stripped(raw)
            && (!o.tooLong ==> o.lines == Stripped(raw))
            && (o.tooLong ==> |o.lines| < |raw| && |raw[|o.lines|]| + 1 > blockLen)
  {
    hide LineEnd, StripCR, NextLineSpec, AfterLine, AllLines, AllFit, NewlineFree;
    NoLinesFit(blockLen);
    AllLinesStep(last, blockLen);
    NextLineWhen(last, blockLen);
    AllLinesStep([], blockLen);
    NextLineWhen([], blockLen);
    LastLine(last);
    FitsCons(last, [], blockLen);
    if last != [] { assert RawLines([], last) == [last] == [last] + []; }
  }

  lemma {:induction false} FirstThenRest(line: Bytes, text: Bytes, raw: seq<Bytes>, blockLen: nat)
    requires NewlineFree(line)
    requires var o := AllLines(text, blockLen);
             && (o.tooLong <==> !AllFit(raw, blockLen))
             && o.lines <= Stripped(raw)
             && (!o.tooLong ==> o.lines == Stripped(raw))
             && (o.tooLong ==> |o.lines| < |raw| && |raw[|o.lines|]| + 1 > blockLen)
    ensures var o, raw' := AllLines(line + [NL] + text, blockLen), [line] + raw;
            && (o.tooLong <==> !AllFit(raw', blockLen))
            && o.lines <= Stripped(raw')
            && (!o.tooLong ==> o.lines == Stripped(raw'))
            && (o.tooLong ==> |o.lines| < |raw'| && |raw'[|o.lines|]| + 1 > blockLen)
  {
    hide LineEnd, StripCR, NextLineSpec, AfterLine, AllLines, AllFit;
    FirstLine(line, text);
    AllLinesStep(line + [NL] + text, blockLen);
    NextLineWhen(line + [NL] + text, blockLen);
    FitsCons(line, raw, blockLen);
    assert Stripped([line] + raw) == [StripCR(line)] + Stripped(raw);
  }

  lemma NoLinesFit(blockLen: nat)
    ensures AllFit([], blockLen)
  {
  }

  lemma FitsCons(line: Bytes, rest: seq<Bytes>, blockLen: nat)
    ensures AllFit([line] + rest, blockLen) <==> |line| + 1 <= blockLen && AllFit(rest, blockLen)
  {
    var all := [line] + rest;
    assert all[0] == line;
    assert forall i :: 0 <= i < |rest| ==> rest[i] == all[i + 1];
  }

  // ----- rows that hold newlines themselves -----

  function Newlines(text: Bytes): nat {
    if text == [] then 0 else (if text[0] == NL then 1 else 0) + Newlines(text[1..])
  }

  ghost function NewlinesIn(rows: seq<Bytes>): nat {
    if rows == [] then 0 else Newlines(rows[0]) + NewlinesIn(rows[1..])
  }

  lemma {:induction false} NoNewlines(text: Bytes)
    ensures NewlineFree(text) <==> Newlines(text) == 0
  {
    if text != [] {
      NoNewlines(text[1..]);
      assert forall i :: 0 <= i < |text| - 1 ==> text[1..][i] == text[i + 1];
      assert NewlineFree(text) <==> text[0] != NL && NewlineFree(text[1..]) by {
        forall i | 0 <= i < |text| && text[0] != NL && NewlineFree(text[1..]) ensures text[i] != NL {
          if i > 0 { assert text[1..][i - 1] != NL; }
        }
      }
    }
  }

  lemma {:induction false} NoNewlinesIn(rows: seq<Bytes>)
    ensures AllNewlineFree(rows) <==> NewlinesIn(rows) == 0
  {
    hide NewlineFree, Newlines;
    if rows != [] {
      NoNewlines(rows[0]);
      NoNewlinesIn(rows[1..]);
      assert AllNewlineFree(rows) <==> NewlineFree(rows[0]) && AllNewlineFree(rows[1..]) by {
        forall i | 0 <= i < |rows| && NewlineFree(rows[0]) && AllNewlineFree(rows[1..]) ensures NewlineFree(rows[i]) {
          if i > 0 { assert NewlineFree(rows[1..][i - 1]); }
        }
        if AllNewlineFree(rows) {
          assert forall i :: 0 <= i < |rows| - 1 ==> rows[1..][i] == rows[i + 1];
        }
      }
    }
  }

  lemma {:induction false} NewlinesAppend(a: Bytes, b: Bytes)
    ensures Newlines(a + b) == Newlines(a) + Newlines(b)
    decreases |a|
  {
    if a == [] {
      assert [] + b == b;
    } else {
      assert (a + b)[1..] == a[1..] + b;
      NewlinesAppend(a[1..], b);
    }
  }

  lemma {:induction false} NewlinesJoined(rows: seq<Bytes>, last: Bytes)
    ensures Newlines(JoinLines(rows, last)) == |rows| + NewlinesIn(rows) + Newlines(last)
    decreases |rows|
  {
    if rows != [] {
      NewlinesJoined(rows[1..], last);
      NewlinesAppend(rows[0] + [NL], JoinLines(rows[1..], last));
      NewlinesAppend(rows[0], [NL]);
    }
  }

  /** Rows written one per line, whatever they hold: there are as many lines as rows and none is too
      long, if and only if no row holds a newline and every row fits in a block. */
  lemma {:induction false} LinesOfRows(rows: seq<Bytes>, blockLen: nat)
    ensures var o := AllLines(JoinLines(rows, []), blockLen);
            |o.lines| == |rows| && !o.tooLong <==> AllNewlineFree(rows) && AllFit(rows, blockLen)
  {
    hide AllLines, JoinLines, AllFit, NewlineFree, AllNewlineFree, Newlines;
    var file := JoinLines(rows, []);
    var lines, last := EveryTextSplits(file);
    LinesAreTheSplit(lines, last, blockLen);
    NewlinesJoined(rows, []);
    NewlinesJoined(lines, last);
    NoNewlinesIn(rows);
    NoNewlinesIn(lines);
    NoNewlines(last);
    NoNewlines([]);
    if AllNewlineFree(rows) {
      EmptyIsNewlineFree();
      LinesAreTheSplit(rows, [], blockLen);
    }
  }

  lemma EmptyIsNewlineFree()
    ensures NewlineFree([]) && Newlines([]) == 0
  {
  }

  /** What reading comes to when row i is the first with a newline: its part before the newline, if that
      fits in a block.  The rows before it are read whole. */
  ghost predicate CutAtRow(o: Outcome, rows: seq<Bytes>, i: nat, blockLen: nat)
    requires i < |rows|
  {
    var line := rows[i][..LineEnd(rows[i])];
    && (if |line| + 1 > blockLen then o.tooLong && |o.lines| == i else |o.lines| > i && o.lines[i] == StripCR(line))
    && forall k :: 0 <= k < i ==> o.lines[k] == StripCR(rows[k])
  }

  lemma {:induction false} FirstCutRow(rows: seq<Bytes>, i: nat, blockLen: nat)
    requires i < |rows| && !NewlineFree(rows[i])
    requires forall k :: 0 <= k < i ==> NewlineFree(rows[k]) && |rows[k]| + 1 <= blockLen
    ensures CutAtRow(AllLines(JoinLines(rows, []), blockLen), rows, i, blockLen)
    decreases i
  {
    hide CutAtRow, AllLines, NewlineFree, LineEnd;
    var rest := JoinLines(rows[1..], []);
    if i == 0 {
      CutInFirstRow(rows, rest, blockLen);
    } else {
      assert rows[1..][i - 1] == rows[i];
      FirstCutRow(rows[1..], i - 1, blockLen);
      WholeFirstRow(rows, i, AllLines(rest, blockLen), AllLines(JoinLines(rows, []), blockLen), blockLen);
      RowFirst(rows[0], rest, blockLen);
    }
  }

  lemma {:induction false} RowFirst(line: Bytes, rest: Bytes, blockLen: nat)
    requires NewlineFree(line) && |line| + 1 <= blockLen
    ensures var tail := AllLines(rest, blockLen);
            AllLines(line + [NL] + rest, blockLen) == Outcome([StripCR(line)] + tail.lines, tail.tooLong)
  {
    hide LineEnd, StripCR, NextLineSpec, AfterLine, AllLines;
    AllLinesStep(line + [NL] + rest, blockLen);
    NextLineWhen(line + [NL] + rest, blockLen);
    FirstLine(line, rest);
  }

  lemma {:induction false} CutInFirstRow(rows: seq<Bytes>, rest: Bytes, blockLen: nat)
    requires rows != [] && !NewlineFree(rows[0])
    ensures CutAtRow(AllLines(rows[0] + [NL] + rest, blockLen), rows, 0, blockLen)
  {
    hide LineEnd, StripCR, NextLineSpec, AfterLine, AllLines;
    var file := rows[0] + [NL] + rest;
    AllLinesStep(file, blockLen);
    NextLineWhen(file, blockLen);
    CutAtNewline(rows[0], [NL] + rest);
    assert file == rows[0] + ([NL] + rest);
  }

  lemma WholeFirstRow(rows: seq<Bytes>, i: nat, tail: Outcome, o: Outcome, blockLen: nat)
    requires 0 < i < |rows| && CutAtRow(tail, rows[1..], i - 1, blockLen)
    ensures o == Outcome([StripCR(rows[0])] + tail.lines, tail.tooLong) ==> CutAtRow(o, rows, i, blockLen)
  {
    hide LineEnd, StripCR;
    assert forall k :: 0 < k < |rows| ==> rows[k] == rows[1..][k - 1];
  }

  lemma {:induction false} CutAtNewline(row: Bytes, rest: Bytes)
    requires !NewlineFree(row)
    ensures LineEnd(row) < |row| && LineEnd(row + rest) == LineEnd(row)
    ensures (row + rest)[..LineEnd(row)] == row[..LineEnd(row)]
  {
    hide LineEnd;
    var text, n := row + rest, LineEnd(row);
    assert n < |row|;
    assert forall i :: 0 <= i < |row| ==> text[i] == row[i];
    var m := LineEnd(text);
    assert m < |text|;
  }

  // ----- line ends and the byte order mark, in bytes -----

  /** Each line followed by carriage return and newline. */
  ghost function CrLfText(lines: seq<Bytes>): Bytes {
    if lines == [] then [] else lines[0] + [13, 10] + CrLfText(lines[1..])
  }

  ghost function WithCR(lines: seq<Bytes>): seq<Bytes> {
    seq(|lines|, i requires 0 <= i < |lines| => lines[i] + [13])
  }

  lemma {:induction false} CrLfIsJoined(lines: seq<Bytes>)
    ensures CrLfText(lines) == JoinLines(WithCR(lines), [])
    decreases |lines|
  {
    if lines != [] {
      assert WithCR(lines)[1..] == WithCR(lines[1..]);
      CrLfIsJoined(lines[1..]);
      assert lines[0] + [13, 10] == WithCR(lines)[0] + [NL];
    }
  }

  /** A text with or without the mark EF BB BF in front. */
  lemma MarkDropped(text: Bytes)
    ensures DropBom([0xEF, 0xBB, 0xBF] + text) == text
    ensures text == [] || text[0] != 0xEF ==> DropBom(text) == text
  {
    assert ([0xEF, 0xBB, 0xBF] + text)[3..] == text;
  }

  /** Lines without a byte 10, each followed by 13 and 10, are read back exactly, after a byte order mark or
      without one; a line may itself end in 13. */
  lemma {:induction false} CrLfFile(lines: seq<Bytes>, blockLen: nat)
    requires forall i :: 0 <= i < |lines| ==> 10 !in lines[i] && |lines[i]| + 2 <= blockLen
    ensures AllLines(DropBom([0xEF, 0xBB, 0xBF] + CrLfText(lines)), blockLen) == Outcome(lines, false)
    ensures CrLfText(lines) == [] || CrLfText(lines)[0] != 0xEF ==>
              AllLines(DropBom(CrLfText(lines)), blockLen) == Outcome(lines, false)
  {
    hide AllLines, JoinLines;
    var raw := WithCR(lines);
    CrLfIsJoined(lines);
    MarkDropped(CrLfText(lines));
    EmptyIsNewlineFree();
    forall i | 0 <= i < |raw| ensures NewlineFree(raw[i]) && StripCR(raw[i]) == lines[i] {
      assert 10 !in lines[i];
    }
    LinesAreTheSplit(raw, [], blockLen);
    assert RawLines(raw, []) == raw && Stripped(raw) == lines;
  }

  /** The same for lines followed by 10 alone, when none ends in 13, and an unterminated last line. */
  lemma {:induction false} LfFile(lines: seq<Bytes>, last: Bytes, blockLen: nat)
    requires forall i :: 0 <= i < |lines| ==> 10 !in lines[i] && |lines[i]| + 1 <= blockLen
    requires forall i :: 0 <= i < |lines| && lines[i] != [] ==> lines[i][|lines[i]| - 1] != 13
    requires last != [] && 10 !in last && last[|last| - 1] != 13 && |last| + 1 <= blockLen
    ensures AllLines(DropBom([0xEF, 0xBB, 0xBF] + LfText(lines, last)), blockLen) == Outcome(lines + [last], false)
    ensures LfText(lines, last)[0] != 0xEF ==> AllLines(DropBom(LfText(lines, last)), blockLen) == Outcome(lines + [last], false)
  {
    hide AllLines, JoinLines;
    LfIsJoined(lines, last);
    MarkDropped(LfText(lines, last));
    forall i | 0 <= i < |lines| ensures NewlineFree(lines[i]) && StripCR(lines[i]) == lines[i] {
      assert 10 !in lines[i];
    }
    LinesAreTheSplit(lines, last, blockLen);
    assert Stripped(lines + [last]) == lines + [last];
  }

  ghost function LfText(lines: seq<Bytes>, last: Bytes): (text: Bytes)
    ensures last != [] ==> text != []
  {
    if lines == [] then last else lines[0] + [10] + LfText(lines[1..], last)
  }

  lemma {:induction false} LfIsJoined(lines: seq<Bytes>, last: Bytes)
    ensures LfText(lines, last) == JoinLines(lines, last)
    decreases |lines|
  {
    if lines != [] { LfIsJoined(lines[1..], last); }
  }
}
