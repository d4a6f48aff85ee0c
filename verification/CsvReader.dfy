/** Reading rows from a file: each line the line reader cuts off is split into columns where it lies in
    the reader's buffer. */
module CsvReaders {
  import opened Options
  import opened ByteOrder
  import opened LineReaders
  import opened CsvRows

  datatype RowRead = EndOfFile | LineTooLong | BadRow(error: RowError) | GoodRow

  class CsvReader {
    const lines: LineReader
    const sortedCol: array<nat>
    const order: seq<int>
    const policy: Policy

    ghost predicate Valid()
      reads this, lines
    {
      && lines.Valid() && Usable(policy)
      && forall k :: 0 <= k < |order| ==> order[k] == -1 || 0 <= order[k] < sortedCol.Length
    }

    constructor (input: Bytes, blockLen: nat, order: seq<int>, columns: nat, policy: Policy)
      requires blockLen >= 2 && Usable(policy)
      requires forall k :: 0 <= k < |order| ==> order[k] == -1 || 0 <= order[k] < columns
      ensures Valid() && lines.Pending() == DropBom(input) && lines.blockLen == blockLen
      ensures this.order == order && this.policy == policy && sortedCol.Length == columns
      ensures fresh(lines) && fresh(lines.buffer) && fresh(sortedCol)
    {
      lines := new LineReader(input, blockLen);
      sortedCol := new nat[columns];
      this.order, this.policy := order, policy;
    }

    /** read_row, without a comment policy and before the conversion of columns to values. */
    method ReadRow() returns (r: RowRead)
      requires Valid()
      modifies lines, lines.buffer, sortedCol
      ensures Valid()
      ensures lines.Pending() == if r.GoodRow? || r.BadRow? then AfterLine(old(lines.Pending())) else old(lines.Pending())
      ensures match NextLineSpec(old(lines.Pending()), lines.blockLen)
              case NoMore => r == EndOfFile
              case TooLong => r == LineTooLong
              case Line(text) =>
                match ParseLine(Some(text), order, policy)
                case Failed(e) => r == BadRow(e)
                case Columns(values) =>
                  r == GoodRow && Stored(lines.buffer[..], sortedCol[..], old(sortedCol[..]), values, lines.buffer.Length)
    {
      hide NextLineSpec, ParseLine, AfterLine, Stored, StringAt, CString, CStringAt, NulFree, LineReader.InStep;
      var next, start := lines.NextLine();
      if next.NoMore? { return EndOfFile; }
      if next.TooLong? { return LineTooLong; }
      ghost var end := start + |next.text|;
      ghost var b0 := lines.buffer[..];
      var error := ParseRow(lines.buffer, start, end, order, sortedCol, policy);
      UnreadKept(b0, lines.buffer[..], end, lines.dataBegin, lines.dataEnd);
      if error.Some? { return BadRow(error.value); }
      StoredWider(lines.buffer[..], sortedCol[..], old(sortedCol[..]), ParseLine(Some(next.text), order, policy).values, end + 1);
      return GoodRow;
    }
  }

  lemma UnreadKept(s0: Bytes, s1: Bytes, end: nat, dataBegin: nat, dataEnd: nat)
    requires |s0| == |s1| && end <= dataBegin <= dataEnd <= |s0| && s1[end..] == s0[end..]
    ensures s1[dataBegin..dataEnd] == s0[dataBegin..dataEnd]
  {
    assert s1[end..][dataBegin - end..dataEnd - end] == s0[end..][dataBegin - end..dataEnd - end];
  }

  lemma StoredWider(buf: Bytes, cols: seq<nat>, before: seq<nat>, values: seq<(int, Bytes)>, bound: nat)
    requires Stored(buf, cols, before, values, bound)
    ensures Stored(buf, cols, before, values, |buf|)
  {
  }

  // ----- a file of quoted rows -----

  ghost predicate PlainRow(fields: seq<Bytes>) {
    forall j :: 0 <= j < |fields| ==> NulFree(fields[j]) && NewlineFree(fields[j])
  }

  /** Separator and quote that do not look like a line end or the start of a byte order mark. */
  ghost predicate PlainPolicy(p: Policy) {
    Sensible(p) && p.sep != NL && p.quote != NL && p.quote != CR && p.quote != BOM[0]
  }

  lemma {:induction false} NewlinesDoubled(f: Bytes, quote: byte)
    requires quote != NL
    ensures Newlines(Double(f, quote)) == Newlines(f)
  {
    if f != [] {
      NewlinesDoubled(f[1..], quote);
      NewlinesAppend(if f[0] == quote then [quote, quote] else [f[0]], Double(f[1..], quote));
    }
  }

  lemma {:induction false} NewlinesOfRow(fields: seq<Bytes>, p: Policy)
    requires PlainPolicy(p) && fields != []
    ensures Newlines(JoinRow(fields, p)) == NewlinesIn(fields)
    decreases |fields|
  {
    hide Double, Newlines;
    var d := Double(fields[0], p.quote);
    NewlinesDoubled(fields[0], p.quote);
    OneByte(p.quote);
    OneByte(p.sep);
    NewlinesAppend([p.quote], d);
    NewlinesAppend([p.quote] + d, [p.quote]);
    if |fields| > 1 {
      NewlinesOfRow(fields[1..], p);
      NewlinesAppend(Quoted(fields[0], p.quote), [p.sep]);
      NewlinesAppend(Quoted(fields[0], p.quote) + [p.sep], JoinRow(fields[1..], p));
    } else {
      assert fields[1..] == [];
    }
  }

  lemma OneByte(b: byte)
    ensures Newlines([b]) == if b == NL then 1 else 0
  {
    assert [b][1..] == [] && Newlines([]) == 0;
  }

  /** A row begins and ends with a quote, and is one line exactly when no field holds a newline. */
  lemma {:induction false} RowShape(fields: seq<Bytes>, p: Policy)
    requires PlainPolicy(p) && fields != []
    ensures var line := JoinRow(fields, p);
            |line| > 0 && line[0] == p.quote && line[|line| - 1] == p.quote
    ensures NewlineFree(JoinRow(fields, p)) <==> AllNewlineFree(fields)
    decreases |fields|
  {
    hide Double, NewlineFree, AllNewlineFree;
    NewlinesOfRow(fields, p);
    NoNewlines(JoinRow(fields, p));
    NoNewlinesIn(fields);
    if |fields| > 1 { RowShape(fields[1..], p); }
  }

  ghost predicate NonEmpty(rows: seq<seq<Bytes>>) {
    forall i :: 0 <= i < |rows| ==> rows[i] != []
  }

  ghost function RowLines(rows: seq<seq<Bytes>>, p: Policy): (lines: seq<Bytes>)
    requires NonEmpty(rows)
    ensures |lines| == |rows|
  {
    seq(|rows|, i requires 0 <= i < |rows| => JoinRow(rows[i], p))
  }

  /** One quoted row per line. */
  ghost function File(rows: seq<seq<Bytes>>, p: Policy): Bytes
    requires NonEmpty(rows)
  {
    JoinLines(RowLines(rows, p), [])
  }

  /** Every line read is a row, and its columns are the row's fields. */
  ghost predicate ReadBack(o: Outcome, rows: seq<seq<Bytes>>, order: seq<int>, p: Policy) {
    && !o.tooLong && |o.lines| == |rows|
    && forall i :: 0 <= i < |rows| ==>
         |rows[i]| == |order| && ParseLine(Some(o.lines[i]), order, p) == Columns(Selected(rows[i], order))
  }

  /** For all rows whatever their fields hold: a file of them is read back if and only if each row has as
      many fields as there are columns, none of its fields holds a NUL or a newline, and it fits in a
      block. */
  lemma {:induction false} FileRoundTrip(rows: seq<seq<Bytes>>, order: seq<int>, blockLen: nat, p: Policy)
    requires PlainPolicy(p) && NonEmpty(rows)
    ensures ReadBack(AllLines(DropBom(File(rows, p)), blockLen), rows, order, p)
            <==> forall i :: 0 <= i < |rows| ==>
                   |rows[i]| == |order| && PlainRow(rows[i]) && |JoinRow(rows[i], p)| + 1 <= blockLen
  {
    hide JoinRow, ParseLine, AllLines, JoinLines, Selected, PlainRow, AllNewlineFree, StripCR;
    var lines := RowLines(rows, p);
    var o := AllLines(File(rows, p), blockLen);
    NoMarkInFile(rows, p);
    LinesOfRows(lines, blockLen);
    forall i | 0 <= i < |rows|
      ensures StripCR(lines[i]) == lines[i]
      ensures |rows[i]| == |order| ==>
                (PlainRow(rows[i])
                 <==> NewlineFree(lines[i]) && ParseLine(Some(lines[i]), order, p) == Columns(Selected(rows[i], order)))
    {
      RowShape(rows[i], p);
      NoCR(lines[i]);
      if |rows[i]| == |order| { PlainRowParses(rows[i], order, p); }
    }
    FitsAndFree(lines, blockLen);
    if AllNewlineFree(lines) {
      EmptyIsNewlineFree();
      LinesAreTheSplit(lines, [], blockLen);
      assert RawLines(lines, []) == lines == Stripped(lines);
    }
  }

  lemma NoCR(line: Bytes)
    ensures line != [] && line[|line| - 1] != CR ==> StripCR(line) == line
  {
  }

  lemma FitsAndFree(lines: seq<Bytes>, blockLen: nat)
    ensures AllNewlineFree(lines) <==> forall i :: 0 <= i < |lines| ==> NewlineFree(lines[i])
    ensures AllFit(lines, blockLen) <==> forall i :: 0 <= i < |lines| ==> |lines[i]| + 1 <= blockLen
  {
  }

  lemma {:induction false} PlainRowParses(fields: seq<Bytes>, order: seq<int>, p: Policy)
    requires PlainPolicy(p) && fields != [] && |fields| == |order|
    ensures PlainRow(fields)
            <==> NewlineFree(JoinRow(fields, p))
                 && ParseLine(Some(JoinRow(fields, p)), order, p) == Columns(Selected(fields, order))
  {
    hide JoinRow, ParseLine, Selected, NulFree, NewlineFree;
    RowShape(fields, p);
    RowRoundTrip(fields, order, p);
  }

  lemma NoMarkInFile(rows: seq<seq<Bytes>>, p: Policy)
    requires PlainPolicy(p) && NonEmpty(rows)
    ensures DropBom(File(rows, p)) == File(rows, p)
  {
    hide JoinRow;
    if rows != [] {
      RowShape(rows[0], p);
      var lines := RowLines(rows, p);
      assert File(rows, p)[0] == lines[0][0] == p.quote;
    }
  }

  // ----- a row that holds a newline -----

  /** A row cut inside its last field: whole fields and then a quote that is not closed. */
  function CutRow(fields: seq<Bytes>, part: Bytes, p: Policy): Bytes {
    if fields == [] then [p.quote] + Double(part, p.quote)
    else Quoted(fields[0], p.quote) + [p.sep] + CutRow(fields[1..], part, p)
  }

  /** Inside quotes with no closing one to come. */
  lemma {:induction false} NeverCloses(pre: Bytes, f: Bytes, p: Policy)
    requires Sensible(p)
    ensures ClosesAt(pre + Double(f, p.quote), |pre|, p, None)
    decreases |f|
  {
    hide ClosesAt;
    var line := pre + Double(f, p.quote);
    if f == [] {
      assert ClosesAt(line, |line|, p, None) by { AtTheEnd(line, p); }
    } else {
      var head := if f[0] == p.quote then [p.quote, p.quote] else [f[0]];
      assert line == (pre + head) + Double(f[1..], p.quote);
      NeverCloses(pre + head, f[1..], p);
      assert line[|pre|] == f[0];
      if f[0] == p.quote {
        assert line[|pre| + 1] == p.quote;
        PairContinues(line, |pre|, p, None);
      } else {
        OtherContinues(line, |pre|, p, None);
      }
    }
  }

  lemma AtTheEnd(line: Bytes, p: Policy)
    ensures ClosesAt(line, |line|, p, None)
  {
  }

  /** Such a row is reported as an unclosed quote, unless the columns wanted end before it. */
  lemma {:induction false} CutRowFails(fields: seq<Bytes>, part: Bytes, order: seq<int>, p: Policy)
    requires Sensible(p) && |order| > |fields|
    ensures ParseLine(Some(CutRow(fields, part, p)), order, p) == Failed(QuoteNotClosed)
    decreases |fields|
  {
    hide ParseLine, Value, NulFree, Double;
    var line := CutRow(fields, part, p);
    ParseStep(line, order, p);
    if fields == [] {
      NeverCloses([p.quote], part, p);
      assert ColumnEnd(line, 0, p) == None;
    } else {
      var q, tail := Quoted(fields[0], p.quote), [p.sep] + CutRow(fields[1..], part, p);
      assert line == q + tail;
      QuotedColumnEnd(fields[0], tail, p);
      CutRowFails(fields[1..], part, order[1..], p);
      assert line[|q|] == p.sep && line[|q| + 1..] == CutRow(fields[1..], part, p);
    }
  }

  /** Cut at its first newline, a row is cut inside the first field that holds one. */
  lemma {:induction false} CutInside(fields: seq<Bytes>, p: Policy) returns (j: nat, part: Bytes)
    requires PlainPolicy(p) && fields != [] && !AllNewlineFree(fields)
    ensures j < |fields|
    ensures var line := JoinRow(fields, p);
            line[..LineEnd(line)] == CutRow(fields[..j], part, p)
    decreases |fields|
  {
    hide NewlineFree, LineEnd, Double, AllNewlineFree;
    var f, line := fields[0], JoinRow(fields, p);
    RowShape(fields, p);
    if !NewlineFree(f) {
      j, part := 0, f[..LineEnd(f)];
      assert fields[..0] == [];
      var rest := if |fields| == 1 then [p.quote] else [p.quote] + [p.sep] + JoinRow(fields[1..], p);
      assert line == [p.quote] + Double(f, p.quote) + rest;
      CutField(f, rest, p);
    } else {
      FirstFieldFree(fields);
      var k;
      k, part := CutInside(fields[1..], p);
      j := k + 1;
      var q, rest := Quoted(f, p.quote), JoinRow(fields[1..], p);
      RowShape([f], p);
      assert NewlineFree(q) by { SingleField(f); }
      RowShape(fields[1..], p);
      SkipField(q, rest, p);
      assert line == q + [p.sep] + rest;
      assert fields[..j][0] == f && fields[..j][1..] == fields[1..][..k];
    }
  }

  lemma FirstFieldFree(fields: seq<Bytes>)
    requires fields != [] && !AllNewlineFree(fields) && NewlineFree(fields[0])
    ensures fields[1..] != [] && !AllNewlineFree(fields[1..])
  {
    var i :| 0 <= i < |fields| && !NewlineFree(fields[i]);
    assert fields[1..][i - 1] == fields[i];
  }

  lemma SingleField(f: Bytes)
    requires NewlineFree(f)
    ensures AllNewlineFree([f])
  {
  }

  /** The newline's place in the doubled field. */
  lemma {:induction false} CutField(f: Bytes, rest: Bytes, p: Policy)
    requires PlainPolicy(p) && !NewlineFree(f)
    ensures var line := [p.quote] + Double(f, p.quote) + rest;
            line[..LineEnd(line)] == [p.quote] + Double(f[..LineEnd(f)], p.quote)
  {
    hide LineEnd, Double;
    var n := LineEnd(f);
    var line, part := [p.quote] + Double(f, p.quote) + rest, Double(f[..n], p.quote);
    assert n < |f|;
    assert f == f[..n] + ([NL] + f[n + 1..]);
    DoubleAppend(f[..n], [NL] + f[n + 1..], p.quote);
    DoubleAppend([NL], f[n + 1..], p.quote);
    assert Double([NL], p.quote) == [NL] by { DoubleOne(NL, p.quote); }
    var head := [p.quote] + part;
    var tail := Double(f[n + 1..], p.quote) + rest;
    assert line == head + [NL] + tail;
    assert NewlineFree(head) by {
      NoNewlines(f[..n]);
      NewlinesDoubled(f[..n], p.quote);
      NoNewlines(part);
    }
    FirstLine(head, tail);
  }

  lemma {:induction false} DoubleOne(b: byte, quote: byte)
    ensures Double([b], quote) == if b == quote then [quote, quote] else [b]
  {
    assert [b][1..] == [] && Double([], quote) == [];
  }

  lemma {:induction false} DoubleAppend(a: Bytes, b: Bytes, quote: byte)
    ensures Double(a + b, quote) == Double(a, quote) + Double(b, quote)
    decreases |a|
  {
    if a == [] {
      assert [] + b == b;
    } else {
      assert (a + b)[1..] == a[1..] + b;
      DoubleAppend(a[1..], b, quote);
    }
  }

  lemma {:induction false} SkipField(q: Bytes, rest: Bytes, p: Policy)
    requires PlainPolicy(p) && NewlineFree(q) && !NewlineFree(rest)
    ensures var line := q + [p.sep] + rest;
            line[..LineEnd(line)] == q + [p.sep] + rest[..LineEnd(rest)]
  {
    hide LineEnd;
    var n := LineEnd(rest);
    assert n < |rest|;
    var head := q + [p.sep] + rest[..n];
    assert q + [p.sep] + rest == head + [NL] + rest[n + 1..];
    assert NewlineFree(head);
    FirstLine(head, rest[n + 1..]);
  }

  lemma {:induction false} CutRowShape(fields: seq<Bytes>, part: Bytes, p: Policy) returns (part': Bytes)
    requires PlainPolicy(p)
    ensures StripCR(CutRow(fields, part, p)) == CutRow(fields, part', p)
    ensures CutRow(fields, part, p) != []
    decreases |fields|
  {
    if fields == [] {
      part' := if part != [] && part[|part| - 1] == CR then part[..|part| - 1] else part;
      var line, n := CutRow([], part, p), |part|;
      if part != [] {
        assert part == part[..n - 1] + [part[n - 1]];
        DoubleAppend(part[..n - 1], [part[n - 1]], p.quote);
        DoubleOne(part[n - 1], p.quote);
        assert line == ([p.quote] + Double(part[..n - 1], p.quote)) + Double([part[n - 1]], p.quote);
      }
    } else {
      hide Double, Quoted;
      part' := CutRowShape(fields[1..], part, p);
      StripTail(Quoted(fields[0], p.quote) + [p.sep], CutRow(fields[1..], part, p));
    }
  }

  lemma StripTail(head: Bytes, tail: Bytes)
    requires tail != []
    ensures StripCR(head + tail) == head + StripCR(tail)
  {
  }

  /** The first row that holds a newline makes the reading fail: its line ends in an unclosed quote, or
      is too long for a block. */
  lemma {:induction false} FirstNewlineRow(rows: seq<seq<Bytes>>, i: nat, order: seq<int>, blockLen: nat, p: Policy)
    requires PlainPolicy(p) && NonEmpty(rows) && i < |rows| && !AllNewlineFree(rows[i]) && |order| >= |rows[i]|
    requires forall k :: 0 <= k < i ==> AllNewlineFree(rows[k]) && |JoinRow(rows[k], p)| + 1 <= blockLen
    ensures var o := AllLines(DropBom(File(rows, p)), blockLen);
            if LineEnd(JoinRow(rows[i], p)) + 1 > blockLen then o.tooLong && |o.lines| == i
            else |o.lines| > i && ParseLine(Some(o.lines[i]), order, p) == Failed(QuoteNotClosed)
  {
    hide JoinRow, AllLines, JoinLines, ParseLine, CutRow, StripCR, LineEnd, NewlineFree, AllNewlineFree;
    var lines := RowLines(rows, p);
    NoMarkInFile(rows, p);
    forall k | 0 <= k <= i ensures NewlineFree(lines[k]) <==> AllNewlineFree(rows[k]) { RowShape(rows[k], p); }
    FirstCutRow(lines, i, blockLen);
    var j, part := CutInside(rows[i], p);
    var part' := CutRowShape(rows[i][..j], part, p);
    CutRowFails(rows[i][..j], part', order, p);
  }

  lemma {:induction false} LineAndRest(line: Bytes, rest: seq<Bytes>)
    ensures JoinLines([line] + rest, []) == line + [NL] + JoinLines(rest, [])
    ensures JoinLines([], []) == []
  {
    assert ([line] + rest)[1..] == rest;
  }

  /** The smallest such file: the single field of its single row is a newline. */
  lemma NewlineSplitsRow()
    ensures var p := Policy(44, 34, {});
            var o := AllLines(File([[[NL]]], p), 1024);
            |o.lines| == 2 && ParseLine(Some(o.lines[0]), [0], p) == Failed(QuoteNotClosed)
  {
    hide AllLines, ParseLine, LineEnd, JoinLines;
    var p, rows := Policy(44, 34, {}), [[[NL]]];
    var line := JoinRow(rows[0], p);
    DoubleOne(NL, p.quote);
    assert line == [34, NL, 34];
    assert |line| == 3;
    assert RowLines(rows, p) == [line];
    NoMarkInFile(rows, p);
    assert !NewlineFree(rows[0][0]);
    FirstNewlineRow(rows, 0, [0], 1024, p);
    var parts: seq<Bytes> := [[34], [34]];
    var lines: seq<Bytes> := [line];
    LineAndRest(lines[0], []);
    LineAndRest(parts[0], parts[1..]);
    LineAndRest([34], []);
    assert lines == [line] + [] && parts == [[34]] + parts[1..] && parts[1..] == [[34]] + [];
    assert File(rows, p) == [34, NL, 34, NL] == JoinLines(parts, []);
    LinesOfRows(parts, 1024);
  }
}
