/** Splitting a CSV row into columns and undoing double-quote escaping in place.  A line is a C string:
    a NUL byte ends it wherever it stands. */
module CsvRows {
  import opened Options
  import opened ByteOrder

  /** The two characters of the quoting policy and the characters the trim policy removes. */
  datatype Policy = Policy(sep: byte, quote: byte, trim: set<byte>)

  ghost predicate Sensible(p: Policy) {
    p.sep != p.quote && p.sep != NUL && p.quote != NUL && p.quote !in p.trim
  }

  // ----- the column end -----

  /** Index of the first quote at or after i, or None where the line ends before one. */
  function NextQuote(line: Bytes, i: nat, quote: byte): (r: Option<nat>)
    requires i <= |line|
    ensures r.Some? ==> i <= r.value < |line| && line[r.value] == quote
    ensures r.Some? ==> forall k :: i <= k < r.value ==> line[k] != quote && line[k] != NUL
    decreases |line| - i
  {
    if i == |line| then None
    else if line[i] == quote then Some(i)
    else if line[i] == NUL then None
    else NextQuote(line, i + 1, quote)
  }

  /** Where the column that starts at or before i ends; None when a quote is never closed. */
  function ColumnEnd(line: Bytes, i: nat, p: Policy): (r: Option<nat>)
    requires i <= |line|
    ensures r.Some? ==> i <= r.value <= |line| && (r.value < |line| ==> line[r.value] == p.sep || line[r.value] == NUL)
    decreases |line| - i
  {
    if i == |line| || line[i] == p.sep || line[i] == NUL then Some(i)
    else if line[i] != p.quote then ColumnEnd(line, i + 1, p)
    else
      match NextQuote(line, i + 1, p.quote)
      case None => None
      case Some(close) => ColumnEnd(line, close + 1, p)
  }

  ghost predicate Usable(p: Policy) {
    p.sep != p.quote && p.quote != NUL
  }

  /** One step of either scan. */
  lemma ScanSteps(line: Bytes, i: nat, p: Policy)
    requires i <= |line| && Usable(p)
    ensures i == |line| ==> NextQuote(line, i, p.quote) == None && ColumnEnd(line, i, p) == Some(i)
    ensures i < |line| && line[i] == NUL ==> NextQuote(line, i, p.quote) == None && ColumnEnd(line, i, p) == Some(i)
    ensures i < |line| && line[i] == p.sep ==> ColumnEnd(line, i, p) == Some(i)
    ensures i < |line| && line[i] == p.quote ==>
              && NextQuote(line, i, p.quote) == Some(i)
              && ColumnEnd(line, i, p) == match NextQuote(line, i + 1, p.quote)
                                          case None => None
                                          case Some(close) => ColumnEnd(line, close + 1, p)
    ensures i < |line| && line[i] != p.quote && line[i] != NUL ==>
              NextQuote(line, i, p.quote) == NextQuote(line, i + 1, p.quote)
    ensures i < |line| && line[i] != p.quote && line[i] != p.sep && line[i] != NUL ==>
              ColumnEnd(line, i, p) == ColumnEnd(line, i + 1, p)
  {
  }

  /** A column lies before the line's first NUL. */
  lemma {:induction false} ColumnIsNulFree(line: Bytes, i: nat, p: Policy)
    requires i <= |line| && p.quote != NUL && ColumnEnd(line, i, p).Some?
    ensures forall k :: i <= k < ColumnEnd(line, i, p).value ==> line[k] != NUL
    decreases |line| - i
  {
    if i < |line| && line[i] != p.sep && line[i] != NUL {
      ColumnIsNulFree(line, if line[i] == p.quote then NextQuote(line, i + 1, p.quote).value + 1 else i + 1, p);
    }
  }

  /** Places in the line as places in the buffer that holds it from `begin` on. */
  function Shifted(r: Option<nat>, begin: nat): Option<nat> {
    if r.None? then None else Some(begin + r.value)
  }

  /** A line as it lies in a buffer: `end` is the place of its NUL. */
  ghost predicate LineIn(a: array<byte>, begin: nat, end: nat, line: Bytes)
    reads a
  {
    begin <= end < a.Length && a[end] == NUL && line == a[begin..end]
  }

  /** The innermost loop: on to the next quote. */
  method FindQuote(a: array<byte>, from: nat, ghost begin: nat, ghost end: nat, ghost line: Bytes, quote: byte)
    returns (r: Option<nat>)
    requires LineIn(a, begin, end, line) && begin <= from <= end && quote != NUL
    ensures r == Shifted(NextQuote(line, from - begin, quote), begin)
  {
    var i := from;
    while a[i] != quote
      invariant from <= i <= end
      invariant NextQuote(line, from - begin, quote) == NextQuote(line, i - begin, quote)
      decreases end - i
    {
      if a[i] == NUL { return None; }
      i := i + 1;
    }
    return Some(i);
  }

  /** The do-while loop from a quote on: a doubled quote closes and reopens. */
  method SkipQuoted(a: array<byte>, from: nat, ghost begin: nat, ghost end: nat, ghost line: Bytes, p: Policy)
    returns (r: Option<nat>)
    requires LineIn(a, begin, end, line) && begin <= from < end && Usable(p) && a[from] == p.quote
    ensures r.None? ==> ColumnEnd(line, from - begin, p) == None
    ensures r.Some? ==> from < r.value <= end && ColumnEnd(line, from - begin, p) == ColumnEnd(line, r.value - begin, p)
  {
    hide NextQuote, ColumnEnd;
    var i, again := from, true;
    while again
      invariant from <= i <= end && ColumnEnd(line, from - begin, p) == ColumnEnd(line, i - begin, p)
      invariant again ==> i < end && a[i] == p.quote
      invariant !again ==> from < i
      decreases end - i, again
    {
      ScanSteps(line, i - begin, p);
      var close := FindQuote(a, i + 1, begin, end, line, p.quote);
      if close.None? { return None; }
      i := close.value + 1;
      again := a[i] == p.quote;
    }
    return Some(i);
  }

  /** find_next_column_end. */
  method FindNextColumnEnd(a: array<byte>, begin: nat, ghost end: nat, p: Policy) returns (r: Option<nat>)
    requires begin <= end < a.Length && a[end] == NUL && Usable(p)
    ensures r == Shifted(ColumnEnd(a[begin..end], 0, p), begin)
  {
    hide NextQuote, ColumnEnd;
    ghost var line := a[begin..end];
    var i := begin;
    while a[i] != p.sep && a[i] != NUL
      invariant begin <= i <= end && ColumnEnd(line, 0, p) == ColumnEnd(line, i - begin, p)
      decreases end - i
    {
      ScanSteps(line, i - begin, p);
      if a[i] != p.quote {
        i := i + 1;
      } else {
        var next := SkipQuoted(a, i, begin, end, line, p);
        if next.None? { return None; }
        i := next.value;
      }
    }
    ScanSteps(line, i - begin, p);
    return Some(i);
  }

  // ----- unescaping -----

  /** Every doubled quote becomes one. */
  function Collapse(s: Bytes, quote: byte): (t: Bytes)
    ensures |t| <= |s| && (NulFree(s) ==> NulFree(t))
  {
    if s == [] then []
    else if s[0] == quote && |s| > 1 && s[1] == quote then [quote] + Collapse(s[2..], quote)
    else [s[0]] + Collapse(s[1..], quote)
  }

  predicate IsQuoted(col: Bytes, quote: byte) {
    |col| >= 2 && col[0] == quote && col[|col| - 1] == quote
  }

  function Unescape(col: Bytes, quote: byte): (t: Bytes)
    ensures NulFree(col) ==> NulFree(t)
  {
    if IsQuoted(col, quote) then Collapse(col[1..|col| - 1], quote) else col
  }

  /** The copying loop: the write position never passes the read position. */
  method CollapseInPlace(a: array<byte>, begin: nat, end: nat, quote: byte) returns (out: nat)
    requires begin <= end <= a.Length
    modifies a
    ensures begin <= out <= end
    ensures a[begin..out] == Collapse(old(a[begin..end]), quote)
    ensures a[..begin] == old(a[..begin]) && a[end..] == old(a[end..])
  {
    hide Collapse, NulFree;
    CollapseStep([], quote);
    ghost var all := Collapse(a[begin..end], quote);
    var at := begin;
    out := begin;
    assert a[begin..begin] == [];
    while at != end
      invariant begin <= out <= at <= end
      invariant a[begin..out] + Collapse(a[at..end], quote) == all
      invariant a[..begin] == old(a[..begin]) && a[end..] == old(a[end..])
      decreases end - at
    {
      ghost var src, first := a[..], at;
      if a[at] == quote && at + 1 != end && a[at + 1] == quote {
        at := at + 1;
      }
      a[out] := a[at];
      assert a[..] == src[out := src[at]];
      CollapseTurn(src, begin, end, out, first, at, quote);
      out := out + 1;
      at := at + 1;
    }
    assert a[at..end] == [];
  }

  /** One turn of the copying loop, which reads at `first` and copies from `at`. */
  lemma {:induction false} CollapseTurn(src: Bytes, begin: nat, end: nat, out: nat, first: nat, at: nat, quote: byte)
    requires begin <= out <= first <= at < end <= |src|
    requires at == if src[first] == quote && first + 1 != end && src[first + 1] == quote then first + 1 else first
    ensures var dst := src[out := src[at]];
            && dst[begin..out + 1] + Collapse(dst[at + 1..end], quote) == src[begin..out] + Collapse(src[first..end], quote)
            && dst[..begin] == src[..begin] && dst[end..] == src[end..]
  {
    hide Collapse, NulFree;
    CollapseStep(src[first..end], quote);
    assert src[first..end][at + 1 - first..] == src[at + 1..end];
    CopiedDown(src, begin, end, out, at);
    assert src[begin..out] + ([src[at]] + Collapse(src[at + 1..end], quote))
        == (src[begin..out] + [src[at]]) + Collapse(src[at + 1..end], quote);
  }

  lemma CopiedDown(src: Bytes, begin: nat, end: nat, out: nat, at: nat)
    requires begin <= out <= at < end <= |src|
    ensures var dst := src[out := src[at]];
            && dst[begin..out + 1] == src[begin..out] + [src[at]]
            && dst[at + 1..end] == src[at + 1..end]
            && dst[..begin] == src[..begin] && dst[end..] == src[end..]
  {
  }

  /** unescape: in place, and nothing outside the column is touched. */
  method UnescapeInPlace(a: array<byte>, colBegin: nat, colEnd: nat, quote: byte) returns (newBegin: nat, newEnd: nat)
    requires colBegin <= colEnd < a.Length
    modifies a
    ensures colBegin <= newBegin <= newEnd <= colEnd
    ensures a[newBegin..newEnd] == Unescape(old(a[colBegin..colEnd]), quote)
    ensures IsQuoted(old(a[colBegin..colEnd]), quote) || old(a[colEnd]) == NUL ==> a[newEnd] == NUL
    ensures a[..colBegin] == old(a[..colBegin]) && a[colEnd..] == old(a[colEnd..])
  {
    hide Collapse;
    newBegin, newEnd := colBegin, colEnd;
    ghost var col, before := a[colBegin..colEnd], a[..];
    if colEnd - colBegin >= 2 {
      if a[colBegin] == quote && a[colEnd - 1] == quote {
        newBegin, newEnd := colBegin + 1, colEnd - 1;
        assert a[newBegin..newEnd] == col[1..|col| - 1];
        var out := CollapseInPlace(a, newBegin, newEnd, quote);
        assert a[..newBegin][..colBegin] == a[..colBegin] && before[..newBegin][..colBegin] == before[..colBegin];
        assert a[newEnd..][1..] == a[colEnd..] && before[newEnd..][1..] == before[colEnd..];
        newEnd := out;
        a[newEnd] := NUL;
      }
    }
  }

  lemma CollapseStep(s: Bytes, quote: byte)
    ensures s != [] ==>
              Collapse(s, quote) == [s[0]] + Collapse(if s[0] == quote && |s| > 1 && s[1] == quote then s[2..] else s[1..], quote)
    ensures Collapse([], quote) == []
  {
  }

  // ----- rows -----

  function TrimLeft(s: Bytes, p: Policy): (t: Bytes)
    ensures NulFree(s) ==> NulFree(t)
  {
    if s != [] && s[0] in p.trim then TrimLeft(s[1..], p) else s
  }

  function TrimRight(s: Bytes, p: Policy): (t: Bytes)
    ensures NulFree(s) ==> NulFree(t)
  {
    if s != [] && s[|s| - 1] in p.trim then TrimRight(s[..|s| - 1], p) else s
  }

  lemma {:induction false} TrimSteps(s: Bytes, p: Policy)
    ensures TrimLeft(s, p) == if s != [] && s[0] in p.trim then TrimLeft(s[1..], p) else s
    ensures TrimRight(s, p) == if s != [] && s[|s| - 1] in p.trim then TrimRight(s[..|s| - 1], p) else s
  {
  }

  function Trimmed(s: Bytes, p: Policy): Bytes { TrimRight(TrimLeft(s, p), p) }

  /** A column's value. */
  function Value(col: Bytes, p: Policy): (v: Bytes)
    ensures NulFree(col) ==> NulFree(v)
  {
    Unescape(Trimmed(col, p), p.quote)
  }

  datatype RowError = TooFewColumns | TooManyColumns | QuoteNotClosed
  datatype Row = Columns(values: seq<(int, Bytes)>) | Failed(error: RowError)

  /** What is left of the line after a column that ends at `end`. */
  function AfterColumn(line: Bytes, end: nat): Option<Bytes>
    requires end <= |line|
  {
    if end == |line| || line[end] == NUL then None else Some(line[end + 1..])
  }

  /** parse_line: one column per entry of the order; an entry of -1 skips its column. */
  function ParseLine(line: Option<Bytes>, order: seq<int>, p: Policy): Row
    decreases |order|
  {
    if order == [] then (if line.None? then Columns([]) else Failed(TooManyColumns))
    else if line.None? then Failed(TooFewColumns)
    else
      match ColumnEnd(line.value, 0, p)
      case None => Failed(QuoteNotClosed)
      case Some(end) =>
        var rest := ParseLine(AfterColumn(line.value, end), order[1..], p);
        Prepended(if order[0] == -1 then [] else [(order[0], Value(line.value[..end], p))], rest)
  }

  function Prepended(values: seq<(int, Bytes)>, row: Row): Row {
    if row.Columns? then Columns(values + row.values) else row
  }

  lemma PrependTwice(some: seq<(int, Bytes)>, more: seq<(int, Bytes)>, row: Row)
    ensures Prepended(some, Prepended(more, row)) == Prepended(some + more, row)
    ensures Prepended([], row) == row
  {
    if row.Columns? { assert some + (more + row.values) == (some + more) + row.values; }
  }

  lemma {:induction false} ParseStep(line: Bytes, order: seq<int>, p: Policy)
    requires order != []
    ensures ParseLine(Some(line), order, p) ==
            match ColumnEnd(line, 0, p)
            case None => Failed(QuoteNotClosed)
            case Some(end) =>
              Prepended(if order[0] == -1 then [] else [(order[0], Value(line[..end], p))],
                        ParseLine(AfterColumn(line, end), order[1..], p))
  {
  }

  // ----- rows, in place -----

  /** chop_next_column: the separator becomes NUL. */
  method ChopNextColumn(a: array<byte>, line: nat, ghost end: nat, p: Policy)
    returns (colEnd: Option<nat>, rest: Option<nat>)
    requires line <= end < a.Length && a[end] == NUL && Usable(p)
    modifies a
    ensures colEnd == Shifted(ColumnEnd(old(a[line..end]), 0, p), line)
    ensures colEnd.None? ==> a[..] == old(a[..])
    ensures colEnd.Some? ==>
              && a[..] == old(a[..])[colEnd.value := NUL]
              && rest == if old(a[colEnd.value]) == NUL then None else Some(colEnd.value + 1)
  {
    hide ColumnEnd;
    colEnd := FindNextColumnEnd(a, line, end, p);
    if colEnd.None? { return None, None; }
    if a[colEnd.value] == NUL { return colEnd, None; }
    a[colEnd.value] := NUL;
    rest := Some(colEnd.value + 1);
  }

  /** The two loops of trim. */
  method TrimEnds(a: array<byte>, colBegin: nat, colEnd: nat, p: Policy) returns (newBegin: nat, newEnd: nat)
    requires colBegin <= colEnd < a.Length
    ensures colBegin <= newBegin <= newEnd <= colEnd
    ensures a[newBegin..newEnd] == Trimmed(a[colBegin..colEnd], p)
  {
    hide TrimLeft, TrimRight, NulFree;
    newBegin, newEnd := colBegin, colEnd;
    ghost var col := a[colBegin..colEnd];
    while newBegin != newEnd && a[newBegin] in p.trim
      invariant colBegin <= newBegin <= newEnd && TrimLeft(col, p) == TrimLeft(a[newBegin..newEnd], p)
    {
      TrimSteps(a[newBegin..newEnd], p);
      assert a[newBegin..newEnd][1..] == a[newBegin + 1..newEnd];
      newBegin := newBegin + 1;
    }
    TrimSteps(a[newBegin..newEnd], p);
    while newBegin != newEnd && a[newEnd - 1] in p.trim
      invariant newBegin <= newEnd <= colEnd && Trimmed(col, p) == TrimRight(a[newBegin..newEnd], p)
    {
      ghost var s := a[newBegin..newEnd];
      TrimSteps(s, p);
      assert s[..|s| - 1] == a[newBegin..newEnd - 1];
      newEnd := newEnd - 1;
    }
    TrimSteps(a[newBegin..newEnd], p);
  }

  /** trim: both ends move inward and the new end becomes NUL. */
  method Trim(a: array<byte>, colBegin: nat, colEnd: nat, p: Policy) returns (newBegin: nat, newEnd: nat)
    requires colBegin <= colEnd < a.Length
    modifies a
    ensures colBegin <= newBegin <= newEnd <= colEnd
    ensures a[newBegin..newEnd] == Trimmed(old(a[colBegin..colEnd]), p)
    ensures a[..] == old(a[..])[newEnd := NUL]
  {
    hide Trimmed;
    newBegin, newEnd := TrimEnds(a, colBegin, colEnd, p);
    a[newEnd] := NUL;
  }

  /** One wanted column: trimmed and unescaped where it lies. */
  method TakeColumn(a: array<byte>, colBegin: nat, colEnd: nat, p: Policy) returns (at: nat)
    requires colBegin <= colEnd < a.Length && a[colEnd] == NUL && NulFree(a[colBegin..colEnd])
    modifies a
    ensures var v := Value(old(a[colBegin..colEnd]), p);
            colBegin <= at && at + |v| <= colEnd && StringAt(a[..], at, v)
    ensures a[..colBegin] == old(a[..colBegin]) && a[colEnd..] == old(a[colEnd..])
  {
    hide Trimmed, Unescape;
    ghost var col, before := a[colBegin..colEnd], a[..];
    var b, e := Trim(a, colBegin, colEnd, p);
    ghost var trimmed := a[..];
    var end;
    at, end := UnescapeInPlace(a, b, e, p.quote);
    assert Value(col, p) == a[at..end];
    KeptOutside(before, trimmed, a[..], colBegin, b, e, colEnd);
  }

  lemma KeptOutside(s0: Bytes, s1: Bytes, s2: Bytes, colBegin: nat, b: nat, e: nat, colEnd: nat)
    requires |s0| == |s1| == |s2| && colBegin <= b <= e <= colEnd < |s0| && s0[colEnd] == NUL
    requires s1 == s0[e := NUL] && s2[..b] == s1[..b] && s2[e..] == s1[e..]
    ensures s2[..colBegin] == s0[..colBegin] && s2[colEnd..] == s0[colEnd..]
  {
    assert s2[..b][..colBegin] == s1[..b][..colBegin];
    assert s2[e..][colEnd - e..] == s1[e..][colEnd - e..];
  }

  /** The value stored last under an index. */
  ghost function Latest(values: seq<(int, Bytes)>, i: int): Option<Bytes> {
    if values == [] then None
    else if values[|values| - 1].0 == i then Some(values[|values| - 1].1)
    else Latest(values[..|values| - 1], i)
  }

  /** Each entry of sorted_col points to its value as a C string below `bound`, or is as it was. */
  ghost predicate Stored(buf: Bytes, cols: seq<nat>, before: seq<nat>, values: seq<(int, Bytes)>, bound: nat) {
    |cols| == |before| && bound <= |buf| &&
    forall j :: 0 <= j < |cols| ==>
      match Latest(values, j)
      case None => cols[j] == before[j]
      case Some(v) => cols[j] + |v| < bound && StringAt(buf, cols[j], v)
  }

  lemma BelowKept(s: Bytes, t: Bytes, bound: nat, at: nat, n: nat)
    requires at + n < bound <= |s| && bound <= |t| && t[..bound] == s[..bound]
    ensures t[at..at + n] == s[at..at + n] && t[at + n] == s[at + n]
  {
    forall k | 0 <= k < bound ensures t[k] == s[k] {
      assert t[..bound][k] == s[..bound][k];
    }
  }

  /** What lies below `bound` stays where it is when the bytes there do not change. */
  lemma StoredKept(buf: Bytes, buf': Bytes, cols: seq<nat>, before: seq<nat>, values: seq<(int, Bytes)>, bound: nat, bound': nat)
    requires Stored(buf, cols, before, values, bound) && bound <= bound' <= |buf'| && buf'[..bound] == buf[..bound]
    ensures Stored(buf', cols, before, values, bound')
  {
    forall j | 0 <= j < |cols| && Latest(values, j).Some?
      ensures cols[j] + |Latest(values, j).value| < bound' && StringAt(buf', cols[j], Latest(values, j).value)
    {
      var at, v := cols[j], Latest(values, j).value;
      BelowKept(buf, buf', bound, at, |v|);
    }
  }

  lemma StoredMore(buf: Bytes, cols: seq<nat>, before: seq<nat>, values: seq<(int, Bytes)>, bound: nat, i: nat, at: nat, v: Bytes)
    requires Stored(buf, cols, before, values, bound) && i < |cols| && at + |v| < bound && StringAt(buf, at, v)
    ensures Stored(buf, cols[i := at], before, values + [(i, v)], bound)
  {
    assert (values + [(i, v)])[..|values|] == values;
  }

  /** Where the part of the buffer ends that the columns read so far may point into. */
  function Bound(rest: Option<nat>, end: nat): nat { if rest.Some? then rest.value else end + 1 }

  /** One turn of parse_line: cut the next column off and, if it is wanted, trim and unescape it.  `at` is
      None for an unclosed quote. */
  method NextColumn(a: array<byte>, line: nat, ghost end: nat, wanted: bool, p: Policy)
    returns (at: Option<nat>, rest: Option<nat>)
    requires line <= end < a.Length && a[end] == NUL && Usable(p)
    modifies a
    ensures a[..line] == old(a[..line]) && a[end..] == old(a[end..])
    ensures var text := old(a[line..end]);
            match ColumnEnd(text, 0, p)
            case None => at == None
            case Some(n) =>
              && at.Some? && line <= Bound(rest, end) <= end + 1 && (rest.Some? ==> rest.value <= end)
              && AfterColumn(text, n) == (if rest.None? then None else Some(a[Bound(rest, end)..end]))
              && (wanted ==> var v := Value(text[..n], p); at.value + |v| < Bound(rest, end) && StringAt(a[..], at.value, v))
  {
    hide ColumnEnd, Value, StringAt;
    ghost var b0, text := a[..], a[line..end];
    var colEnd;
    colEnd, rest := ChopNextColumn(a, line, end, p);
    if colEnd.None? {
      HeadKept(b0, a[..], line, end);
      return None, None;
    }
    ghost var n := colEnd.value - line;
    ColumnIsNulFree(text, 0, p);
    Chopped(b0, a[..], line, end, n, text);
    at := Some(line);
    if wanted {
      ghost var b1 := a[..];
      var start := TakeColumn(a, line, colEnd.value, p);
      TailKept(b1, a[..], colEnd.value, end);
      at := Some(start);
    }
  }

  /** parse_line, in place: on success every wanted column is a C string in the buffer, also after all
      later columns have been cut off, trimmed and unescaped. */
  method ParseRow(a: array<byte>, begin: nat, ghost end: nat, order: seq<int>, sortedCol: array<nat>, p: Policy)
    returns (error: Option<RowError>)
    requires begin <= end < a.Length && a[end] == NUL && Usable(p)
    requires forall k :: 0 <= k < |order| ==> order[k] == -1 || 0 <= order[k] < sortedCol.Length
    modifies a, sortedCol
    ensures a[..begin] == old(a[..begin]) && a[end..] == old(a[end..])
    ensures match ParseLine(Some(old(a[begin..end])), order, p)
            case Columns(values) => error == None && Stored(a[..], sortedCol[..], old(sortedCol[..]), values, end + 1)
            case Failed(e) => error == Some(e)
  {
    hide ColumnEnd, Value, ParseLine, Stored, Latest, StringAt, AfterColumn, Usable;
    var line: Option<nat> := Some(begin);
    ghost var text: Option<Bytes> := Some(a[begin..end]);
    ghost var row := ParseLine(text, order, p);
    ghost var values: seq<(int, Bytes)> := [];
    ghost var before := sortedCol[..];
    NothingStored(a[..], before, begin);
    PrependTwice([], [], row);
    assert order[0..] == order;
    for i := 0 to |order|
      invariant begin <= Bound(line, end) <= end + 1 && (line.Some? ==> line.value <= end)
      invariant a[..begin] == old(a[..begin]) && a[end..] == old(a[end..])
      invariant text == (if line.None? then None else Some(a[Bound(line, end)..end]))
      invariant row == Prepended(values, ParseLine(text, order[i..], p))
      invariant Stored(a[..], sortedCol[..], before, values, Bound(line, end))
    {
      assert order[i..][0] == order[i] && order[i..][1..] == order[i + 1..];
      if line.None? { NoLine(order[i..], p); return Some(TooFewColumns); }
      ghost var b0, col := a[..], if ColumnEnd(text.value, 0, p).Some? then text.value[..ColumnEnd(text.value, 0, p).value] else [];
      ParseStep(text.value, order[i..], p);
      var start := line.value;
      var at;
      at, line := NextColumn(a, start, end, order[i] != -1, p);
      HeadKept(b0, a[..], begin, start);
      if at.None? { return Some(QuoteNotClosed); }
      ghost var more := if order[i] == -1 then [] else [(order[i], Value(col, p))];
      text := AfterColumn(text.value, |col|);
      PrependTwice(values, more, ParseLine(text, order[i + 1..], p));
      StoredKept(b0, a[..], sortedCol[..], before, values, start, Bound(line, end));
      if order[i] != -1 {
        StoredMore(a[..], sortedCol[..], before, values, Bound(line, end), order[i], at.value, Value(col, p));
        ghost var cols := sortedCol[..];
        sortedCol[order[i]] := at.value;
        assert sortedCol[..] == cols[order[i] := at.value];
      }
      assert order[i] == -1 ==> values + more == values;
      values := values + more;
    }
    assert order[|order|..] == [] && values + [] == values;
    NoOrder(text, p);
    return if line.None? then None else Some(TooManyColumns);
  }

  lemma NothingStored(buf: Bytes, before: seq<nat>, bound: nat)
    requires bound <= |buf|
    ensures Stored(buf, before, before, [], bound)
  {
  }

  lemma {:induction false} NoLine(order: seq<int>, p: Policy)
    ensures ParseLine(None, order, p) == if order == [] then Columns([]) else Failed(TooFewColumns)
  {
  }

  lemma {:induction false} NoOrder(line: Option<Bytes>, p: Policy)
    ensures ParseLine(line, [], p) == if line.None? then Columns([]) else Failed(TooManyColumns)
  {
  }

  /** The buffer after a column of `n` bytes has been cut off the line `text` at `colBegin`. */
  lemma Chopped(s0: Bytes, s1: Bytes, colBegin: nat, end: nat, n: nat, text: Bytes)
    requires colBegin <= end < |s0| && s0[end] == NUL && text == s0[colBegin..end] && n <= |text|
    requires s1 == s0[colBegin + n := NUL] && forall k :: 0 <= k < n ==> text[k] != NUL
    ensures s1[..colBegin] == s0[..colBegin] && s1[end..] == s0[end..] && s1[colBegin + n] == NUL
    ensures s1[colBegin..colBegin + n] == text[..n] && NulFree(text[..n])
    ensures n < |text| ==> s1[colBegin + n + 1..end] == text[n + 1..]
  {
  }

  lemma TailKept(s1: Bytes, s2: Bytes, colEnd: nat, end: nat)
    requires |s1| == |s2| && colEnd <= end < |s1| && s2[colEnd..] == s1[colEnd..]
    ensures s2[end..] == s1[end..] && (colEnd < end ==> s2[colEnd + 1..end] == s1[colEnd + 1..end])
  {
    assert s2[colEnd..][end - colEnd..] == s1[colEnd..][end - colEnd..];
    if colEnd < end {
      assert s2[colEnd..][1..end - colEnd] == s1[colEnd..][1..end - colEnd];
    }
  }

  lemma HeadKept(s1: Bytes, s2: Bytes, begin: nat, colBegin: nat)
    requires |s1| == |s2| && begin <= colBegin <= |s1| && s2[..colBegin] == s1[..colBegin]
    ensures s2[..begin] == s1[..begin]
  {
    assert s2[..colBegin][..begin] == s1[..colBegin][..begin];
  }

  // ----- round trip -----

  function Double(f: Bytes, quote: byte): Bytes {
    if f == [] then []
    else (if f[0] == quote then [quote, quote] else [f[0]]) + Double(f[1..], quote)
  }

  function Quoted(f: Bytes, quote: byte): Bytes {
    [quote] + Double(f, quote) + [quote]
  }

  /** Fields quoted and joined by the separator. */
  function JoinRow(fields: seq<Bytes>, p: Policy): Bytes
    requires fields != []
  {
    if |fields| == 1 then Quoted(fields[0], p.quote)
    else Quoted(fields[0], p.quote) + [p.sep] + JoinRow(fields[1..], p)
  }

  lemma {:induction false} CollapseDouble(f: Bytes, quote: byte)
    ensures Collapse(Double(f, quote), quote) == f
  {
    if f != [] {
      CollapseDouble(f[1..], quote);
      var d, rest := Double(f, quote), Double(f[1..], quote);
      if f[0] == quote { assert d[2..] == rest; } else { assert d[1..] == rest; }
    }
  }

  lemma UnescapeQuoted(f: Bytes, p: Policy)
    requires Sensible(p)
    ensures Value(Quoted(f, p.quote), p) == f
  {
    var q := Quoted(f, p.quote);
    assert q[1..|q| - 1] == Double(f, p.quote);
    CollapseDouble(f, p.quote);
  }

  /** From i on, inside quotes, the column ends at `end`; None when the quotes are never closed. */
  ghost predicate ClosesAt(line: Bytes, i: nat, p: Policy, end: Option<nat>)
    requires i <= |line|
  {
    match NextQuote(line, i, p.quote)
    case None => end == None
    case Some(close) => ColumnEnd(line, close + 1, p) == end
  }

  lemma PairContinues(line: Bytes, i: nat, p: Policy, end: Option<nat>)
    requires Sensible(p) && i + 2 <= |line| && line[i] == p.quote && line[i + 1] == p.quote
    requires ClosesAt(line, i + 2, p, end)
    ensures ClosesAt(line, i, p, end)
  {
    hide NextQuote, ColumnEnd;
    ScanSteps(line, i, p);
    ScanSteps(line, i + 1, p);
  }

  lemma OtherContinues(line: Bytes, i: nat, p: Policy, end: Option<nat>)
    requires Sensible(p) && i < |line| && line[i] != p.quote
    requires if line[i] == NUL then end == None else ClosesAt(line, i + 1, p, end)
    ensures ClosesAt(line, i, p, end)
  {
    hide ColumnEnd;
    ScanSteps(line, i, p);
  }

  lemma {:induction false} QuoteCloses(line: Bytes, i: nat, p: Policy)
    requires Sensible(p) && i < |line| && line[i] == p.quote
    ensures ClosesAt(line, i, p, ColumnEnd(line, i + 1, p))
  {
    hide ColumnEnd;
    ScanSteps(line, i, p);
  }

  /** Inside a quoted field, with `Double(f) + quote` still to come, the column goes on behind that closing
      quote, unless a NUL in the field hides it. */
  lemma {:induction false} InsideQuotes(pre: Bytes, f: Bytes, tail: Bytes, p: Policy)
    requires Sensible(p)
    ensures var line := pre + Double(f, p.quote) + [p.quote] + tail;
            ClosesAt(line, |pre|, p, if NulFree(f) then ColumnEnd(line, |line| - |tail|, p) else None)
    decreases |f|
  {
    hide ClosesAt, ColumnEnd;
    var line := pre + Double(f, p.quote) + [p.quote] + tail;
    var end := if NulFree(f) then ColumnEnd(line, |line| - |tail|, p) else None;
    if f == [] {
      assert line[|pre|] == p.quote;
      QuoteCloses(line, |pre|, p);
    } else {
      var head := if f[0] == p.quote then [p.quote, p.quote] else [f[0]];
      assert line == (pre + head) + Double(f[1..], p.quote) + [p.quote] + tail;
      InsideQuotes(pre + head, f[1..], tail, p);
      assert line[|pre|] == f[0];
      assert NulFree(f) <==> f[0] != NUL && NulFree(f[1..]) by { assert f == [f[0]] + f[1..]; }
      if f[0] == p.quote {
        assert line[|pre| + 1] == p.quote;
        PairContinues(line, |pre|, p, end);
      } else {
        OtherContinues(line, |pre|, p, end);
      }
    }
  }

  /** A quoted field in a column is stepped over whole if it is NUL-free; with a NUL it is never closed. */
  lemma {:induction false} QuotedInColumn(pre: Bytes, f: Bytes, tail: Bytes, p: Policy)
    requires Sensible(p)
    ensures var line := pre + Quoted(f, p.quote) + tail;
            ColumnEnd(line, |pre|, p) == if NulFree(f) then ColumnEnd(line, |pre| + |Quoted(f, p.quote)|, p) else None
  {
    hide ColumnEnd;
    var line := pre + Quoted(f, p.quote) + tail;
    assert line == (pre + [p.quote]) + Double(f, p.quote) + [p.quote] + tail;
    assert line[|pre|] == p.quote;
    InsideQuotes(pre + [p.quote], f, tail, p);
    ScanSteps(line, |pre|, p);
  }

  /** The first column of a row of quoted fields is exactly the first quoted field, whatever a NUL-free
      field contains; a field with a NUL is never closed. */
  lemma {:induction false} QuotedColumnEnd(f: Bytes, tail: Bytes, p: Policy)
    requires Sensible(p) && (tail == [] || tail[0] == p.sep)
    ensures ColumnEnd(Quoted(f, p.quote) + tail, 0, p) == if NulFree(f) then Some(|Quoted(f, p.quote)|) else None
  {
    var q := Quoted(f, p.quote);
    QuotedInColumn([], f, tail, p);
    assert [] + q + tail == q + tail;
    assert tail != [] ==> (q + tail)[|q|] == tail[0];
    ScanSteps(q + tail, |q|, p);
  }

  ghost function Selected(fields: seq<Bytes>, order: seq<int>): seq<(int, Bytes)>
    requires |fields| == |order|
  {
    if fields == [] then []
    else (if order[0] == -1 then [] else [(order[0], fields[0])]) + Selected(fields[1..], order[1..])
  }

  /** The first n fields hold no NUL. */
  ghost predicate NulFreeUpTo(fields: seq<Bytes>, n: nat) {
    forall i :: 0 <= i < |fields| && i < n ==> NulFree(fields[i])
  }

  lemma NulFreeStep(fields: seq<Bytes>, n: nat)
    requires fields != [] && n > 0
    ensures NulFreeUpTo(fields, n) <==> NulFree(fields[0]) && NulFreeUpTo(fields[1..], n - 1)
  {
    assert forall i :: 0 <= i < |fields| - 1 ==> fields[1..][i] == fields[i + 1];
    if NulFree(fields[0]) && NulFreeUpTo(fields[1..], n - 1) {
      forall i | 0 <= i < |fields| && i < n ensures NulFree(fields[i]) {
        if i > 0 { assert NulFree(fields[1..][i - 1]); }
      }
    }
  }

  /** A row of quoted fields is read back exactly if and only if there are as many columns as fields and
      no field holds a NUL; a NUL in a field that is reached leaves its quote unclosed, and otherwise the
      column count errors are reported exactly when the counts differ. */
  lemma {:induction false} RowRoundTrip(fields: seq<Bytes>, order: seq<int>, p: Policy)
    requires Sensible(p) && fields != []
    ensures ParseLine(Some(JoinRow(fields, p)), order, p) ==
            if !NulFreeUpTo(fields, |order|) then Failed(QuoteNotClosed)
            else if |order| < |fields| then Failed(TooManyColumns)
            else if |order| > |fields| then Failed(TooFewColumns)
            else Columns(Selected(fields, order))
    decreases |fields|
  {
    hide ColumnEnd, Value, Quoted, NulFree, ParseLine, NulFreeUpTo;
    var line := JoinRow(fields, p);
    if order == [] {
      NoOrder(Some(line), p);
      NoneReached(fields);
    } else {
      var q := Quoted(fields[0], p.quote);
      NulFreeStep(fields, |order|);
      ParseStep(line, order, p);
      UnescapeQuoted(fields[0], p);
      if |fields| == 1 {
        QuotedColumnEnd(fields[0], [], p);
        assert q + [] == q && line == q && q[..|q|] == q;
        NoLine(order[1..], p);
        NoneReached([]);
        OnlyOneField(fields, |order|);
        assert |order| == 1 ==> Selected(fields[1..], order[1..]) == [];
      } else {
        var tail := [p.sep] + JoinRow(fields[1..], p);
        QuotedColumnEnd(fields[0], tail, p);
        assert line == q + tail;
        assert line[..|q|] == q && line[|q| + 1..] == JoinRow(fields[1..], p);
        RowRoundTrip(fields[1..], order[1..], p);
      }
    }
  }

  lemma NoneReached(fields: seq<Bytes>)
    ensures NulFreeUpTo(fields, 0)
  {
  }

  lemma OnlyOneField(fields: seq<Bytes>, n: nat)
    requires |fields| == 1 && n > 0
    ensures NulFreeUpTo(fields, n) <==> NulFree(fields[0])
  {
  }

  /** Under an index that no later column uses, the value stored is that column's. */
  lemma {:induction false} LatestSelected(fields: seq<Bytes>, order: seq<int>, k: nat)
    requires |fields| == |order| && k < |order| && order[k] != -1 && order[k] !in order[k + 1..]
    ensures Latest(Selected(fields, order), order[k]) == Some(fields[k])
    decreases |fields|
  {
    var rest := Selected(fields[1..], order[1..]);
    var head := if order[0] == -1 then [] else [(order[0], fields[0])];
    LatestAppended(head, rest, order[k]);
    if k > 0 {
      assert order[1..][k - 1] == order[k] && order[1..][k..] == order[k + 1..];
      LatestSelected(fields[1..], order[1..], k - 1);
    } else {
      NotSelected(fields[1..], order[1..], order[0]);
      assert head == [(order[0], fields[0])];
    }
  }

  lemma {:induction false} LatestAppended(some: seq<(int, Bytes)>, more: seq<(int, Bytes)>, i: int)
    ensures Latest(some + more, i) == if Latest(more, i).Some? then Latest(more, i) else Latest(some, i)
    decreases |more|
  {
    if more == [] {
      assert some + more == some;
    } else {
      assert (some + more)[..|some + more| - 1] == some + more[..|more| - 1];
      LatestAppended(some, more[..|more| - 1], i);
    }
  }

  lemma {:induction false} NotSelected(fields: seq<Bytes>, order: seq<int>, i: int)
    requires |fields| == |order| && i !in order
    ensures Latest(Selected(fields, order), i) == None
    decreases |fields|
  {
    if fields != [] {
      NotSelected(fields[1..], order[1..], i);
      LatestAppended(if order[0] == -1 then [] else [(order[0], fields[0])], Selected(fields[1..], order[1..]), i);
    }
  }

  /** The round trip through the buffer: after parse_line each wanted column's pointer names a C string
      that is exactly the field the row was made from. */
  method ParseQuotedRow(a: array<byte>, begin: nat, ghost fields: seq<Bytes>, order: seq<int>, sortedCol: array<nat>, p: Policy)
    returns (error: Option<RowError>)
    requires Sensible(p) && fields != [] && StartsAt(a[..], begin, JoinRow(fields, p))
    requires forall k :: 0 <= k < |order| ==> order[k] == -1 || 0 <= order[k] < sortedCol.Length
    modifies a, sortedCol
    ensures error == None <==> |order| == |fields| && NulFreeUpTo(fields, |fields|)
    ensures error == None ==>
              forall k :: 0 <= k < |order| && order[k] != -1 && order[k] !in order[k + 1..] ==>
                StringAt(a[..], sortedCol[order[k]], fields[k])
    ensures error == None ==>
              forall j :: 0 <= j < sortedCol.Length && j !in order ==> sortedCol[j] == old(sortedCol[j])
  {
    hide StringAt, JoinRow, ParseLine, Selected, Latest, NulFreeUpTo;
    ghost var before := sortedCol[..];
    RowRoundTrip(fields, order, p);
    error := ParseRow(a, begin, begin + |JoinRow(fields, p)|, order, sortedCol, p);
    if error == None {
      forall k | 0 <= k < |order| && order[k] != -1 && order[k] !in order[k + 1..]
        ensures StringAt(a[..], sortedCol[order[k]], fields[k])
      {
        LatestSelected(fields, order, k);
        assert sortedCol[..][order[k]] == sortedCol[order[k]];
      }
      forall j | 0 <= j < sortedCol.Length && j !in order ensures sortedCol[j] == before[j] {
        NotSelected(fields, order, j);
        assert sortedCol[..][j] == sortedCol[j];
      }
    }
  }

  // ----- rows as they are written: plain or quoted fields, with blanks around them -----

  /** A field between characters the trim policy removes, in quotes or not. */
  datatype Cell = Cell(left: Bytes, quoted: bool, core: Bytes, right: Bytes)

  ghost predicate AllTrimmed(s: Bytes, p: Policy) {
    forall i :: 0 <= i < |s| ==> s[i] in p.trim
  }

  /** Characters with a meaning of their own are not removed as blanks. */
  ghost predicate Distinguished(p: Policy) {
    Sensible(p) && p.sep !in p.trim && NUL !in p.trim
  }

  /** What a field without quotes may be: no separator, quote or NUL in it, and no blank at its ends. */
  ghost predicate PlainCore(s: Bytes, p: Policy) {
    && (forall i :: 0 <= i < |s| ==> s[i] != p.sep && s[i] != p.quote && s[i] != NUL)
    && (s != [] ==> s[0] !in p.trim && s[|s| - 1] !in p.trim)
  }

  ghost predicate CellOk(c: Cell, p: Policy) {
    AllTrimmed(c.left, p) && AllTrimmed(c.right, p) && (c.quoted || PlainCore(c.core, p))
  }

  function Written(c: Cell, p: Policy): Bytes {
    c.left + (if c.quoted then Quoted(c.core, p.quote) else c.core) + c.right
  }

  function CellRow(cells: seq<Cell>, p: Policy): Bytes
    requires cells != []
  {
    if |cells| == 1 then Written(cells[0], p) else Written(cells[0], p) + [p.sep] + CellRow(cells[1..], p)
  }

  function Cores(cells: seq<Cell>): (cores: seq<Bytes>)
    ensures |cores| == |cells|
  {
    if cells == [] then [] else [cells[0].core] + Cores(cells[1..])
  }

  /** Ordinary characters are stepped over. */
  lemma {:induction false} StepOver(line: Bytes, i: nat, j: nat, p: Policy)
    requires Sensible(p) && i <= j <= |line|
    requires forall k :: i <= k < j ==> line[k] != p.sep && line[k] != p.quote && line[k] != NUL
    ensures ColumnEnd(line, i, p) == ColumnEnd(line, j, p)
    decreases j - i
  {
    hide ColumnEnd;
    if i < j {
      ScanSteps(line, i, p);
      StepOver(line, i + 1, j, p);
    }
  }

  lemma {:induction false} CellEnd(c: Cell, tail: Bytes, p: Policy)
    requires Distinguished(p) && CellOk(c, p) && (tail == [] || tail[0] == p.sep)
    ensures ColumnEnd(Written(c, p) + tail, 0, p) == if NulFree(c.core) then Some(|Written(c, p)|) else None
  {
    hide ColumnEnd, Quoted;
    var body := if c.quoted then Quoted(c.core, p.quote) else c.core;
    var line := Written(c, p) + tail;
    var a, b, e := |c.left|, |c.left| + |body|, |Written(c, p)|;
    assert line == c.left + body + (c.right + tail);
    assert forall k :: 0 <= k < a ==> line[k] == c.left[k];
    assert forall k :: b <= k < e ==> line[k] == c.right[k - b];
    StepOver(line, 0, a, p);
    if c.quoted {
      QuotedInColumn(c.left, c.core, c.right + tail, p);
    } else {
      assert forall k :: a <= k < b ==> line[k] == c.core[k - a];
      StepOver(line, a, b, p);
    }
    StepOver(line, b, e, p);
    assert tail != [] ==> line[e] == tail[0];
    ScanSteps(line, e, p);
  }

  lemma {:induction false} LeftTrimmed(left: Bytes, s: Bytes, p: Policy)
    requires AllTrimmed(left, p)
    ensures TrimLeft(left + s, p) == TrimLeft(s, p)
    decreases |left|
  {
    if left == [] {
      assert left + s == s;
    } else {
      assert (left + s)[1..] == left[1..] + s;
      LeftTrimmed(left[1..], s, p);
    }
  }

  lemma {:induction false} RightTrimmed(s: Bytes, right: Bytes, p: Policy)
    requires AllTrimmed(right, p)
    ensures TrimRight(s + right, p) == TrimRight(s, p)
    decreases |right|
  {
    if right == [] {
      assert s + right == s;
    } else {
      var init := right[..|right| - 1];
      assert (s + right)[..|s + right| - 1] == s + init;
      assert (s + right)[|s + right| - 1] == right[|right| - 1];
      RightTrimmed(s, init, p);
    }
  }

  /** Trimming leaves exactly what has no blank at its ends. */
  lemma BlanksRemoved(left: Bytes, body: Bytes, right: Bytes, p: Policy)
    requires AllTrimmed(left, p) && AllTrimmed(right, p)
    requires body != [] ==> body[0] !in p.trim && body[|body| - 1] !in p.trim
    ensures Trimmed(left + body + right, p) == body
  {
    assert left + body + right == left + (body + right);
    LeftTrimmed(left, body + right, p);
    if body == [] {
      assert body + right == right == right + [];
      LeftTrimmed(right, [], p);
      assert TrimRight([], p) == [];
    } else {
      assert (body + right)[0] == body[0];
      RightTrimmed(body, right, p);
    }
  }

  lemma CellValue(c: Cell, p: Policy)
    requires Distinguished(p) && CellOk(c, p)
    ensures Value(Written(c, p), p) == c.core
  {
    var body := if c.quoted then Quoted(c.core, p.quote) else c.core;
    BlanksRemoved(c.left, body, c.right, p);
    if c.quoted {
      UnescapeBody(c.core, p);
    } else if |c.core| >= 2 {
      assert c.core[0] != p.quote;
    }
  }

  lemma UnescapeBody(f: Bytes, p: Policy)
    requires Sensible(p)
    ensures Unescape(Quoted(f, p.quote), p.quote) == f
  {
    var q := Quoted(f, p.quote);
    assert q[1..|q| - 1] == Double(f, p.quote);
    CollapseDouble(f, p.quote);
  }

  /** A row as it is written, each field plain or in quotes and with blanks around it or not, is read back
      field by field if and only if the counts agree and no quoted field holds a NUL; which error is
      reported otherwise. */
  lemma {:induction false} CellRowRoundTrip(cells: seq<Cell>, order: seq<int>, p: Policy)
    requires Distinguished(p) && cells != [] && forall i :: 0 <= i < |cells| ==> CellOk(cells[i], p)
    ensures ParseLine(Some(CellRow(cells, p)), order, p) ==
            if !NulFreeUpTo(Cores(cells), |order|) then Failed(QuoteNotClosed)
            else if |order| < |cells| then Failed(TooManyColumns)
            else if |order| > |cells| then Failed(TooFewColumns)
            else Columns(Selected(Cores(cells), order))
    decreases |cells|
  {
    hide ColumnEnd, Value, Written, NulFree, ParseLine, NulFreeUpTo, CellOk;
    var line, cores := CellRow(cells, p), Cores(cells);
    if order == [] {
      NoOrder(Some(line), p);
      NoneReached(cores);
    } else {
      var c, w := cells[0], Written(cells[0], p);
      assert CellOk(c, p);
      NulFreeStep(cores, |order|);
      ParseStep(line, order, p);
      CellValue(c, p);
      assert cores[0] == c.core && cores[1..] == Cores(cells[1..]);
      if |cells| == 1 {
        CellEnd(c, [], p);
        assert w + [] == w && line == w && w[..|w|] == w;
        NoLine(order[1..], p);
        OnlyOneField(cores, |order|);
        assert |order| == 1 ==> Selected(cores[1..], order[1..]) == [];
      } else {
        var tail := [p.sep] + CellRow(cells[1..], p);
        CellEnd(c, tail, p);
        assert line == w + tail;
        assert line[..|w|] == w && line[|w| + 1..] == CellRow(cells[1..], p);
        CellRowRoundTrip(cells[1..], order[1..], p);
      }
    }
  }

  /** The same through the buffer: each wanted column's pointer names a C string that is the field without
      its blanks and quotes. */
  method ParseCellRow(a: array<byte>, begin: nat, ghost cells: seq<Cell>, order: seq<int>, sortedCol: array<nat>, p: Policy)
    returns (error: Option<RowError>)
    requires Distinguished(p) && cells != [] && forall i :: 0 <= i < |cells| ==> CellOk(cells[i], p)
    requires StartsAt(a[..], begin, CellRow(cells, p))
    requires forall k :: 0 <= k < |order| ==> order[k] == -1 || 0 <= order[k] < sortedCol.Length
    modifies a, sortedCol
    ensures error == None <==> |order| == |cells| && NulFreeUpTo(Cores(cells), |cells|)
    ensures error == None ==>
              forall k :: 0 <= k < |order| && order[k] != -1 && order[k] !in order[k + 1..] ==>
                StringAt(a[..], sortedCol[order[k]], Cores(cells)[k])
    ensures error == None ==>
              forall j :: 0 <= j < sortedCol.Length && j !in order ==> sortedCol[j] == old(sortedCol[j])
  {
    hide StringAt, CellRow, ParseLine, Selected, Latest, NulFreeUpTo, Cores, CellOk;
    ghost var before, fields := sortedCol[..], Cores(cells);
    CellRowRoundTrip(cells, order, p);
    error := ParseRow(a, begin, begin + |CellRow(cells, p)|, order, sortedCol, p);
    if error == None {
      forall k | 0 <= k < |order| && order[k] != -1 && order[k] !in order[k + 1..]
        ensures StringAt(a[..], sortedCol[order[k]], fields[k])
      {
        LatestSelected(fields, order, k);
        assert sortedCol[..][order[k]] == sortedCol[order[k]];
      }
      forall j | 0 <= j < sortedCol.Length && j !in order ensures sortedCol[j] == before[j] {
        NotSelected(fields, order, j);
        assert sortedCol[..][j] == sortedCol[j];
      }
    }
  }

  /** The line "AB , C" with a comma between columns and blanks and tabulators trimmed: "AB" and "C". */
  lemma PlainLine()
    ensures ParseLine(Some([65, 66, 32, 44, 32, 67]), [0, 1], Policy(44, 34, {32, 9})) == Columns([(0, [65, 66]), (1, [67])])
  {
    hide ParseLine;
    var p, a, b := Policy(44, 34, {32, 9}), Cell([], false, [65, 66], [32]), Cell([32], false, [67], []);
    var cells, order := [a, b], [0, 1];
    assert cells[1..] == [b] && order[1..] == [1];
    assert CellRow(cells, p) == Written(a, p) + [p.sep] + CellRow([b], p) == [65, 66, 32, 44, 32, 67];
    CellRowRoundTrip(cells, order, p);
    assert Cores([b]) == [[67]] + Cores([b][1..]) == [[67]];
    var cores: seq<Bytes> := [[65, 66], [67]];
    assert Cores(cells) == cores;
    assert NulFreeUpTo(cores, 2);
    assert cores[1..] == [[67]] && cores[1..][1..] == [] && order[1..][1..] == [];
    assert Selected(cores[1..], order[1..]) == [(1, [67])];
  }
}
