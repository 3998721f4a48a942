/** Job files and jobs (src/application/job.cpp, constants from
    src/application/job.h:23-27).

    A job file holds one job per line, written as command-line arguments;
    `#` starts a comment. `jobFileExtractLines` cuts the file into records,
    `readJobFile` checks the file before that, `parseArgs` turns the
    arguments of one record into a `Job` and `parseFile` does all of it for
    a whole file. A `Job` is copied by value and only changed while it is
    built, so it is a datatype. */
module Jobs {
  import opened Util
  import opened Args

  /** `jfcc`, the comment character of job files. */
  const Hash: Byte := 0x23

  const TagCpp: string := "//#p"
  const TagBash: string := "##p"
  const TagBatch: string := "@rem #p"

  /** Longest tag `parseArgs` accepts. */
  const MaxTagLength: nat := 15

  /** Prefix of a tag value that gives the tag text literally. */
  const CustomPrefix: string := "custom:"

  /** One record of a job file: the line it starts on and its bytes. */
  datatype JobFileLine = JobFileLine(line: nat, data: seq<Byte>)

  datatype Job = Job(inFile: string, outFile: string, tag: string, wError: bool, valid: bool, errorMsg: string)

  /** `Job()`: not valid, message "unset". */
  const DefaultJob: Job := Job("", "", "", false, false, "unset")

  /** `Job(inputFile, outputFile, tag, warningAsError)`: a valid job with
      an empty message, whose files are in normal form. */
  function NewJob(inFile: string, outFile: string, tag: string, wError: bool): (j: Job)
    ensures j.valid && j.errorMsg == ""
    ensures j.inFile == LexicallyNormal(inFile) && j.outFile == LexicallyNormal(outFile)
    ensures j.tag == tag && j.wError == wError
    ensures LexicallyNormal(j.inFile) == j.inFile && LexicallyNormal(j.outFile) == j.outFile
  {
    LexicallyNormalIdempotent(inFile);
    LexicallyNormalIdempotent(outFile);
    Job(LexicallyNormal(inFile), LexicallyNormal(outFile), tag, wError, true, "")
  }

  /** A `Job()` made invalid with the message `msg`. */
  function InvalidJob(msg: string): (j: Job)
    ensures !j.valid && j.errorMsg == msg && !j.wError
  {
    DefaultJob.(errorMsg := msg)
  }

  // ---------------------------------------------------------------------
  // jobFileExtractLines

  predicate BlankByte(b: Byte)
  {
    b == TAB || b == SP
  }

  /** The byte the CRLF test reads after position `k`: the next byte of the
      buffer or, after its last byte, `past`. `past` is the byte that
      happens to follow the buffer in memory (`Some`), or `None` for a
      reading that stays inside the buffer. */
  function ByteAfter(buf: seq<Byte>, k: nat, past: Option<Byte>): Option<Byte>
  {
    if k + 1 < |buf| then Some(buf[k + 1]) else past
  }

  /** `(*p == 0x0D) && (*(p + 1) == 0x0A)`. */
  predicate CrlfAt(buf: seq<Byte>, k: nat, past: Option<Byte>)
    requires k < |buf|
  {
    buf[k] == CR && ByteAfter(buf, k, past) == Some(LF)
  }

  /** Where the data of a record stops: a comment, a line break, or the
      last byte of the buffer. */
  predicate StopAt(buf: seq<Byte>, k: nat, past: Option<Byte>)
    requires k < |buf|
  {
    k + 1 == |buf| || buf[k] == Hash || buf[k] == LF || CrlfAt(buf, k, past)
  }

  /** The blank-skipping loop: past tabs and spaces, but never past the
      last byte. */
  function BlankEnd(buf: seq<Byte>, p: nat): (q: nat)
    requires p < |buf|
    ensures p <= q < |buf|
    ensures q + 1 < |buf| ==> !BlankByte(buf[q])
    decreases |buf| - p
  {
    if BlankByte(buf[p]) && p + 1 < |buf| then BlankEnd(buf, p + 1) else p
  }

  /** The comment loop: up to a line break or the last byte. */
  function CommentEnd(buf: seq<Byte>, p: nat, past: Option<Byte>): (q: nat)
    requires p < |buf|
    ensures p <= q < |buf|
    ensures p + 1 < |buf| && buf[p] != LF && !CrlfAt(buf, p, past) ==> p < q
    ensures q + 1 < |buf| ==> buf[q] == LF || CrlfAt(buf, q, past)
    decreases |buf| - p
  {
    if buf[p] != LF && !CrlfAt(buf, p, past) && p + 1 < |buf| then CommentEnd(buf, p + 1, past) else p
  }

  /** The data loop: up to a comment, a line break or the last byte. */
  function DataEnd(buf: seq<Byte>, p: nat, past: Option<Byte>): (q: nat)
    requires p < |buf|
    ensures p <= q < |buf|
    ensures !StopAt(buf, p, past) ==> p < q
    ensures StopAt(buf, q, past)
    decreases |buf| - p
  {
    if !StopAt(buf, p, past) then DataEnd(buf, p + 1, past) else p
  }

  /** The records `jobFileExtractLines` pushes when its pointer is at `p`
      on line `line`; the loop runs while `p < end - 1`. */
  function ExtractFrom(buf: seq<Byte>, p: nat, line: nat, past: Option<Byte>): seq<JobFileLine>
    decreases |buf| - p
  {
    if p + 1 >= |buf| then []
    else
      var q := BlankEnd(buf, p);
      if buf[q] == Hash then ExtractFrom(buf, CommentEnd(buf, q, past), line, past)
      else if buf[q] == LF then ExtractFrom(buf, q + 1, line + 1, past)
      else if CrlfAt(buf, q, past) then ExtractFrom(buf, q + 2, line + 1, past)
      else
        var e := DataEnd(buf, q, past);
        [JobFileLine(line, buf[q..e])] + ExtractFrom(buf, e, line, past)
  }

  /** The records of a whole buffer, counting lines from 1. */
  function Extract(buf: seq<Byte>, past: Option<Byte>): seq<JobFileLine>
  {
    ExtractFrom(buf, 0, 1, past)
  }

  /** `jobFileExtractLines(data, end, lines)` with `lines` empty. */
  method ExtractLines(buf: seq<Byte>, past: Option<Byte>) returns (lines: seq<JobFileLine>)
    ensures lines == Extract(buf, past)
  {
    ghost var whole := Extract(buf, past);
    var p := 0;
    var line := 1;
    lines := [];
    while p + 1 < |buf|
      invariant lines + ExtractFrom(buf, p, line, past) == whole
      decreases |buf| - p
    {
      ExtractStep(buf, p, line, past, lines, whole);
      p := SkipBlankBytes(buf, p);
      if buf[p] == Hash {
        p := SkipComment(buf, p, past);
      } else if buf[p] == LF {
        p := p + 1;
        line := line + 1;
      } else if CrlfAt(buf, p, past) {
        p := p + 2;
        line := line + 1;
      } else {
        var data;
        data, p := ReadData(buf, p, past);
        lines := lines + [JobFileLine(line, data)];
      }
    }
  }

  /** The blank-skipping loop of `jobFileExtractLines`. */
  method SkipBlankBytes(buf: seq<Byte>, p0: nat) returns (p: nat)
    requires p0 < |buf|
    ensures p == BlankEnd(buf, p0)
  {
    p := p0;
    while BlankByte(buf[p]) && p + 1 < |buf|
      invariant p0 <= p < |buf|
      invariant BlankEnd(buf, p) == BlankEnd(buf, p0)
      decreases |buf| - p
    {
      p := p + 1;
    }
  }

  /** The comment loop of `jobFileExtractLines`. */
  method SkipComment(buf: seq<Byte>, p0: nat, past: Option<Byte>) returns (p: nat)
    requires p0 < |buf|
    ensures p == CommentEnd(buf, p0, past)
  {
    p := p0;
    while buf[p] != LF && !CrlfAt(buf, p, past) && p + 1 < |buf|
      invariant p0 <= p < |buf|
      invariant CommentEnd(buf, p, past) == CommentEnd(buf, p0, past)
      decreases |buf| - p
    {
      p := p + 1;
    }
  }

  /** The data loop of `jobFileExtractLines`: the bytes it appends one by
      one to the record, and where it stops. */
  method ReadData(buf: seq<Byte>, p0: nat, past: Option<Byte>) returns (data: seq<Byte>, p: nat)
    requires p0 < |buf|
    ensures p == DataEnd(buf, p0, past) && data == buf[p0..p]
  {
    p := p0;
    data := [];
    while buf[p] != Hash && buf[p] != LF && !CrlfAt(buf, p, past) && p + 1 < |buf|
      invariant p0 <= p < |buf|
      invariant DataEnd(buf, p, past) == DataEnd(buf, p0, past)
      invariant data == buf[p0..p]
      decreases |buf| - p
    {
      data := data + [buf[p]];
      p := p + 1;
    }
  }

  /** One pass of the outer loop of `jobFileExtractLines`, from `p` on. */
  lemma ExtractStep(buf: seq<Byte>, p: nat, line: nat, past: Option<Byte>, lines: seq<JobFileLine>, whole: seq<JobFileLine>)
    requires p + 1 < |buf| && lines + ExtractFrom(buf, p, line, past) == whole
    ensures var q := BlankEnd(buf, p);
      && (buf[q] == Hash ==> lines + ExtractFrom(buf, CommentEnd(buf, q, past), line, past) == whole)
      && (buf[q] != Hash && buf[q] == LF ==> lines + ExtractFrom(buf, q + 1, line + 1, past) == whole)
      && (buf[q] != Hash && buf[q] != LF && CrlfAt(buf, q, past) ==>
            lines + ExtractFrom(buf, q + 2, line + 1, past) == whole)
      && (buf[q] != Hash && buf[q] != LF && !CrlfAt(buf, q, past) ==>
            var e := DataEnd(buf, q, past);
            (lines + [JobFileLine(line, buf[q..e])]) + ExtractFrom(buf, e, line, past) == whole)
  {
    var q := BlankEnd(buf, p);
    if buf[q] != Hash && buf[q] != LF && !CrlfAt(buf, q, past) {
      var e := DataEnd(buf, q, past);
      AppendAssoc(lines, [JobFileLine(line, buf[q..e])], ExtractFrom(buf, e, line, past));
    }
  }

  // ---------------------------------------------------------------------
  // Properties of the records

  /** What a record can hold: no comment character and no LF, and it does
      not start with a blank. */
  predicate CleanRecord(r: JobFileLine)
  {
    && (forall k :: 0 <= k < |r.data| ==> r.data[k] != Hash && r.data[k] != LF)
    && (r.data == [] || !BlankByte(r.data[0]))
  }

  lemma DataEndClean(buf: seq<Byte>, q: nat, past: Option<Byte>)
    requires q < |buf|
    ensures forall k :: q <= k < DataEnd(buf, q, past) ==> buf[k] != Hash && buf[k] != LF
    decreases |buf| - q
  {
    if !StopAt(buf, q, past) {
      DataEndClean(buf, q + 1, past);
    }
  }

  /** Every record is clean: comments, line breaks and leading blanks are
      never part of the arguments of a job. */
  lemma {:induction false} ExtractClean(buf: seq<Byte>, p: nat, line: nat, past: Option<Byte>)
    ensures forall i :: 0 <= i < |ExtractFrom(buf, p, line, past)| ==> CleanRecord(ExtractFrom(buf, p, line, past)[i])
    decreases |buf| - p
  {
    if p + 1 < |buf| {
      var q := BlankEnd(buf, p);
      if buf[q] == Hash {
        ExtractClean(buf, CommentEnd(buf, q, past), line, past);
      } else if buf[q] == LF {
        ExtractClean(buf, q + 1, line + 1, past);
      } else if CrlfAt(buf, q, past) {
        ExtractClean(buf, q + 2, line + 1, past);
      } else {
        var e := DataEnd(buf, q, past);
        ExtractClean(buf, e, line, past);
        DataEndClean(buf, q, past);
        assert CleanRecord(JobFileLine(line, buf[q..e]));
      }
    }
  }

  /** No record starts before line `line`. */
  lemma {:induction false} LinesAtLeast(buf: seq<Byte>, p: nat, line: nat, past: Option<Byte>)
    ensures forall i :: 0 <= i < |ExtractFrom(buf, p, line, past)| ==> ExtractFrom(buf, p, line, past)[i].line >= line
    decreases |buf| - p
  {
    if p + 1 < |buf| {
      var q := BlankEnd(buf, p);
      if buf[q] == Hash {
        LinesAtLeast(buf, CommentEnd(buf, q, past), line, past);
      } else if buf[q] == LF {
        LinesAtLeast(buf, q + 1, line + 1, past);
      } else if CrlfAt(buf, q, past) {
        LinesAtLeast(buf, q + 2, line + 1, past);
      } else {
        LinesAtLeast(buf, DataEnd(buf, q, past), line, past);
      }
    }
  }

  /** After a line break, every record lies on a later line. */
  lemma AfterBreak(buf: seq<Byte>, p: nat, line: nat, past: Option<Byte>)
    requires p < |buf| && (buf[p] == LF || CrlfAt(buf, p, past))
    ensures forall i :: 0 <= i < |ExtractFrom(buf, p, line, past)| ==> ExtractFrom(buf, p, line, past)[i].line > line
  {
    if p + 1 < |buf| {
      assert BlankEnd(buf, p) == p;
      if buf[p] == LF {
        LinesAtLeast(buf, p + 1, line + 1, past);
      } else {
        LinesAtLeast(buf, p + 2, line + 1, past);
      }
    }
  }

  /** Where a record ends, the next record lies on a later line. */
  lemma AfterStop(buf: seq<Byte>, p: nat, line: nat, past: Option<Byte>)
    requires p < |buf| && StopAt(buf, p, past)
    ensures forall i :: 0 <= i < |ExtractFrom(buf, p, line, past)| ==> ExtractFrom(buf, p, line, past)[i].line > line
  {
    if p + 1 < |buf| {
      assert BlankEnd(buf, p) == p;
      if buf[p] == Hash {
        var c := CommentEnd(buf, p, past);
        if c + 1 < |buf| {
          AfterBreak(buf, c, line, past);
        }
      } else {
        AfterBreak(buf, p, line, past);
      }
    }
  }

  /** Line numbers strictly increase along the records. */
  predicate Ascending(rs: seq<JobFileLine>)
  {
    forall i, j :: 0 <= i < j < |rs| ==> rs[i].line < rs[j].line
  }

  lemma AscendingCons(r: JobFileLine, tail: seq<JobFileLine>)
    requires Ascending(tail)
    requires forall i :: 0 <= i < |tail| ==> tail[i].line > r.line
    ensures Ascending([r] + tail)
  {
    var rs := [r] + tail;
    forall i, j | 0 <= i < j < |rs| ensures rs[i].line < rs[j].line {
      assert rs[j] == tail[j - 1];
      if i > 0 {
        assert rs[i] == tail[i - 1];
      }
    }
  }

  /** Records come in file order, at most one per line. */
  lemma {:induction false} LinesIncrease(buf: seq<Byte>, p: nat, line: nat, past: Option<Byte>)
    ensures Ascending(ExtractFrom(buf, p, line, past))
    decreases |buf| - p
  {
    if p + 1 < |buf| {
      var q := BlankEnd(buf, p);
      if buf[q] == Hash {
        LinesIncrease(buf, CommentEnd(buf, q, past), line, past);
      } else if buf[q] == LF {
        LinesIncrease(buf, q + 1, line + 1, past);
      } else if CrlfAt(buf, q, past) {
        LinesIncrease(buf, q + 2, line + 1, past);
      } else {
        var e := DataEnd(buf, q, past);
        LinesIncrease(buf, e, line, past);
        AfterStop(buf, e, line, past);
        AscendingCons(JobFileLine(line, buf[q..e]), ExtractFrom(buf, e, line, past));
      }
    }
  }

  /** The records of a whole buffer: clean, numbered from line 1 on, in
      increasing line order. */
  lemma ExtractShape(buf: seq<Byte>, past: Option<Byte>)
    ensures var rs := Extract(buf, past);
      && (forall i :: 0 <= i < |rs| ==> CleanRecord(rs[i]) && rs[i].line >= 1)
      && Ascending(rs)
  {
    assert Extract(buf, past) == ExtractFrom(buf, 0, 1, past);
    ExtractClean(buf, 0, 1, past);
    LinesAtLeast(buf, 0, 1, past);
    LinesIncrease(buf, 0, 1, past);
  }

  // ---------------------------------------------------------------------
  // Reference: a file of plain lines

  /** A line that is a record on its own: not empty, no blank first, and no
      comment character or line-break byte. */
  predicate PlainLine(l: seq<Byte>)
  {
    |l| >= 1 && !BlankByte(l[0]) && forall k :: 0 <= k < |l| ==> l[k] != Hash && l[k] != LF && l[k] != CR
  }

  /** The lines, each followed by LF. */
  function JoinLines(ls: seq<seq<Byte>>): seq<Byte>
  {
    if ls == [] then [] else ls[0] + ([LF] + JoinLines(ls[1..]))
  }

  /** The lines as records numbered from `line` on. */
  function Numbered(ls: seq<seq<Byte>>, line: nat): seq<JobFileLine>
  {
    if ls == [] then [] else [JobFileLine(line, ls[0])] + Numbered(ls[1..], line + 1)
  }

  /** Record `i` is line `i` of `ls`, numbered `line + i`. */
  lemma {:induction false} NumberedAt(ls: seq<seq<Byte>>, line: nat, i: nat)
    requires i < |ls|
    ensures |Numbered(ls, line)| == |ls|
    ensures Numbered(ls, line)[i] == JobFileLine(line + i, ls[i])
    decreases i
  {
    NumberedLength(ls, line);
    if i > 0 {
      NumberedAt(ls[1..], line + 1, i - 1);
    }
  }

  lemma {:induction false} NumberedLength(ls: seq<seq<Byte>>, line: nat)
    ensures |Numbered(ls, line)| == |ls|
    decreases |ls|
  {
    if ls != [] {
      NumberedLength(ls[1..], line + 1);
    }
  }

  /** A file of plain lines, each ended by LF, gives one record per line,
      numbered from 1, with the line's bytes as its data. */
  lemma ExtractPlainLines(ls: seq<seq<Byte>>, past: Option<Byte>)
    requires forall i :: 0 <= i < |ls| ==> PlainLine(ls[i])
    ensures Extract(JoinLines(ls), past) == Numbered(ls, 1)
  {
    AllPlainOf(ls);
    ExtractJoinFrom(JoinLines(ls), 0, ls, 1, past);
  }

  /** Every line of `ls` is plain. */
  predicate AllPlain(ls: seq<seq<Byte>>)
  {
    ls == [] || (PlainLine(ls[0]) && AllPlain(ls[1..]))
  }

  lemma {:induction false} AllPlainOf(ls: seq<seq<Byte>>)
    requires forall i :: 0 <= i < |ls| ==> PlainLine(ls[i])
    ensures AllPlain(ls)
    decreases |ls|
  {
    if ls != [] {
      assert PlainLine(ls[0]);
      assert forall i :: 0 <= i < |ls[1..]| ==> ls[1..][i] == ls[i + 1];
      AllPlainOf(ls[1..]);
    }
  }

  lemma {:induction false} ExtractJoinFrom(s: seq<Byte>, q: nat, ls: seq<seq<Byte>>, line: nat, past: Option<Byte>)
    requires AllPlain(ls)
    requires q <= |s| && s[q..] == JoinLines(ls)
    ensures ExtractFrom(s, q, line, past) == Numbered(ls, line)
    decreases |ls|
  {
    if ls == [] {
      assert |s[q..]| == 0;
    } else {
      var next: nat, line': nat, ls' := q + |ls[0]| + 1, line + 1, ls[1..];
      JoinRest(s, q, ls);
      ExtractJoinFrom(s, next, ls', line', past);
      JoinStep(s, q, ls, line, past, next, line', Numbered(ls', line'));
    }
  }

  /** After the first line and its LF come the other lines. */
  lemma JoinRest(s: seq<Byte>, q: nat, ls: seq<seq<Byte>>)
    requires ls != [] && q <= |s| && s[q..] == JoinLines(ls)
    ensures q + |ls[0]| + 1 <= |s| && s[q + |ls[0]| + 1..] == JoinLines(ls[1..])
  {
    SplitLine(s, q, ls[0], JoinLines(ls[1..]));
  }

  /** The first line gives its record, then come the records from `next`. */
  lemma JoinStep(s: seq<Byte>, q: nat, ls: seq<seq<Byte>>, line: nat, past: Option<Byte>,
                 next: nat, line': nat, tail: seq<JobFileLine>)
    requires AllPlain(ls) && ls != []
    requires q <= |s| && s[q..] == JoinLines(ls)
    requires next == q + |ls[0]| + 1 && line' == line + 1
    requires ExtractFrom(s, next, line', past) == tail
    ensures ExtractFrom(s, q, line, past) == [JobFileLine(line, ls[0])] + tail
  {
    SplitLine(s, q, ls[0], JoinLines(ls[1..]));
    PlainLineAt(s, q, q + |ls[0]|, ls[0], line, past, next, line');
  }

  lemma SplitLine(s: seq<Byte>, q: nat, l: seq<Byte>, rest: seq<Byte>)
    requires q <= |s| && s[q..] == l + ([LF] + rest)
    ensures q + |l| < |s| && s[q..q + |l|] == l && s[q + |l|] == LF && s[q + |l| + 1..] == rest
  {
    assert s[q..][..|l|] == l;
    assert s[q..][|l|] == LF;
    assert s[q..][|l| + 1..] == rest;
  }

  /** A plain line from `q` to `e`, ended by LF at `e`: its record, then
      whatever follows on the next line. */
  lemma PlainLineAt(s: seq<Byte>, q: nat, e: nat, l: seq<Byte>, line: nat, past: Option<Byte>, next: nat, line': nat)
    requires PlainLine(l)
    requires q <= e < |s| && s[q..e] == l && s[e] == LF
    requires next == e + 1 && line' == line + 1
    ensures ExtractFrom(s, q, line, past) == [JobFileLine(line, l)] + ExtractFrom(s, next, line', past)
  {
    assert s[q] == l[0];
    assert BlankEnd(s, q) == q;
    forall k | q <= k < e
      ensures s[k] != Hash && s[k] != LF && s[k] != CR
    {
      assert s[k] == l[k - q];
    }
    PlainDataEnd(s, q, e, past);
    assert ExtractFrom(s, e, line, past) == ExtractFrom(s, next, line', past) by {
      if e + 1 < |s| {
        assert BlankEnd(s, e) == e;
      }
    }
  }

  lemma PlainDataEnd(s: seq<Byte>, q: nat, e: nat, past: Option<Byte>)
    requires q <= e < |s| && s[e] == LF
    requires forall k :: q <= k < e ==> s[k] != Hash && s[k] != LF && s[k] != CR
    ensures DataEnd(s, q, past) == e
    decreases e - q
  {
    if q < e {
      PlainDataEnd(s, q + 1, e, past);
    }
  }

  // ---------------------------------------------------------------------
  // Reading past the end of the buffer

  /** Only the last byte decides whether `past` is looked at. */
  predicate SameLastCrlf(buf: seq<Byte>, past1: Option<Byte>, past2: Option<Byte>)
  {
    |buf| == 0 || (CrlfAt(buf, |buf| - 1, past1) <==> CrlfAt(buf, |buf| - 1, past2))
  }

  lemma CrlfAgrees(buf: seq<Byte>, k: nat, past1: Option<Byte>, past2: Option<Byte>)
    requires k < |buf| && SameLastCrlf(buf, past1, past2)
    ensures CrlfAt(buf, k, past1) <==> CrlfAt(buf, k, past2)
  {
  }

  lemma {:induction false} CommentEndAgrees(buf: seq<Byte>, p: nat, past1: Option<Byte>, past2: Option<Byte>)
    requires p < |buf| && SameLastCrlf(buf, past1, past2)
    ensures CommentEnd(buf, p, past1) == CommentEnd(buf, p, past2)
    decreases |buf| - p
  {
    CrlfAgrees(buf, p, past1, past2);
    if buf[p] != LF && !CrlfAt(buf, p, past1) && p + 1 < |buf| {
      CommentEndAgrees(buf, p + 1, past1, past2);
    }
  }

  lemma {:induction false} DataEndAgrees(buf: seq<Byte>, p: nat, past1: Option<Byte>, past2: Option<Byte>)
    requires p < |buf| && SameLastCrlf(buf, past1, past2)
    ensures DataEnd(buf, p, past1) == DataEnd(buf, p, past2)
    decreases |buf| - p
  {
    CrlfAgrees(buf, p, past1, past2);
    if !StopAt(buf, p, past1) {
      DataEndAgrees(buf, p + 1, past1, past2);
    }
  }

  lemma {:induction false} ExtractAgrees(buf: seq<Byte>, p: nat, line: nat, past1: Option<Byte>, past2: Option<Byte>)
    requires SameLastCrlf(buf, past1, past2)
    ensures ExtractFrom(buf, p, line, past1) == ExtractFrom(buf, p, line, past2)
    decreases |buf| - p
  {
    if p + 1 < |buf| {
      var q := BlankEnd(buf, p);
      CrlfAgrees(buf, q, past1, past2);
      if buf[q] == Hash {
        CommentEndAgrees(buf, q, past1, past2);
        ExtractAgrees(buf, CommentEnd(buf, q, past1), line, past1, past2);
      } else if buf[q] == LF {
        ExtractAgrees(buf, q + 1, line + 1, past1, past2);
      } else if CrlfAt(buf, q, past1) {
        ExtractAgrees(buf, q + 2, line + 1, past1, past2);
      } else {
        DataEndAgrees(buf, q, past1, past2);
        ExtractAgrees(buf, DataEnd(buf, q, past1), line, past1, past2);
      }
    }
  }

  /** With the CRLF test kept inside the buffer (`past == None`), a CR as
      the last byte is never half of a CRLF. The records then depend on
      the buffer alone, and they are the records the code as written
      produces whenever its reading past the end does not decide anything:
      when the last byte is not CR, or when the byte after it is not LF. */
  lemma ExtractInBounds(buf: seq<Byte>, b: Byte)
    ensures |buf| == 0 || buf[|buf| - 1] != CR ==> Extract(buf, None) == Extract(buf, Some(b))
    ensures b != LF ==> Extract(buf, None) == Extract(buf, Some(b))
  {
    if (|buf| == 0 || buf[|buf| - 1] != CR) || b != LF {
      ExtractAgrees(buf, 0, 1, None, Some(b));
    }
  }

  /** A comment line, then a line of four spaces ended by CR alone. */
  const SpaceCrAtEnd: seq<Byte> := [Hash, 0x61, LF, SP, SP, SP, SP, CR]

  /** A file whose last two bytes are a space and a CR: what the code as
      written extracts depends on the byte that follows the buffer in
      memory. Followed by LF there is no record; followed by anything else
      there is an empty record on line 2. */
  lemma ExtractReadsPastBuffer()
    ensures Extract(SpaceCrAtEnd, Some(LF)) == []
    ensures Extract(SpaceCrAtEnd, Some(0)) == [JobFileLine(2, [])]
  {
    var buf := SpaceCrAtEnd;
    assert BlankEnd(buf, 0) == 0;
    assert BlankEnd(buf, 2) == 2;
    assert BlankEnd(buf, 3) == 7 by {
      assert BlankEnd(buf, 6) == 7;
      assert BlankEnd(buf, 5) == 7;
      assert BlankEnd(buf, 4) == 7;
    }
    forall past: Option<Byte>
      ensures Extract(buf, past) == ExtractFrom(buf, 3, 2, past)
    {
      assert CommentEnd(buf, 1, past) == 2;
      assert CommentEnd(buf, 0, past) == 2;
      calc {
        Extract(buf, past);
        ExtractFrom(buf, 0, 1, past);
        ExtractFrom(buf, 2, 1, past);
        ExtractFrom(buf, 3, 2, past);
      }
    }
    assert ExtractFrom(buf, 3, 2, Some(LF)) == ExtractFrom(buf, 9, 3, Some(LF));
    assert DataEnd(buf, 7, Some(0)) == 7;
    assert ExtractFrom(buf, 3, 2, Some(0)) == [JobFileLine(2, buf[7..7])] + ExtractFrom(buf, 7, 2, Some(0));
    assert buf[7..7] == [];
  }

  // ---------------------------------------------------------------------
  // readJobFile

  /** The byte-order marks `readJobFile` tests, in the order it tests them. */
  datatype Bom = Utf32Be | Utf32Le | Utf16Be | Utf16Le | Utf8 | NoBom

  function BomOf(b: seq<Byte>): Bom
    requires |b| >= 4
  {
    if b[0] == 0x00 && b[1] == 0x00 && b[2] == 0xFE && b[3] == 0xFF then Utf32Be
    else if b[0] == 0xFF && b[1] == 0xFE && b[2] == 0x00 && b[3] == 0x00 then Utf32Le
    else if b[0] == 0xFE && b[1] == 0xFF then Utf16Be
    else if b[0] == 0xFF && b[1] == 0xFE then Utf16Le
    else if b[0] == 0xEF && b[1] == 0xBB && b[2] == 0xBF then Utf8
    else NoBom
  }

  const Utf8Mark: seq<Byte> := [0xEF, 0xBB, 0xBF]

  /** Smallest job file that is read at all (apart from the empty one). */
  const MinFileSize: nat := 8

  /** The result and the records of `readJobFile` for a file with the given
      bytes (`None`: the file does not exist). `past` is as for `Extract`. */
  function JobFileContents(file: Option<seq<Byte>>, past: Option<Byte>): (Result, seq<JobFileLine>)
  {
    if file.None? then (Errors(-1), [])
    else
      var b := file.value;
      if |b| == 0 then (Result(0, 1), [])
      else if |b| < MinFileSize then (Errors(-1), [])
      else
        var bom := BomOf(b);
        if bom != Utf8 && bom != NoBom then (Errors(-1), [])
        else
          var start := if bom == Utf8 then |Utf8Mark| else 0;
          (Result(0, if b[|b| - 1] != LF then 1 else 0), Extract(b[start..], past))
  }

  /** `readJobFile(filename, lines)` with `lines` empty. */
  method ReadJobFile(file: Option<seq<Byte>>, past: Option<Byte>) returns (r: Result, lines: seq<JobFileLine>)
    ensures (r, lines) == JobFileContents(file, past)
  {
    lines := [];
    if file.None? {
      return Errors(-1), [];
    }
    var b := file.value;
    if |b| == 0 {
      return Result(0, 1), [];
    }
    if |b| < MinFileSize {
      return Errors(-1), [];
    }
    var bom := BomOf(b);
    if bom == Utf32Be || bom == Utf32Le || bom == Utf16Be || bom == Utf16Le {
      return Errors(-1), [];
    }
    var start := 0;
    if bom == Utf8 {
      start := |Utf8Mark|;
    }
    r := Zero;
    if b[|b| - 1] != LF {
      r := OneMoreWarning(r);
    }
    lines := ExtractLines(b[start..], past);
  }

  /** A missing file, a short one and one marked as UTF-16 or UTF-32 fail
      with -1 and no records; an empty file only warns; any other file has
      no error and one warning exactly when it does not end with LF. */
  lemma ReadJobFileOutcome(file: Option<seq<Byte>>, past: Option<Byte>)
    ensures var (r, ls) := JobFileContents(file, past);
      && (r.err == -1 <==>
            file.None? || 0 < |file.value| < MinFileSize ||
            (|file.value| >= MinFileSize && BomOf(file.value) in {Utf32Be, Utf32Le, Utf16Be, Utf16Le}))
      && (r.err == -1 || r.err == 0)
      && (r.err == -1 ==> r.warn == 0 && ls == [])
      && (r.err == 0 ==> (r.warn == 1 <==> |file.value| == 0 || file.value[|file.value| - 1] != LF))
      && (r.err == 0 ==> r.warn == 0 || r.warn == 1)
  {
  }

  /** A UTF-8 mark in front of a file changes nothing. */
  lemma Utf8MarkSkipped(b: seq<Byte>, past: Option<Byte>)
    requires |b| >= MinFileSize && BomOf(b) == NoBom
    ensures JobFileContents(Some(Utf8Mark + b), past) == JobFileContents(Some(b), past)
  {
    var m := Utf8Mark + b;
    assert m[|Utf8Mark|..] == b;
    assert m[|m| - 1] == b[|b| - 1];
  }

  /** The records of a file that is read: clean and in increasing line
      order, from line 1 on. */
  lemma ReadJobFileRecords(file: Option<seq<Byte>>, past: Option<Byte>)
    ensures var rs := JobFileContents(file, past).1;
      && (forall i :: 0 <= i < |rs| ==> CleanRecord(rs[i]) && rs[i].line >= 1)
      && Ascending(rs)
  {
    if file.Some? && |file.value| >= MinFileSize {
      var b := file.value;
      if BomOf(b) == Utf8 {
        ExtractShape(b[|Utf8Mark|..], past);
      } else {
        ExtractShape(b[0..], past);
      }
    }
  }

  lemma {:induction false} JoinLinesEndsWithLF(ls: seq<seq<Byte>>)
    requires ls != []
    ensures |JoinLines(ls)| >= 1 && JoinLines(ls)[|JoinLines(ls)| - 1] == LF
  {
    if |ls| > 1 {
      JoinLinesEndsWithLF(ls[1..]);
    }
  }

  /** A file of plain lines, each ended by LF, is read without error or
      warning, one record per line. */
  lemma ReadPlainJobFile(ls: seq<seq<Byte>>, past: Option<Byte>)
    requires forall i :: 0 <= i < |ls| ==> PlainLine(ls[i])
    requires |JoinLines(ls)| >= MinFileSize && BomOf(JoinLines(ls)) == NoBom
    ensures JobFileContents(Some(JoinLines(ls)), past) == (Zero, Numbered(ls, 1))
  {
    var b := JoinLines(ls);
    JoinLinesEndsWithLF(ls);
    ExtractPlainLines(ls, past);
    assert b[0..] == b;
  }

  // ---------------------------------------------------------------------
  // Paths (std::filesystem on POSIX, '/' as separator)

  /** `path::filename()`: the longest end of `p` without a '/'. */
  function FileName(p: string): (f: string)
    ensures |f| <= |p| && f == p[|p| - |f|..]
    ensures forall k :: 0 <= k < |f| ==> f[k] != '/'
    ensures |f| < |p| ==> p[|p| - |f| - 1] == '/'
  {
    if p == [] || p[|p| - 1] == '/' then [] else FileName(p[..|p| - 1]) + [p[|p| - 1]]
  }

  /** Index of the last '.' of `s`. */
  function LastDot(s: string): (k: Option<nat>)
    ensures k.Some? ==> k.value < |s| && s[k.value] == '.' && forall i :: k.value < i < |s| ==> s[i] != '.'
    ensures k.None? ==> forall i :: 0 <= i < |s| ==> s[i] != '.'
  {
    if s == [] then None else if s[|s| - 1] == '.' then Some(|s| - 1) else LastDot(s[..|s| - 1])
  }

  /** `path::extension()`: from the last '.' of the file name on, except
      for "." and "..", and for a name whose only '.' is its first byte. */
  function Extension(p: string): string
  {
    var n := FileName(p);
    if n == "." || n == ".." then ""
    else
      match LastDot(n)
      case None => ""
      case Some(k) => if k == 0 then "" else n[k..]
  }

  /** `dir /= name` for a relative `name`: a '/' between them unless `dir`
      is empty or already ends with one. */
  function JoinPath(dir: string, name: string): string
  {
    if dir == [] || dir[|dir| - 1] == '/' then dir + name else dir + "/" + name
  }

  predicate NoSlash(s: string)
  {
    forall k :: 0 <= k < |s| ==> s[k] != '/'
  }

  /** An extension is empty, or a '.' and then neither '.' nor '/', and it
      ends the path. */
  lemma ExtensionShape(p: string)
    ensures var e := Extension(p);
      && |e| <= |p| && e == p[|p| - |e|..]
      && (e == "" || (e[0] == '.' && forall k :: 1 <= k < |e| ==> e[k] != '.' && e[k] != '/'))
  {
    var n := FileName(p);
    var e := Extension(p);
    if e != "" {
      var k := LastDot(n).value;
      assert e == n[k..];
      SuffixOfSuffix(p, n, k);
      forall i | 1 <= i < |e|
        ensures e[i] != '.' && e[i] != '/'
      {
        assert e[i] == n[k + i];
      }
    }
  }

  lemma SuffixOfSuffix(p: string, n: string, k: nat)
    requires |n| <= |p| && n == p[|p| - |n|..] && k <= |n|
    ensures n[k..] == p[|p| - |n| + k..]
  {
  }

  lemma {:induction false} FileNameAfter(dir: string, name: string)
    requires dir == [] || dir[|dir| - 1] == '/'
    requires NoSlash(name)
    ensures FileName(dir + name) == name
    decreases |name|
  {
    if name == [] {
      assert dir + name == dir;
    } else {
      var init := name[..|name| - 1];
      FileNameAfter(dir, init);
      assert (dir + name)[..|dir + name| - 1] == dir + init;
    }
  }

  /** The file name of a joined path is the name joined, and the path
      starts with the directory. */
  lemma FileNameOfJoin(dir: string, name: string)
    requires NoSlash(name)
    ensures FileName(JoinPath(dir, name)) == name
    ensures dir <= JoinPath(dir, name)
  {
    if dir == [] || dir[|dir| - 1] == '/' {
      FileNameAfter(dir, name);
    } else {
      FileNameAfter(dir + "/", name);
      assert dir + "/" + name == (dir + "/") + name;
    }
  }

  /** A name of a stem that does not start with '.' and a suffix made of a
      '.' and no further '.' has that suffix as its extension. */
  lemma ExtensionOf(dir: string, stem: string, ext: string)
    requires dir == [] || dir[|dir| - 1] == '/'
    requires |stem| >= 1 && stem[0] != '.' && NoSlash(stem)
    requires |ext| >= 1 && ext[0] == '.' && NoSlash(ext)
    requires forall k :: 1 <= k < |ext| ==> ext[k] != '.'
    ensures Extension(dir + (stem + ext)) == ext
  {
    var n := stem + ext;
    NoSlashJoin(stem, ext);
    FileNameAfter(dir, n);
    LastDotAt(stem, ext);
    ExtensionOfName(dir + n, n, |stem|);
    assert n[|stem|..] == ext;
  }

  lemma ExtensionOfName(p: string, n: string, k: nat)
    requires FileName(p) == n && 0 < k < |n| && n[0] != '.' && LastDot(n) == Some(k)
    ensures Extension(p) == n[k..]
  {
    assert n != "." && n != "..";
  }

  lemma NoSlashJoin(a: string, b: string)
    requires NoSlash(a) && NoSlash(b)
    ensures NoSlash(a + b)
  {
    var n := a + b;
    forall k | 0 <= k < |n| ensures n[k] != '/' {
      if k >= |a| { assert n[k] == b[k - |a|]; }
    }
  }

  lemma {:induction false} LastDotAt(stem: string, ext: string)
    requires |ext| >= 1 && ext[0] == '.' && forall k :: 1 <= k < |ext| ==> ext[k] != '.'
    ensures LastDot(stem + ext) == Some(|stem|)
    decreases |ext|
  {
    var n := stem + ext;
    if |ext| == 1 {
      assert n[|n| - 1] == '.';
    } else {
      assert n[..|n| - 1] == stem + ext[..|ext| - 1];
      LastDotAt(stem, ext[..|ext| - 1]);
    }
  }

  // ---------------------------------------------------------------------
  // path::lexically_normal (POSIX)

  /** The names of `p` between its '/'s, empty ones included: one more
      name than `p` has '/'s. */
  function SplitSlash(p: string): (names: seq<string>)
    ensures |names| >= 1
    ensures forall k :: 0 <= k < |names| ==> NoSlash(names[k])
  {
    if p == [] then [""]
    else
      var rest := SplitSlash(p[1..]);
      if p[0] == '/' then [""] + rest
      else
        assert NoSlash([p[0]]);
        NoSlashJoin([p[0]], rest[0]);
        [[p[0]] + rest[0]] + rest[1..]
  }

  /** The names with one '/' between each two. */
  function JoinSlash(names: seq<string>): string
    requires |names| >= 1
  {
    if |names| == 1 then names[0] else names[0] + "/" + JoinSlash(names[1..])
  }

  /** One name of the path against the names kept so far: "" (a repeated
      '/') and "." go; ".." cancels the name before it unless that is ".."
      itself, goes right after the root and is kept at the front of a
      relative path; any other name is kept. */
  function NormalStep(kept: seq<string>, name: string, absolute: bool): seq<string>
  {
    if name == "" || name == "." then kept
    else if name == ".." then
      if kept != [] && kept[|kept| - 1] != ".." then kept[..|kept| - 1]
      else if absolute then kept
      else kept + [".."]
    else kept + [name]
  }

  function NormalNames(kept: seq<string>, names: seq<string>, absolute: bool): seq<string>
    decreases |names|
  {
    if names == [] then kept else NormalNames(NormalStep(kept, names[0], absolute), names[1..], absolute)
  }

  /** A normal path keeps its separator after the last name when the
      original ended in '/', "." or a cancelling "..". */
  predicate TrailingSlash(last: string, kept: seq<string>)
  {
    (last == "" || last == "." || last == "..") && kept != [] && kept[|kept| - 1] != ".."
  }

  /** The path written from its normal names: "/" or "." when none is
      left, else the root, the names and the trailing separator. */
  function RenderPath(kept: seq<string>, absolute: bool, trailing: bool): string
  {
    if kept == [] then (if absolute then "/" else ".")
    else (if absolute then "/" else "") + JoinSlash(kept) + (if trailing then "/" else "")
  }

  /** `path::lexically_normal()` on a POSIX path: repeated '/'s collapse,
      "." names go, a name and the ".." after it cancel, ".." right after
      the root goes, and a path left with no name becomes "." (an empty
      path stays empty). */
  function LexicallyNormal(p: string): (n: string)
    ensures n == [] <==> p == []
    ensures p != [] ==> (n[0] == '/' <==> p[0] == '/')
  {
    if p == [] then []
    else
      var names := SplitSlash(p);
      var absolute := p[0] == '/';
      var kept := NormalNames([], names, absolute);
      NormalNamesForm([], names, absolute);
      RenderStart(kept, absolute, TrailingSlash(names[|names| - 1], kept));
      RenderPath(kept, absolute, TrailingSlash(names[|names| - 1], kept))
  }

  /** Names as `lexically_normal` leaves them: none empty, "." or holding a
      '/', and ".." only at the front of a relative path. */
  predicate NormalForm(kept: seq<string>, absolute: bool)
  {
    forall k :: 0 <= k < |kept| ==>
      && kept[k] != "" && kept[k] != "." && NoSlash(kept[k])
      && (kept[k] == ".." ==> !absolute && forall i :: 0 <= i < k ==> kept[i] == "..")
  }

  /** A rendered path is not empty and starts with '/' exactly when it is
      absolute. */
  lemma RenderStart(kept: seq<string>, absolute: bool, trailing: bool)
    requires NormalForm(kept, absolute)
    ensures var r := RenderPath(kept, absolute, trailing);
      r != [] && (r[0] == '/' <==> absolute)
  {
    if kept != [] && !absolute {
      assert kept[0] != "" && NoSlash(kept[0]);
      assert kept[0] <= JoinSlash(kept);
    }
  }

  lemma NormalStepForm(kept: seq<string>, name: string, absolute: bool)
    requires NormalForm(kept, absolute) && NoSlash(name)
    ensures NormalForm(NormalStep(kept, name, absolute), absolute)
  {
  }

  /** Whatever the names, the kept names are in normal form. */
  lemma {:induction false} NormalNamesForm(kept: seq<string>, names: seq<string>, absolute: bool)
    requires NormalForm(kept, absolute)
    requires forall k :: 0 <= k < |names| ==> NoSlash(names[k])
    ensures NormalForm(NormalNames(kept, names, absolute), absolute)
    decreases |names|
  {
    if names != [] {
      NormalStepForm(kept, names[0], absolute);
      NormalNamesForm(NormalStep(kept, names[0], absolute), names[1..], absolute);
    }
  }

  /** Names already in normal form are all kept. */
  lemma {:induction false} NormalNamesKeep(kept: seq<string>, names: seq<string>, absolute: bool)
    requires NormalForm(kept + names, absolute)
    ensures NormalNames(kept, names, absolute) == kept + names
    decreases |names|
  {
    if names != [] {
      var all := kept + names;
      assert all[|kept|] == names[0];
      if names[0] == ".." && kept != [] {
        assert all[|kept| - 1] == kept[|kept| - 1];
      }
      var next := NormalStep(kept, names[0], absolute);
      assert next == kept + [names[0]];
      assert next + names[1..] == all;
      NormalNamesKeep(next, names[1..], absolute);
    }
  }

  /** The names are taken one by one from the front. */
  lemma {:induction false} NormalNamesSnoc(kept: seq<string>, names: seq<string>, name: string, absolute: bool)
    ensures NormalNames(kept, names + [name], absolute) == NormalStep(NormalNames(kept, names, absolute), name, absolute)
    decreases |names|
  {
    if names == [] {
      assert NormalNames(NormalStep(kept, name, absolute), [], absolute) == NormalStep(kept, name, absolute);
      assert ([] + [name])[1..] == [];
    } else {
      assert (names + [name])[0] == names[0];
      assert (names + [name])[1..] == names[1..] + [name];
      NormalNamesSnoc(NormalStep(kept, names[0], absolute), names[1..], name, absolute);
    }
  }

  lemma {:induction false} SplitNoSlash(a: string)
    requires NoSlash(a)
    ensures SplitSlash(a) == [a]
    decreases |a|
  {
    if a != [] {
      SplitNoSlash(a[1..]);
      assert [a[0]] + a[1..] == a;
    }
  }

  lemma {:induction false} SplitAfterName(a: string, q: string)
    requires NoSlash(a)
    ensures SplitSlash(a + "/" + q) == [a] + SplitSlash(q)
    decreases |a|
  {
    var p := a + "/" + q;
    if a == [] {
      assert p == "/" + q && p[1..] == q;
    } else {
      assert p[1..] == a[1..] + "/" + q;
      SplitAfterName(a[1..], q);
      assert [a[0]] + a[1..] == a;
    }
  }

  /** Splitting undoes joining names without a '/'. */
  lemma {:induction false} SplitJoin(names: seq<string>)
    requires |names| >= 1 && forall k :: 0 <= k < |names| ==> NoSlash(names[k])
    ensures SplitSlash(JoinSlash(names)) == names
    decreases |names|
  {
    if |names| == 1 {
      SplitNoSlash(names[0]);
    } else {
      SplitJoin(names[1..]);
      SplitAfterName(names[0], JoinSlash(names[1..]));
    }
  }

  /** A trailing '/' adds an empty last name. */
  lemma {:induction false} JoinSlashTrailing(names: seq<string>)
    requires |names| >= 1
    ensures JoinSlash(names) + "/" == JoinSlash(names + [""])
    decreases |names|
  {
    var more := names + [""];
    assert more[1..] == names[1..] + [""];
    if |names| > 1 {
      JoinSlashTrailing(names[1..]);
    }
  }

  /** The names of a rendered path, with the root's and the trailing
      separator's empty names. */
  lemma SplitRender(kept: seq<string>, absolute: bool, trailing: bool)
    requires kept != [] && NormalForm(kept, absolute)
    ensures var names := if trailing then kept + [""] else kept;
      SplitSlash(RenderPath(kept, absolute, trailing)) == (if absolute then [""] + names else names)
  {
    var names := if trailing then kept + [""] else kept;
    if trailing {
      JoinSlashTrailing(kept);
    }
    assert JoinSlash(kept) + (if trailing then "/" else "") == JoinSlash(names);
    assert forall k :: 0 <= k < |names| ==> NoSlash(names[k]);
    SplitJoin(names);
    if absolute {
      var p := "/" + JoinSlash(names);
      assert p[0] == '/' && p[1..] == JoinSlash(names);
      assert RenderPath(kept, absolute, trailing) == p;
    } else {
      assert RenderPath(kept, absolute, trailing) == JoinSlash(names);
    }
  }

  /** `LexicallyNormal` from the names of the path and the names it keeps. */
  lemma LexicallyNormalBy(p: string, names: seq<string>, kept: seq<string>)
    requires p != [] && SplitSlash(p) == names && NormalNames([], names, p[0] == '/') == kept
    ensures LexicallyNormal(p) == RenderPath(kept, p[0] == '/', TrailingSlash(names[|names| - 1], kept))
  {
  }

  /** "/" and "." are in normal form. */
  lemma RenderFixedEmpty(absolute: bool)
    ensures LexicallyNormal(RenderPath([], absolute, false)) == RenderPath([], absolute, false)
  {
    var p := RenderPath([], absolute, false);
    if absolute {
      assert p == "/" && p[1..] == "";
      assert SplitSlash(p) == ["", ""];
      assert NormalNames([], ["", ""], true) == [];
      LexicallyNormalBy(p, ["", ""], []);
    } else {
      assert p == "." && NoSlash(p);
      SplitNoSlash(p);
      assert NormalNames([], ["."], false) == [];
      LexicallyNormalBy(p, ["."], []);
    }
  }

  /** The names of a rendered path leave the names it was rendered from. */
  lemma NormalNamesRendered(kept: seq<string>, absolute: bool, trailing: bool)
    requires NormalForm(kept, absolute)
    ensures var names := if trailing then kept + [""] else kept;
      && NormalNames([], names, absolute) == kept
      && NormalNames([], [""] + names, absolute) == kept
  {
    var names := if trailing then kept + [""] else kept;
    NormalNamesKeep([], kept, absolute);
    assert [] + kept == kept;
    if trailing {
      NormalNamesSnoc([], kept, "", absolute);
    }
    var all := [""] + names;
    assert all[0] == "" && all[1..] == names;
  }

  /** A path in normal form is its own normal form. */
  lemma RenderFixed(kept: seq<string>, absolute: bool, trailing: bool)
    requires NormalForm(kept, absolute)
    requires trailing ==> TrailingSlash("", kept)
    ensures LexicallyNormal(RenderPath(kept, absolute, trailing)) == RenderPath(kept, absolute, trailing)
  {
    if kept == [] {
      RenderFixedEmpty(absolute);
    } else {
      var p := RenderPath(kept, absolute, trailing);
      RenderStart(kept, absolute, trailing);
      var names := if trailing then kept + [""] else kept;
      SplitRender(kept, absolute, trailing);
      var all := if absolute then [""] + names else names;
      NormalNamesRendered(kept, absolute, trailing);
      assert all[|all| - 1] == names[|names| - 1];
      assert TrailingSlash(names[|names| - 1], kept) == trailing;
      LexicallyNormalBy(p, all, kept);
    }
  }

  /** Normalising twice is normalising once. */
  lemma LexicallyNormalIdempotent(p: string)
    ensures LexicallyNormal(LexicallyNormal(p)) == LexicallyNormal(p)
  {
    if p != [] {
      var names := SplitSlash(p);
      var absolute := p[0] == '/';
      NormalNamesForm([], names, absolute);
      var kept := NormalNames([], names, absolute);
      RenderFixed(kept, absolute, TrailingSlash(names[|names| - 1], kept));
    }
  }

  /** A leading "./" of a relative path goes. */
  lemma LexicallyNormalDot(q: string)
    requires q != [] && q[0] != '/'
    ensures LexicallyNormal("./" + q) == LexicallyNormal(q)
  {
    var p := "./" + q;
    assert p == "." + "/" + q;
    SplitAfterName(".", q);
    var all := ["."] + SplitSlash(q);
    assert all[0] == "." && all[1..] == SplitSlash(q);
    assert NormalNames([], all, false) == NormalNames([], SplitSlash(q), false);
  }

  /** A name and the ".." after it leave ".". */
  lemma LexicallyNormalCancel(a: string)
    requires NormalForm([a], false) && a != ".."
    ensures LexicallyNormal(a + "/..") == "."
  {
    assert [a][0] == a;
    var p := a + "/..";
    assert p == a + "/" + "..";
    SplitAfterName(a, "..");
    assert NoSlash("..");
    SplitNoSlash("..");
    var names := [a] + [".."];
    assert SplitSlash(p) == names;
    assert NormalStep([], a, false) == [a];
    assert NormalStep([a], "..", false) == [];
    assert names[1..] == [".."] && [".."][1..] == [];
    assert NormalNames([], names, false) == [];
    assert p[0] == a[0];
    LexicallyNormalBy(p, names, []);
  }

  /** A relative path in normal form, behind "./", is kept without it. */
  lemma LexicallyNormalDotNames(kept: seq<string>)
    requires kept != [] && NormalForm(kept, false)
    ensures LexicallyNormal("./" + JoinSlash(kept)) == JoinSlash(kept)
  {
    RenderFixed(kept, false, false);
    RenderStart(kept, false, false);
    assert RenderPath(kept, false, false) == JoinSlash(kept);
    LexicallyNormalDot(JoinSlash(kept));
  }

  /** The input file `./a dir/asdf.ext` of a job file line is kept as
      `a dir/asdf.ext`. */
  lemma LexicallyNormalExample(dir: string, file: string)
    requires dir == "a dir" && file == "asdf.ext"
    ensures LexicallyNormal("./" + dir + "/" + file) == dir + "/" + file
  {
    var kept := [dir, file];
    assert NoSlash(dir) && NoSlash(file);
    assert kept[1..] == [file];
    assert JoinSlash(kept) == dir + "/" + file;
    LexicallyNormalDotNames(kept);
    assert "./" + dir + "/" + file == "./" + JoinSlash(kept);
  }

  // ---------------------------------------------------------------------
  // Tags and parseArgs

  predicate TagCondCpp(ext: string)
  {
    ext == ".php" || ext == ".js" || ext == ".c" || ext == ".cpp" || ext == ".h" || ext == ".hpp"
  }

  predicate TagCondBash(ext: string)
  {
    ext == ".sh"
  }

  predicate TagCondBatch(ext: string)
  {
    ext == ".bat" || ext == ".cmd"
  }

  /** No extension asks for two kinds of comment. */
  lemma TagCondsDisjoint(ext: string)
    ensures !(TagCondCpp(ext) && TagCondBash(ext))
    ensures !(TagCondCpp(ext) && TagCondBatch(ext))
    ensures !(TagCondBash(ext) && TagCondBatch(ext))
  {
  }

  /** `value.compare(0, 7, "custom:") == 0`. */
  predicate IsCustom(tagValue: string)
  {
    |tagValue| >= |CustomPrefix| && tagValue[..|CustomPrefix|] == CustomPrefix
  }

  /** The tag `parseArgs` chooses from the `-t` value and the extension of
      the input file; `None` when it cannot choose one. */
  function ChooseTag(tagValue: string, ext: string): Option<string>
  {
    if IsCustom(tagValue) then Some(tagValue[|CustomPrefix|..])
    else if TagCondCpp(ext) || tagValue == "cpp" then Some(TagCpp)
    else if TagCondBash(ext) || tagValue == "bash" then Some(TagBash)
    else if TagCondBatch(ext) || tagValue == "batch" then Some(TagBatch)
    else None
  }

  /** A custom tag is taken literally, whatever the extension; otherwise
      the tag is one of the three built-in ones. Without `-t`, the
      extension alone decides. */
  lemma ChooseTagChoices(tagValue: string, ext: string)
    ensures IsCustom(tagValue) ==> ChooseTag(tagValue, ext) == Some(tagValue[|CustomPrefix|..])
    ensures IsCustom(tagValue) ==> CustomPrefix + ChooseTag(tagValue, ext).value == tagValue
    ensures !IsCustom(tagValue) && ChooseTag(tagValue, ext).Some? ==>
      ChooseTag(tagValue, ext).value in {TagCpp, TagBash, TagBatch}
    ensures tagValue == "" ==>
      && (ChooseTag(tagValue, ext) == Some(TagCpp) <==> TagCondCpp(ext))
      && (ChooseTag(tagValue, ext) == Some(TagBash) <==> TagCondBash(ext))
      && (ChooseTag(tagValue, ext) == Some(TagBatch) <==> TagCondBatch(ext))
      && (ChooseTag(tagValue, ext).None? <==> !TagCondCpp(ext) && !TagCondBash(ext) && !TagCondBatch(ext))
  {
    if IsCustom(tagValue) {
      assert tagValue == tagValue[..|CustomPrefix|] + tagValue[|CustomPrefix|..];
    }
  }

  /** The job `parseArgs` builds from the input file, the output file, the
      `-t` value and whether `-Werror` is given. */
  function BuildJob(inFile: string, outFile: string, tagValue: string, wError: bool): Job
  {
    var tag := ChooseTag(tagValue, Extension(inFile));
    if tag.None? then InvalidJob("unable to determine tag")
    else if |tag.value| > MaxTagLength then InvalidJob("tag too long")
    else NewJob(inFile, outFile, tag.value, wError)
  }

  /** The output file of `parseArgs`: the `-of` value, or the input's file
      name in the `-od` directory. */
  function OutPath(args: seq<Arg>): string
  {
    if ContainsType(args, OutFile) then FirstOfType(args, OutFile).value
    else JoinPath(FirstOfType(args, OutDir).value, FileName(FirstOfType(args, InFile).value))
  }

  /** `Job::parseArgs(args)`. */
  function ParseArgs(args: seq<Arg>): Job
  {
    BuildJob(FirstOfType(args, InFile).value, OutPath(args), FirstOfType(args, Tag).value, ContainsType(args, WError))
  }

  /** The job is valid exactly when a tag of at most 15 characters can be
      chosen; it then keeps the files, the tag and the `-Werror` switch it
      was given. An invalid job says why. */
  lemma BuildJobValid(inFile: string, outFile: string, tagValue: string, wError: bool)
    ensures var j := BuildJob(inFile, outFile, tagValue, wError);
      var tag := ChooseTag(tagValue, Extension(inFile));
      && (j.valid <==> tag.Some? && |tag.value| <= MaxTagLength)
      && (j.valid ==> j == NewJob(inFile, outFile, tag.value, wError))
      && (!j.valid ==> j.errorMsg == (if tag.None? then "unable to determine tag" else "tag too long"))
  {
  }

  /** Without `-of`, the output file lies in the `-od` directory and has the
      input's file name. */
  lemma OutPathInDir(args: seq<Arg>)
    ensures ContainsType(args, OutFile) ==> OutPath(args) == FirstOfType(args, OutFile).value
    ensures !ContainsType(args, OutFile) ==>
      && FirstOfType(args, OutDir).value <= OutPath(args)
      && FileName(OutPath(args)) == FileName(FirstOfType(args, InFile).value)
  {
    if !ContainsType(args, OutFile) {
      var dir, name := FirstOfType(args, OutDir).value, FileName(FirstOfType(args, InFile).value);
      assert OutPath(args) == JoinPath(dir, name);
      FileNameOfJoin(dir, name);
    }
  }

  /** A valid job reads from the `-if` value, writes to `OutPath` and takes
      warnings as errors exactly when `-Werror` is given. */
  lemma ParseArgsJob(args: seq<Arg>)
    ensures var j := ParseArgs(args);
      var inFile := FirstOfType(args, InFile).value;
      var tag := ChooseTag(FirstOfType(args, Tag).value, Extension(inFile));
      && (j.valid <==> tag.Some? && |tag.value| <= MaxTagLength)
      && (j.valid ==> j == NewJob(inFile, OutPath(args), tag.value, ContainsType(args, WError)))
  {
    BuildJobValid(FirstOfType(args, InFile).value, OutPath(args), FirstOfType(args, Tag).value, ContainsType(args, WError));
  }

  // ---------------------------------------------------------------------
  // parseFile

  /** The bytes of a record as the characters `c_str()` hands to the parser. */
  function ToChars(d: seq<Byte>): (s: string)
    ensures |s| == |d| && forall k :: 0 <= k < |d| ==> s[k] as int == d[k]
  {
    seq(|d|, k requires 0 <= k < |d| => d[k] as char)
  }

  /** The job a record yields, when `argProcJF` accepts its arguments and
      `parseArgs` makes a valid job of them. */
  function LineJob(l: JobFileLine): Option<Job>
  {
    var args := ArgsOfString(Some(ToChars(l.data)));
    var job := ParseArgs(args);
    if ArgProcJF(args).0 == Process && job.valid then Some(job) else None
  }

  /** The jobs of the accepted records, in file order. */
  function AcceptedJobs(ls: seq<JobFileLine>): seq<Job>
  {
    if ls == [] then []
    else
      var o := LineJob(ls[|ls| - 1]);
      AcceptedJobs(ls[..|ls| - 1]) + (if o.Some? then [o.value] else [])
  }

  /** The number of records that are not accepted. */
  function Rejected(ls: seq<JobFileLine>): nat
  {
    if ls == [] then 0 else Rejected(ls[..|ls| - 1]) + (if LineJob(ls[|ls| - 1]).None? then 1 else 0)
  }

  /** What `parseFile` returns and appends for a file: -1 when the file
      cannot be read; otherwise one error per rejected record, the warnings
      of reading it, and the accepted jobs. */
  function ParseFileResult(file: Option<seq<Byte>>): (Result, seq<Job>)
  {
    var (r, ls) := JobFileContents(file, None);
    if r.err != 0 then (Errors(-1), []) else (Result(Rejected(ls), r.warn), AcceptedJobs(ls))
  }

  /** The body of `parseFile`'s loop for one record: its arguments, checked
      by `argProcJF` and turned into a job by `parseArgs`. */
  method ParseRecord(l: JobFileLine) returns (apr: ArgProcResult, job: Job)
    ensures LineJob(l) == if apr == Process && job.valid then Some(job) else None
  {
    var list := ArgList.ParseString(Some(ToChars(l.data)));
    apr := ArgProcJF(list.args).0;
    job := ParseArgs(list.args);
  }

  /** `Job::parseFile(filename, jobs)` with `jobs` empty. */
  method ParseFile(file: Option<seq<Byte>>) returns (r: Result, jobs: seq<Job>)
    ensures (r, jobs) == ParseFileResult(file)
  {
    var lines;
    r, lines := ReadJobFile(file, None);
    jobs := [];
    if r.err != 0 {
      return Errors(-1), [];
    }
    r, jobs := ParseRecords(lines, r);
  }

  /** The loop of `parseFile` over the records: one more error in `r` for
      each rejected record, and the accepted jobs in file order. */
  method ParseRecords(lines: seq<JobFileLine>, r0: Result) returns (r: Result, jobs: seq<Job>)
    ensures r == Result(r0.err + Rejected(lines), r0.warn)
    ensures jobs == AcceptedJobs(lines)
  {
    r, jobs := r0, [];
    var i := 0;
    while i < |lines|
      invariant 0 <= i <= |lines|
      invariant jobs == AcceptedJobs(lines[..i])
      invariant r.err == r0.err + Rejected(lines[..i]) && r.warn == r0.warn
    {
      var line := lines[i];
      var apr, job := ParseRecord(line);
      ParseStep(lines, i);
      if apr != Process {
        r := OneMoreError(r);
      } else if !job.valid {
        r := OneMoreError(r);
      } else {
        jobs := jobs + [job];
      }
      i := i + 1;
    }
    assert lines[..|lines|] == lines;
  }

  /** One more record: its job, or one more rejection. */
  lemma ParseStep(ls: seq<JobFileLine>, i: nat)
    requires i < |ls|
    ensures AcceptedJobs(ls[..i + 1]) == AcceptedJobs(ls[..i]) + (if LineJob(ls[i]).Some? then [LineJob(ls[i]).value] else [])
    ensures Rejected(ls[..i + 1]) == Rejected(ls[..i]) + (if LineJob(ls[i]).None? then 1 else 0)
  {
    assert ls[..i + 1][..i] == ls[..i];
  }

  /** Every record is either accepted or rejected. */
  lemma {:induction false} AcceptedCount(ls: seq<JobFileLine>)
    ensures |AcceptedJobs(ls)| + Rejected(ls) == |ls|
  {
    if ls != [] {
      AcceptedCount(ls[..|ls| - 1]);
    }
  }

  /** Every accepted job is the job of some record. */
  lemma {:induction false} AcceptedOrigin(ls: seq<JobFileLine>, k: nat)
    requires k < |AcceptedJobs(ls)|
    ensures exists i :: 0 <= i < |ls| && LineJob(ls[i]) == Some(AcceptedJobs(ls)[k])
  {
    var init := ls[..|ls| - 1];
    var o := LineJob(ls[|ls| - 1]);
    assert AcceptedJobs(ls) == AcceptedJobs(init) + (if o.Some? then [o.value] else []);
    if k < |AcceptedJobs(init)| {
      AcceptedOrigin(init, k);
      var i :| 0 <= i < |init| && LineJob(init[i]) == Some(AcceptedJobs(init)[k]);
      assert ls[i] == init[i];
    } else {
      assert LineJob(ls[|ls| - 1]) == Some(AcceptedJobs(ls)[k]);
    }
  }

  /** Every accepted job is valid, with a tag of at most 15 characters. */
  lemma LineJobValid(l: JobFileLine)
    ensures LineJob(l).Some? ==> LineJob(l).value.valid && |LineJob(l).value.tag| <= MaxTagLength
  {
    ParseArgsJob(ArgsOfString(Some(ToChars(l.data))));
  }

  /** A file that cannot be read gives -1 and no job. Otherwise every
      record either gives a job or counts one error, and every job is
      valid with a tag of at most 15 characters and comes from a record. */
  lemma ParseFileCounts(file: Option<seq<Byte>>)
    ensures var (r0, ls) := JobFileContents(file, None);
      var (r, jobs) := ParseFileResult(file);
      && (r0.err != 0 ==> r == Errors(-1) && jobs == [])
      && (r0.err == 0 ==>
            && r.err + |jobs| == |ls|
            && r.warn == r0.warn
            && forall k :: 0 <= k < |jobs| ==>
                 jobs[k].valid && |jobs[k].tag| <= MaxTagLength &&
                 exists i :: 0 <= i < |ls| && LineJob(ls[i]) == Some(jobs[k]))
  {
    var (r0, ls) := JobFileContents(file, None);
    if r0.err == 0 {
      AcceptedCount(ls);
      var jobs := AcceptedJobs(ls);
      forall k | 0 <= k < |jobs|
        ensures jobs[k].valid && |jobs[k].tag| <= MaxTagLength
        ensures exists i :: 0 <= i < |ls| && LineJob(ls[i]) == Some(jobs[k])
      {
        AcceptedOrigin(ls, k);
        var i :| 0 <= i < |ls| && LineJob(ls[i]) == Some(jobs[k]);
        LineJobValid(ls[i]);
      }
    }
  }
}
