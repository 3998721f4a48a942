/** The directive scanner of `caterpillarProc` and its input chunking
    (`readsome`), src/application/processor.cpp:71-439.

    The scanner reads the input in chunks that end on a line break, walks
    each chunk line by line, copies lines to the output, and interprets a
    line that starts (after blanks) with the job's tag and a space as a
    directive: `rm` ... `endrm` removes a block, `rmn d` removes the
    directive line and the next `d` lines, `ins` removes the tag, the
    keyword and one byte and keeps the rest of the line. Errors and
    warnings are counted in a `Result`. */
module Scanner {
  import opened Util

  // ---------------------------------------------------------------------
  // Byte classes and keywords

  /** `isSpace`: tab or space. */
  predicate IsSpace(b: Byte)
  {
    b == TAB || b == SP
  }

  /** `isNewLine`: LF. */
  predicate IsNewLine(b: Byte)
  {
    b == LF
  }

  /** `isWhiteSpace`: a space, a tab or LF. */
  predicate IsWhiteSpace(b: Byte)
  {
    IsSpace(b) || IsNewLine(b)
  }

  datatype KeyWord = Unknown | RmStart | RmEnd | Rmn | Ins

  /** The bytes of a C++ `std::string`; every character is one byte. */
  function AsBytes(s: string): (b: seq<Byte>)
    ensures |b| == |s|
  {
    seq(|s|, i requires 0 <= i < |s| => (s[i] as int) % 256)
  }

  const KwRm: seq<Byte> := [0x72, 0x6D]
  const KwEndRm: seq<Byte> := [0x65, 0x6E, 0x64, 0x72, 0x6D]
  const KwRmn: seq<Byte> := [0x72, 0x6D, 0x6E]
  const KwIns: seq<Byte> := [0x69, 0x6E, 0x73]

  /** `getKW`: the keyword a word spells, or `Unknown`. */
  function GetKW(word: seq<Byte>): (kw: KeyWord)
    ensures kw == RmStart <==> word == KwRm
    ensures kw == RmEnd <==> word == KwEndRm
    ensures kw == Rmn <==> word == KwRmn
    ensures kw == Ins <==> word == KwIns
  {
    if word == KwIns then Ins
    else if word == KwRmn then Rmn
    else if word == KwEndRm then RmEnd
    else if word == KwRm then RmStart
    else Unknown
  }

  /** The byte constants spell the four keywords of the source. */
  lemma KeywordSpelling()
    ensures AsBytes("rm") == KwRm && AsBytes("endrm") == KwEndRm
    ensures AsBytes("rmn") == KwRmn && AsBytes("ins") == KwIns
  {
  }

  // ---------------------------------------------------------------------
  // Positions in a chunk

  /** The blank-skipping loops: the first byte from `i` on that is not a
      space or tab, or the end. */
  function SpacesEnd(s: seq<Byte>, i: nat): (j: nat)
    requires i <= |s|
    ensures i <= j <= |s|
    ensures j < |s| ==> !IsSpace(s[j])
    decreases |s| - i
  {
    if i < |s| && IsSpace(s[i]) then SpacesEnd(s, i + 1) else i
  }

  /** The word-reading loops: the first white-space byte from `i` on, or
      the end. */
  function TokenEnd(s: seq<Byte>, i: nat): (j: nat)
    requires i <= |s|
    ensures i <= j <= |s|
    ensures j < |s| ==> IsWhiteSpace(s[j])
    decreases |s| - i
  {
    if i < |s| && !IsWhiteSpace(s[i]) then TokenEnd(s, i + 1) else i
  }

  /** The copy-until-line-end loop: the first LF from `i` on, or the end. */
  function LineEnd(s: seq<Byte>, i: nat): (j: nat)
    requires i <= |s|
    ensures i <= j <= |s|
    ensures j < |s| ==> s[j] == LF
    decreases |s| - i
  {
    if i < |s| && !IsNewLine(s[i]) then LineEnd(s, i + 1) else i
  }

  /** Just past the line break that ends the line through `i`, or the end. */
  function NextLine(s: seq<Byte>, i: nat): (n: nat)
    requires i <= |s|
    ensures i <= n <= |s|
    ensures i < |s| ==> i < n
  {
    var f := LineEnd(s, i);
    if f < |s| then f + 1 else f
  }

  // ---------------------------------------------------------------------
  // One line

  /** The state the scanner carries from line to line (and from chunk to
      chunk): the open `rm` block, the `rmn` counter and the counters.
      `skipThisLine` is always false between lines. */
  datatype ScanState = ScanState(rm: bool, rmn: nat, r: Result)

  const Initial: ScanState := ScanState(false, 0, Zero)

  /** The line at `p` is a directive: after its blanks come the tag (which
      ends in a space) and at least one more byte of the chunk. */
  predicate IsDirective(s: seq<Byte>, p: nat, tag: seq<Byte>)
    requires p <= |s|
  {
    var a := SpacesEnd(s, p);
    a + |tag| < |s| && s[a..a + |tag|] == tag
  }

  /** Where the keyword of a directive starts: after the tag and blanks. */
  function KeywordStart(s: seq<Byte>, p: nat, tag: seq<Byte>): nat
    requires p <= |s| && IsDirective(s, p, tag)
  {
    SpacesEnd(s, SpacesEnd(s, p) + |tag|)
  }

  /** The keyword of a directive: the longest run of bytes that are not
      white space. */
  function Keyword(s: seq<Byte>, p: nat, tag: seq<Byte>): seq<Byte>
    requires p <= |s| && IsDirective(s, p, tag)
  {
    s[KeywordStart(s, p, tag)..TokenEnd(s, KeywordStart(s, p, tag))]
  }

  /** A directive keyword met while a block is open (other than `endrm`),
      or while lines are being removed by `rmn`, is not interpreted. */
  predicate InScope(st: ScanState, kw: KeyWord)
  {
    (st.rm && kw != RmEnd) || st.rmn > 0
  }

  /** What a keyword does outside any scope: the position after it (and
      after its argument), the new state, and whether the line is dropped. */
  datatype Effect = Effect(q: nat, st: ScanState, skip: bool)

  function Apply(s: seq<Byte>, d: nat, kw: KeyWord, st: ScanState): (x: Effect)
    requires d <= |s|
    ensures d <= x.q <= |s|
  {
    match kw
    case RmStart => Effect(d, st.(rm := true), false)
    case RmEnd =>
      if st.rm then Effect(d, st.(rm := false), true)
      else Effect(d, st.(r := OneMoreError(st.r)), false)
    case Rmn =>
      var e := SpacesEnd(s, d);
      var f := TokenEnd(s, e);
      if f == e then Effect(f, st.(r := OneMoreError(st.r)), false)
      else if f == e + 1 && 0x30 <= s[e] <= 0x39 then Effect(f, st.(rmn := s[e] - 0x30 + 1), false)
      else Effect(f, st.(r := OneMoreError(st.r)), false)
    case Ins => Effect(if d < |s| then d + 1 else d, st, false)
    case Unknown => Effect(d, st.(r := OneMoreError(st.r)), false)
  }

  /** "no new line after expression": a byte other than LF right after a
      keyword (other than `ins`) and its argument. */
  predicate TrailingText(s: seq<Byte>, q: nat, kw: KeyWord)
  {
    q < |s| && kw != Ins && s[q] != LF
  }

  /** The output of one line, where the next line starts, and the state
      after it. */
  datatype LineResult = LineResult(out: seq<Byte>, next: nat, st: ScanState)

  /** The end of every line: the bytes from `q` through the LF are kept
      after `kept`, unless the line is dropped; the `rmn` counter counts
      the line. */
  function EndLine(s: seq<Byte>, kept: seq<Byte>, q: nat, st: ScanState, skip: bool): (lr: LineResult)
    requires q <= |s|
    ensures lr.next == NextLine(s, q)
  {
    var n := NextLine(s, q);
    var drop := st.rmn > 0 || st.rm || skip;
    LineResult(if drop then [] else kept + s[q..n], n, st.(rmn := if st.rmn > 0 then st.rmn - 1 else 0))
  }

  /** One pass of the line loop of `caterpillarProc` from `p`. */
  function LineStep(s: seq<Byte>, p: nat, tag: seq<Byte>, st: ScanState): (lr: LineResult)
    requires p < |s|
    ensures p < lr.next <= |s|
    ensures lr.st.r.err >= st.r.err && lr.st.r.warn >= st.r.warn
  {
    if IsDirective(s, p, tag) then DirectiveLine(s, p, tag, st)
    else EndLine(s, s[p..SpacesEnd(s, p)], SpacesEnd(s, p), st, false)
  }

  /** A directive line: ignored with a warning inside a scope, otherwise
      the keyword's effect, and a warning for text right after it. */
  function DirectiveLine(s: seq<Byte>, p: nat, tag: seq<Byte>, st: ScanState): (lr: LineResult)
    requires p < |s| && IsDirective(s, p, tag)
    ensures p < lr.next <= |s|
    ensures lr.st.r.err >= st.r.err && lr.st.r.warn >= st.r.warn
  {
    var a := SpacesEnd(s, p);
    var d := TokenEnd(s, KeywordStart(s, p, tag));
    var kw := GetKW(Keyword(s, p, tag));
    if InScope(st, kw) then
      EndLine(s, s[p..a], d, st.(r := OneMoreWarning(st.r)), false)
    else
      var x := Apply(s, d, kw, st);
      var st' := if TrailingText(s, x.q, kw) then x.st.(r := OneMoreWarning(x.st.r)) else x.st;
      EndLine(s, if x.skip then [] else s[p..a], x.q, st', x.skip)
  }

  /** Output and final state of a scan. */
  datatype Scanned = Scanned(out: seq<Byte>, st: ScanState)

  /** The line loop over a chunk from `p`. */
  function ScanFrom(s: seq<Byte>, p: nat, tag: seq<Byte>, st: ScanState): (sc: Scanned)
    requires p <= |s|
    ensures sc.st.r.err >= st.r.err && sc.st.r.warn >= st.r.warn
    decreases |s| - p
  {
    if p == |s| then Scanned([], st)
    else
      var lr := LineStep(s, p, tag, st);
      var rest := ScanFrom(s, lr.next, tag, lr.st);
      Scanned(lr.out + rest.out, rest.st)
  }

  // ---------------------------------------------------------------------
  // Chunks

  /** `readsome` may stop after the `k`-th byte of the input: at least
      `min` bytes read since `pos`, and the last one LF. */
  predicate BreakAt(input: seq<Byte>, pos: nat, k: nat, min: nat)
    requires 0 < k <= |input|
  {
    k - pos >= min && input[k - 1] == LF
  }

  /** The reading loop of `readsome`, `k - pos` bytes read so far: it stops
      once at least `min` bytes are read and the last is LF, or at the end
      of the input. */
  function ReadEnd(input: seq<Byte>, pos: nat, k: nat, min: nat): (e: nat)
    requires pos < k <= |input|
    ensures k <= e <= |input|
    decreases |input| - k
  {
    if BreakAt(input, pos, k, min) || k == |input| then k
    else ReadEnd(input, pos, k + 1, min)
  }

  /** The end of the chunk `readsome` reads from `pos`. */
  function ChunkEnd(input: seq<Byte>, pos: nat, min: nat): (e: nat)
    requires pos <= |input|
    ensures pos <= e <= |input|
    ensures pos < |input| ==> pos < e
  {
    if pos == |input| then pos else ReadEnd(input, pos, pos + 1, min)
  }

  /** The chunk from `pos` is the last one: `readsome` ran into the end of
      the input (so `ifs.eof()` holds, or fewer than `min` bytes came). */
  predicate LastChunk(input: seq<Byte>, pos: nat, min: nat)
    requires pos <= |input|
  {
    var e := ChunkEnd(input, pos, min);
    !(pos < e && BreakAt(input, pos, e, min))
  }

  /** The chunks the outer loop of `caterpillarProc` reads from `pos` on. */
  function Chunks(input: seq<Byte>, pos: nat, min: nat): (cs: seq<seq<Byte>>)
    requires pos <= |input|
    ensures |cs| >= 1
    decreases |input| - pos
  {
    var e := ChunkEnd(input, pos, min);
    if LastChunk(input, pos, min) then [input[pos..e]]
    else [input[pos..e]] + Chunks(input, e, min)
  }

  /** The scan of a sequence of chunks, the state carried across. */
  function ScanChunks(cs: seq<seq<Byte>>, tag: seq<Byte>, st: ScanState): (sc: Scanned)
    ensures sc.st.r.err >= st.r.err && sc.st.r.warn >= st.r.warn
  {
    if cs == [] then Scanned([], st)
    else
      var first := ScanFrom(cs[0], 0, tag, st);
      var rest := ScanChunks(cs[1..], tag, first.st);
      Scanned(first.out + rest.out, rest.st)
  }

  // ---------------------------------------------------------------------
  // The whole input

  /** The encodings rejected by the byte-order-mark check. */
  datatype Encoding = Utf32Be | Utf32Le | Utf16Be | Utf16Le

  /** The byte-order-mark check on the first chunk; the UTF-32 marks are
      looked for first. A UTF-8 mark is not looked for. */
  function RejectedBom(c: seq<Byte>): Option<Encoding>
  {
    if |c| >= 4 && c[0] == 0x00 && c[1] == 0x00 && c[2] == 0xFE && c[3] == 0xFF then Some(Utf32Be)
    else if |c| >= 4 && c[0] == 0xFF && c[1] == 0xFE && c[2] == 0x00 && c[3] == 0x00 then Some(Utf32Le)
    else if |c| >= 2 && c[0] == 0xFE && c[1] == 0xFF then Some(Utf16Be)
    else if |c| >= 2 && c[0] == 0xFF && c[1] == 0xFE then Some(Utf16Le)
    else None
  }

  /** The checks after the last chunk: an open block is an error, a
      pending `rmn` a warning. */
  function Final(st: ScanState): (r: Result)
    ensures r.err == st.r.err + (if st.rm then 1 else 0)
    ensures r.warn == st.r.warn + (if st.rmn > 0 then 1 else 0)
  {
    var r := if st.rm then OneMoreError(st.r) else st.r;
    if st.rmn > 0 then OneMoreWarning(r) else r
  }

  /** What `caterpillarProc` returns and writes for an input, reading it in
      chunks of at least `min` bytes. A rejected byte-order mark stops it
      with one error before anything is written. */
  function Processed(input: seq<Byte>, tag: seq<Byte>, min: nat): (p: (Result, seq<Byte>))
    ensures p.0.err >= 0 && p.0.warn >= 0
  {
    if RejectedBom(input[..ChunkEnd(input, 0, min)]).Some? then (Errors(1), [])
    else
      var sc := ScanChunks(Chunks(input, 0, min), tag, Initial);
      (Final(sc.st), sc.out)
  }

  // ---------------------------------------------------------------------
  // The input stream and `readsome`

  /** An input file opened for reading, with the exception mask of
      `caterpillarProc`: a read at the end sets the end-of-file state and
      fails, and every read after that fails too. */
  class InputFile {
    const data: seq<Byte>
    var pos: nat
    var eofBit: bool

    constructor (data: seq<Byte>)
      ensures this.data == data && pos == 0 && !eofBit
    {
      this.data := data;
      pos := 0;
      eofBit := false;
    }

    /** `ifs.get()`: the next byte, or `None` where the C++ call throws. */
    method Get() returns (b: Option<Byte>)
      requires pos <= |data|
      modifies this
      ensures pos <= |data|
      ensures old(!eofBit && pos < |data|) ==> b == Some(data[old(pos)]) && pos == old(pos) + 1 && !eofBit
      ensures old(eofBit || pos == |data|) ==> b.None? && pos == old(pos) && eofBit
    {
      if eofBit || pos == |data| {
        eofBit := true;
        return None;
      }
      b := Some(data[pos]);
      pos := pos + 1;
    }
  }

  /** `readsome(ifs, data)` into an empty `data`: the chunk from the read
      position to `ChunkEnd`, the end-of-file state set exactly when the
      chunk is the last one. */
  method ReadSome(ifs: InputFile, min: nat) returns (chunk: seq<Byte>)
    requires ifs.pos <= |ifs.data| && !ifs.eofBit
    modifies ifs
    ensures ifs.pos == ChunkEnd(ifs.data, old(ifs.pos), min)
    ensures chunk == ifs.data[old(ifs.pos)..ifs.pos]
    ensures ifs.eofBit <==> LastChunk(ifs.data, old(ifs.pos), min)
  {
    ghost var pos := ifs.pos;
    var b := ifs.Get();
    if b.None? {
      return [];
    }
    chunk := [b.value];
    while |chunk| < min || chunk[|chunk| - 1] != LF
      invariant pos < ifs.pos <= |ifs.data| && !ifs.eofBit
      invariant chunk == ifs.data[pos..ifs.pos]
      invariant ReadEnd(ifs.data, pos, ifs.pos, min) == ReadEnd(ifs.data, pos, pos + 1, min)
      decreases |ifs.data| - ifs.pos
    {
      b := ifs.Get();
      if b.None? {
        break;
      }
      chunk := chunk + [b.value];
    }
  }

  // ---------------------------------------------------------------------
  // The scanning loops

  /** The leading-blank loop: copies tabs and spaces. */
  method CopySpaces(s: seq<Byte>, p: nat) returns (q: nat, copied: seq<Byte>)
    requires p <= |s|
    ensures q == SpacesEnd(s, p) && copied == s[p..q]
  {
    q, copied := p, [];
    while q < |s| && IsSpace(s[q])
      invariant p <= q <= |s| && copied == s[p..q]
      invariant SpacesEnd(s, q) == SpacesEnd(s, p)
      decreases |s| - q
    {
      copied := copied + [s[q]];
      q := q + 1;
    }
  }

  /** The "skip space" loops. */
  method SkipSpaces(s: seq<Byte>, p: nat) returns (q: nat)
    requires p <= |s|
    ensures q == SpacesEnd(s, p)
  {
    q := p;
    while q < |s| && IsSpace(s[q])
      invariant p <= q <= |s|
      invariant SpacesEnd(s, q) == SpacesEnd(s, p)
      decreases |s| - q
    {
      q := q + 1;
    }
  }

  /** The loops that read the keyword and the `rmn` argument. */
  method ReadWord(s: seq<Byte>, p: nat) returns (q: nat, word: seq<Byte>)
    requires p <= |s|
    ensures q == TokenEnd(s, p) && word == s[p..q]
  {
    q, word := p, [];
    while q < |s| && !IsWhiteSpace(s[q])
      invariant p <= q <= |s| && word == s[p..q]
      invariant TokenEnd(s, q) == TokenEnd(s, p)
      decreases |s| - q
    {
      word := word + [s[q]];
      q := q + 1;
    }
  }

  /** The copy-until-line-end loop. */
  method CopyLine(s: seq<Byte>, p: nat) returns (q: nat, copied: seq<Byte>)
    requires p <= |s|
    ensures q == LineEnd(s, p) && copied == s[p..q]
  {
    q, copied := p, [];
    while q < |s| && !IsNewLine(s[q])
      invariant p <= q <= |s| && copied == s[p..q]
      invariant LineEnd(s, q) == LineEnd(s, p)
      decreases |s| - q
    {
      copied := copied + [s[q]];
      q := q + 1;
    }
  }

  /** The keyword branches of the line loop, outside any scope. */
  method ApplyKeyword(s: seq<Byte>, d: nat, kw: KeyWord, st: ScanState) returns (q: nat, st': ScanState, skip: bool)
    requires d <= |s|
    ensures Effect(q, st', skip) == Apply(s, d, kw, st)
  {
    q, st', skip := d, st, false;
    if kw == RmStart {
      st' := st'.(rm := true);
    } else if kw == RmEnd {
      if st.rm {
        st' := st'.(rm := false);
        skip := true;
      } else {
        st' := st'.(r := OneMoreError(st.r));
      }
    } else if kw == Rmn {
      q := SkipSpaces(s, q);
      var arg;
      q, arg := ReadWord(s, q);
      if |arg| == 0 {
        st' := st'.(r := OneMoreError(st.r));
      } else if |arg| == 1 && 0x30 <= arg[0] <= 0x39 {
        st' := st'.(rmn := arg[0] - 0x30 + 1);
      } else {
        st' := st'.(r := OneMoreError(st.r));
      }
    } else if kw == Ins {
      if q < |s| {
        q := q + 1;
      }
    } else {
      st' := st'.(r := OneMoreError(st.r));
    }
  }

  /** The end of the line loop: copy to the line break and past it, drop
      the line when a block or `rmn` is active, count down `rmn`. */
  method FinishLine(s: seq<Byte>, kept: seq<Byte>, q0: nat, st: ScanState, skip: bool)
    returns (out: seq<Byte>, next: nat, st': ScanState)
    requires q0 <= |s|
    ensures LineResult(out, next, st') == EndLine(s, kept, q0, st, skip)
  {
    var q, rest := CopyLine(s, q0);
    out := kept + rest;
    if q < |s| {
      out := out + [s[q]];
      q := q + 1;
    }
    assert out == kept + s[q0..q];
    if st.rmn > 0 || st.rm || skip {
      out := [];
    }
    next, st' := q, st.(rmn := if st.rmn > 0 then st.rmn - 1 else 0);
  }

  /** One pass of the line loop: the bytes written for the line, where the
      next line starts, and the new state. */
  method ScanLine(s: seq<Byte>, p: nat, tag: seq<Byte>, st: ScanState)
    returns (out: seq<Byte>, next: nat, st': ScanState)
    requires p < |s|
    ensures LineResult(out, next, st') == LineStep(s, p, tag, st)
  {
    var q, kept := CopySpaces(s, p);
    if q + |tag| < |s| && s[q..q + |tag|] == tag {
      out, next, st' := ScanDirective(s, p, q, kept, tag, st);
    } else {
      out, next, st' := FinishLine(s, kept, q, st, false);
    }
  }

  /** The tag branch of the line loop, the blanks before the tag copied. */
  method ScanDirective(s: seq<Byte>, p: nat, a: nat, kept: seq<Byte>, tag: seq<Byte>, st: ScanState)
    returns (out: seq<Byte>, next: nat, st': ScanState)
    requires p < |s| && a == SpacesEnd(s, p) && kept == s[p..a] && IsDirective(s, p, tag)
    ensures LineResult(out, next, st') == DirectiveLine(s, p, tag, st)
  {
    var k := SkipSpaces(s, a + |tag|);
    var d, kwStr := ReadWord(s, k);
    var kw := GetKW(kwStr);
    if (st.rm && kw != RmEnd) || st.rmn > 0 {
      out, next, st' := FinishLine(s, kept, d, st.(r := OneMoreWarning(st.r)), false);
    } else {
      var e, st1, skip := ApplyKeyword(s, d, kw, st);
      if e < |s| && kw != Ins && !IsNewLine(s[e]) {
        st1 := st1.(r := OneMoreWarning(st1.r));
      }
      var kept' := if skip then [] else kept;
      out, next, st' := FinishLine(s, kept', e, st1, skip);
    }
  }

  /** The line loop over one chunk, the state carried in and out. */
  method ScanChunk(s: seq<Byte>, tag: seq<Byte>, st0: ScanState) returns (out: seq<Byte>, st: ScanState)
    ensures Scanned(out, st) == ScanFrom(s, 0, tag, st0)
  {
    ghost var whole := ScanFrom(s, 0, tag, st0);
    var p := 0;
    out, st := [], st0;
    while p < |s|
      invariant p <= |s|
      invariant out + ScanFrom(s, p, tag, st).out == whole.out
      invariant ScanFrom(s, p, tag, st).st == whole.st
      decreases |s| - p
    {
      var lineOut, next, st1 := ScanLine(s, p, tag, st);
      AppendAssoc(out, lineOut, ScanFrom(s, next, tag, st1).out);
      out := out + lineOut;
      p, st := next, st1;
    }
  }

  /** `caterpillarProc`: reads chunks until the end of the input, checks
      the first one for a byte-order mark, and scans each. */
  method CaterpillarProc(input: seq<Byte>, tag: seq<Byte>, min: nat) returns (r: Result, out: seq<Byte>)
    ensures (r, out) == Processed(input, tag, min)
  {
    ghost var whole := ScanChunks(Chunks(input, 0, min), tag, Initial);
    var ifs := new InputFile(input);
    var eof := false;
    var first := true;
    var st := Initial;
    out := [];
    while !eof
      invariant ifs.data == input && ifs.pos <= |input|
      invariant !eof ==> !ifs.eofBit
      invariant first ==> ifs.pos == 0 && out == [] && st == Initial && !eof
      invariant !first ==> RejectedBom(input[..ChunkEnd(input, 0, min)]).None?
      invariant !eof ==> out + ScanChunks(Chunks(input, ifs.pos, min), tag, st).out == whole.out
      invariant !eof ==> ScanChunks(Chunks(input, ifs.pos, min), tag, st).st == whole.st
      invariant eof ==> out == whole.out && st == whole.st
      decreases (if eof then 0 else 1) + |input| - ifs.pos
    {
      ghost var pos := ifs.pos;
      ghost var cs := Chunks(input, pos, min);
      var chunk := ReadSome(ifs, min);
      if |chunk| < min || ifs.eofBit {
        eof := true;
      }
      if first {
        first := false;
        if RejectedBom(chunk).Some? {
          return Errors(1), out;
        }
      }
      var o;
      o, st := ScanChunk(chunk, tag, st);
      assert cs[0] == chunk;
      ChunkStep(input, pos, min);
      AppendAssoc(out, o, ScanChunks(cs[1..], tag, st).out);
      out := out + o;
    }
    r := Final(st);
  }

  /** The chunks from `pos`: the chunk `readsome` reads, then the chunks
      after it unless it is the last. */
  lemma ChunkStep(input: seq<Byte>, pos: nat, min: nat)
    requires pos <= |input|
    ensures var cs := Chunks(input, pos, min);
      && cs[0] == input[pos..ChunkEnd(input, pos, min)]
      && (LastChunk(input, pos, min) ==> cs[1..] == [])
      && (!LastChunk(input, pos, min) ==> cs[1..] == Chunks(input, ChunkEnd(input, pos, min), min))
  {
  }
}
