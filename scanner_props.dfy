/** What `caterpillarProc` and `readsome` promise, proved about the
    specification functions of module `Scanner`
    (src/application/processor.cpp:133-439). */
module ScannerProperties {
  import opened Util
  import opened Scanner

  // ---------------------------------------------------------------------
  // Chunks

  /** The bytes of a sequence of chunks, one after the other. */
  function Concat(cs: seq<seq<Byte>>): seq<Byte>
  {
    if cs == [] then [] else cs[0] + Concat(cs[1..])
  }

  /** The reading loop stops at the first place it may: at least `min`
      bytes read and the last one LF, or the end of the input. */
  lemma {:induction false} ReadEndFirst(input: seq<Byte>, pos: nat, k: nat, min: nat)
    requires pos < k <= |input|
    ensures var e := ReadEnd(input, pos, k, min);
      && (e == |input| || BreakAt(input, pos, e, min))
      && forall j :: k <= j < e ==> !BreakAt(input, pos, j, min)
    decreases |input| - k
  {
    if !(BreakAt(input, pos, k, min) || k == |input|) {
      ReadEndFirst(input, pos, k + 1, min);
    }
  }

  /** `readsome` reads at least one byte while any is left, and returns
      the shortest piece of at least `min` bytes that ends with LF, or the
      rest of the input. A chunk that is not the last is of that kind. */
  lemma ChunkShape(input: seq<Byte>, pos: nat, min: nat)
    requires pos <= |input|
    ensures var e := ChunkEnd(input, pos, min);
      && (pos < |input| ==> pos < e)
      && (e == |input| || BreakAt(input, pos, e, min))
      && (forall j :: pos < j < e ==> !BreakAt(input, pos, j, min))
      && (!LastChunk(input, pos, min) ==> e - pos >= min && pos < e && input[e - 1] == LF)
  {
    if pos < |input| {
      ReadEndFirst(input, pos, pos + 1, min);
    }
  }

  /** The chunks, one after the other, are the input. */
  lemma {:induction false} ChunksConcat(input: seq<Byte>, pos: nat, min: nat)
    requires pos <= |input|
    ensures Concat(Chunks(input, pos, min)) == input[pos..]
    decreases |input| - pos
  {
    var e := ChunkEnd(input, pos, min);
    var cs := Chunks(input, pos, min);
    if LastChunk(input, pos, min) {
      ChunkShape(input, pos, min);
      assert cs[1..] == [];
      assert e == |input|;
    } else {
      ChunksConcat(input, e, min);
      assert cs[1..] == Chunks(input, e, min);
      assert input[pos..] == input[pos..e] + input[e..];
    }
  }

  /** Every chunk but the last has at least `min` bytes and ends with LF. */
  lemma {:induction false} ChunksAligned(input: seq<Byte>, pos: nat, min: nat, i: nat)
    requires pos <= |input|
    requires i + 1 < |Chunks(input, pos, min)|
    ensures var c := Chunks(input, pos, min)[i];
      |c| >= min && |c| >= 1 && c[|c| - 1] == LF
    decreases |input| - pos
  {
    var e := ChunkEnd(input, pos, min);
    ChunkShape(input, pos, min);
    if i > 0 {
      ChunksAligned(input, e, min, i - 1);
      assert Chunks(input, pos, min)[i] == Chunks(input, e, min)[i - 1];
    }
  }

  // ---------------------------------------------------------------------
  // Byte-order marks

  /** The first chunk carries a rejected mark exactly when the input
      begins with one: a chunk shorter than four bytes ends in LF, which
      no mark contains. */
  lemma FirstChunkBom(input: seq<Byte>, min: nat)
    ensures RejectedBom(input[..ChunkEnd(input, 0, min)]) == RejectedBom(input)
  {
    var e := ChunkEnd(input, 0, min);
    ChunkShape(input, 0, min);
    var c := input[..e];
    if e < 4 && e < |input| {
      assert input[e - 1] == LF;
      assert c[..e] == input[..e];
    }
  }

  /** A rejected mark stops the processor with one error and no output. */
  lemma BomRejected(input: seq<Byte>, tag: seq<Byte>, min: nat)
    requires RejectedBom(input).Some?
    ensures Processed(input, tag, min) == (Errors(1), [])
  {
    FirstChunkBom(input, min);
  }

  /** The UTF-32 marks are looked for before the UTF-16 marks that are
      their prefixes; a UTF-8 mark is not rejected. */
  lemma BomOrder(rest: seq<Byte>)
    ensures RejectedBom([0xFF, 0xFE, 0x00, 0x00] + rest) == Some(Utf32Le)
    ensures RejectedBom([0xFF, 0xFE] + rest) == Some(Utf16Le) || RejectedBom([0xFF, 0xFE] + rest) == Some(Utf32Le)
    ensures RejectedBom([0xEF, 0xBB, 0xBF] + rest) == None
  {
  }

  // ---------------------------------------------------------------------
  // One line

  /** Blanks hold no LF, so skipping them does not move the line end. */
  lemma {:induction false} LineEndAfterSpaces(s: seq<Byte>, p: nat)
    requires p <= |s|
    ensures LineEnd(s, SpacesEnd(s, p)) == LineEnd(s, p)
    decreases |s| - p
  {
    if p < |s| && IsSpace(s[p]) {
      LineEndAfterSpaces(s, p + 1);
    }
  }

  /** Outside any scope a line that is not a directive is written byte
      for byte, its LF included, and the state does not change. */
  lemma PlainLineCopied(s: seq<Byte>, p: nat, tag: seq<Byte>, st: ScanState)
    requires p < |s| && !IsDirective(s, p, tag) && !st.rm && st.rmn == 0
    ensures LineStep(s, p, tag, st) == LineResult(s[p..NextLine(s, p)], NextLine(s, p), st)
  {
    var a := SpacesEnd(s, p);
    LineEndAfterSpaces(s, p);
    assert s[p..a] + s[a..NextLine(s, a)] == s[p..NextLine(s, p)];
  }

  /** While a block is open every line is dropped; only an `endrm`
      directive with no `rmn` pending closes the block. */
  lemma BlockDropsLines(s: seq<Byte>, p: nat, tag: seq<Byte>, st: ScanState)
    requires p < |s| && st.rm
    ensures LineStep(s, p, tag, st).out == []
    ensures !LineStep(s, p, tag, st).st.rm <==>
      IsDirective(s, p, tag) && Keyword(s, p, tag) == KwEndRm && st.rmn == 0
  {
  }

  /** `rm` opens a block and drops its own line; only text after the
      keyword is warned about. */
  lemma RmOpensBlock(s: seq<Byte>, p: nat, tag: seq<Byte>, st: ScanState)
    requires p < |s| && IsDirective(s, p, tag) && Keyword(s, p, tag) == KwRm
    requires !st.rm && st.rmn == 0
    ensures var lr := LineStep(s, p, tag, st);
      var d := TokenEnd(s, KeywordStart(s, p, tag));
      && lr.out == [] && lr.st.rm && lr.st.rmn == 0
      && lr.st.r == (if d < |s| && s[d] != LF then OneMoreWarning(st.r) else st.r)
  {
  }

  /** `endrm` closes an open block and its line is dropped. */
  lemma EndRmClosesBlock(s: seq<Byte>, p: nat, tag: seq<Byte>, st: ScanState)
    requires p < |s| && IsDirective(s, p, tag) && Keyword(s, p, tag) == KwEndRm
    requires st.rm && st.rmn == 0
    ensures var lr := LineStep(s, p, tag, st);
      var d := TokenEnd(s, KeywordStart(s, p, tag));
      && lr.out == [] && !lr.st.rm && lr.st.rmn == 0
      && lr.st.r == (if d < |s| && s[d] != LF then OneMoreWarning(st.r) else st.r)
  {
  }

  /** An `endrm` with no open block is one error; the line is written
      without its tag and keyword. */
  lemma EndRmUnexpected(s: seq<Byte>, p: nat, tag: seq<Byte>, st: ScanState)
    requires p < |s| && IsDirective(s, p, tag) && Keyword(s, p, tag) == KwEndRm
    requires !st.rm && st.rmn == 0
    ensures var lr := LineStep(s, p, tag, st);
      var d := TokenEnd(s, KeywordStart(s, p, tag));
      && lr.out == s[p..SpacesEnd(s, p)] + s[d..NextLine(s, d)]
      && !lr.st.rm && lr.st.rmn == 0
      && lr.st.r.err == st.r.err + 1
  {
  }

  /** A word that is no keyword is one error; the line is written without
      the tag and the word, and the scope does not change. */
  lemma UnknownKeyword(s: seq<Byte>, p: nat, tag: seq<Byte>, st: ScanState)
    requires p < |s| && IsDirective(s, p, tag) && GetKW(Keyword(s, p, tag)) == Unknown
    requires !st.rm && st.rmn == 0
    ensures var lr := LineStep(s, p, tag, st);
      var d := TokenEnd(s, KeywordStart(s, p, tag));
      && lr.out == s[p..SpacesEnd(s, p)] + s[d..NextLine(s, d)]
      && !lr.st.rm && lr.st.rmn == 0
      && lr.st.r.err == st.r.err + 1
  {
  }

  /** `ins` removes the tag, the keyword and exactly one byte after it,
      whatever that byte is, and adds no diagnostic. */
  lemma InsRemovesTag(s: seq<Byte>, p: nat, tag: seq<Byte>, st: ScanState)
    requires p < |s| && IsDirective(s, p, tag) && Keyword(s, p, tag) == KwIns
    requires !st.rm && st.rmn == 0
    ensures var lr := LineStep(s, p, tag, st);
      var d := TokenEnd(s, KeywordStart(s, p, tag));
      var d' := if d < |s| then d + 1 else d;
      lr == LineResult(s[p..SpacesEnd(s, p)] + s[d'..NextLine(s, d')], NextLine(s, d'), st)
  {
  }

  /** `rmn` with a single digit `n` drops its own line and leaves `n`
      lines to drop. */
  lemma RmnDigit(s: seq<Byte>, p: nat, tag: seq<Byte>, st: ScanState)
    requires p < |s| && IsDirective(s, p, tag) && Keyword(s, p, tag) == KwRmn
    requires !st.rm && st.rmn == 0
    requires var e := SpacesEnd(s, TokenEnd(s, KeywordStart(s, p, tag)));
      TokenEnd(s, e) == e + 1 && 0x30 <= s[e] <= 0x39
    ensures var lr := LineStep(s, p, tag, st);
      var e := SpacesEnd(s, TokenEnd(s, KeywordStart(s, p, tag)));
      && lr.out == [] && !lr.st.rm && lr.st.rmn == s[e] - 0x30
      && lr.st.r.err == st.r.err
  {
  }

  /** `rmn` with a missing argument, or one that is not a single digit,
      is one error and removes nothing. */
  lemma RmnBadArgument(s: seq<Byte>, p: nat, tag: seq<Byte>, st: ScanState)
    requires p < |s| && IsDirective(s, p, tag) && Keyword(s, p, tag) == KwRmn
    requires !st.rm && st.rmn == 0
    requires var e := SpacesEnd(s, TokenEnd(s, KeywordStart(s, p, tag)));
      !(TokenEnd(s, e) == e + 1 && 0x30 <= s[e] <= 0x39)
    ensures var lr := LineStep(s, p, tag, st);
      var f := TokenEnd(s, SpacesEnd(s, TokenEnd(s, KeywordStart(s, p, tag))));
      && lr.out == s[p..SpacesEnd(s, p)] + s[f..NextLine(s, f)]
      && !lr.st.rm && lr.st.rmn == 0
      && lr.st.r.err == st.r.err + 1
  {
  }

  /** While `rmn` lines are pending each line is dropped and counted; a
      directive among them is only warned about. */
  lemma RmnCountsDown(s: seq<Byte>, p: nat, tag: seq<Byte>, st: ScanState)
    requires p < |s| && st.rmn > 0
    ensures var lr := LineStep(s, p, tag, st);
      && lr.out == [] && lr.st.rmn == st.rmn - 1 && lr.st.rm == st.rm
      && lr.st.r == (if IsDirective(s, p, tag) then OneMoreWarning(st.r) else st.r)
  {
  }

  /** A directive inside a scope is not interpreted: one warning, the line
      dropped, and only the line count moves. */
  lemma ScopedDirectiveIgnored(s: seq<Byte>, p: nat, tag: seq<Byte>, st: ScanState)
    requires p < |s| && IsDirective(s, p, tag) && InScope(st, GetKW(Keyword(s, p, tag)))
    ensures var lr := LineStep(s, p, tag, st);
      lr.out == [] && lr.st == ScanState(st.rm, if st.rmn > 0 then st.rmn - 1 else 0, OneMoreWarning(st.r))
  {
  }

  // ---------------------------------------------------------------------
  // Whole blocks

  /** Where an open `rm` block ends: the line loop run from `p` until the
      block is closed, or to the end of the chunk. */
  function BlockEnd(s: seq<Byte>, p: nat, tag: seq<Byte>, st: ScanState): (e: (nat, ScanState))
    requires p <= |s|
    ensures p <= e.0 <= |s|
    decreases |s| - p
  {
    if p == |s| || !st.rm then (p, st)
    else
      var lr := LineStep(s, p, tag, st);
      BlockEnd(s, lr.next, tag, lr.st)
  }

  /** One line inside an open block: nothing written, no error, and no
      `rmn` count started. */
  lemma BlockLine(s: seq<Byte>, p: nat, tag: seq<Byte>, st: ScanState)
    requires p < |s| && st.rm && st.rmn == 0
    ensures var lr := LineStep(s, p, tag, st);
      lr.out == [] && lr.st.rmn == 0 && lr.st.r.err == st.r.err
  {
    BlockDropsLines(s, p, tag, st);
  }

  /** Every line of an `rm` block, the `endrm` line included, is dropped:
      the scan from inside the block writes what the scan from the end of
      the block writes. Inside the block no error arises and no `rmn`
      count starts; a block that is never closed runs to the end of the
      chunk. */
  lemma {:induction false} BlockDropped(s: seq<Byte>, p: nat, tag: seq<Byte>, st: ScanState)
    requires p <= |s| && st.rm && st.rmn == 0
    ensures var e := BlockEnd(s, p, tag, st);
      && ScanFrom(s, p, tag, st) == ScanFrom(s, e.0, tag, e.1)
      && e.1.rmn == 0 && e.1.r.err == st.r.err
      && (e.1.rm ==> e.0 == |s|)
    decreases |s| - p
  {
    if p < |s| {
      var lr := LineStep(s, p, tag, st);
      BlockLine(s, p, tag, st);
      if lr.st.rm {
        BlockDropped(s, lr.next, tag, lr.st);
      }
    }
  }

  /** Where the lines removed by `rmn` end: the line loop run from `p`
      until the count is used up, or to the end of the chunk. */
  function RmnEnd(s: seq<Byte>, p: nat, tag: seq<Byte>, st: ScanState): (e: (nat, ScanState))
    requires p <= |s|
    ensures p <= e.0 <= |s|
    decreases |s| - p
  {
    if p == |s| || st.rmn == 0 then (p, st)
    else
      var lr := LineStep(s, p, tag, st);
      RmnEnd(s, lr.next, tag, lr.st)
  }

  /** The lines an `rmn` count covers are all dropped: the scan writes
      what the scan after them writes. They leave the block state and the
      errors alone; a count that outlasts the chunk is carried on. */
  lemma {:induction false} RmnDropped(s: seq<Byte>, p: nat, tag: seq<Byte>, st: ScanState)
    requires p <= |s|
    ensures var e := RmnEnd(s, p, tag, st);
      && ScanFrom(s, p, tag, st) == ScanFrom(s, e.0, tag, e.1)
      && e.1.rm == st.rm && e.1.r.err == st.r.err
      && (e.1.rmn > 0 ==> e.0 == |s|)
    decreases |s| - p
  {
    if p < |s| && st.rmn > 0 {
      var lr := LineStep(s, p, tag, st);
      RmnCountsDown(s, p, tag, st);
      RmnDropped(s, lr.next, tag, lr.st);
    }
  }

  // ---------------------------------------------------------------------
  // Inputs without directives

  /** The tag occurs in `s` at `i`. */
  predicate TagAt(s: seq<Byte>, i: nat, tag: seq<Byte>)
  {
    i + |tag| <= |s| && s[i..i + |tag|] == tag
  }

  /** The tag occurs nowhere in `s`. */
  predicate NoTag(s: seq<Byte>, tag: seq<Byte>)
  {
    forall i: nat :: i <= |s| ==> !TagAt(s, i, tag)
  }

  lemma NoTagInPiece(s: seq<Byte>, lo: nat, hi: nat, tag: seq<Byte>)
    requires lo <= hi <= |s| && NoTag(s, tag)
    ensures NoTag(s[lo..hi], tag)
  {
    forall i: nat | i <= hi - lo
      ensures !TagAt(s[lo..hi], i, tag)
    {
      assert !TagAt(s, lo + i, tag);
      if i + |tag| <= hi - lo {
        var inPiece, inWhole := s[lo..hi][i..i + |tag|], s[lo + i..lo + i + |tag|];
        forall k | 0 <= k < |tag|
          ensures inPiece[k] == inWhole[k]
        {
        }
        assert inPiece == inWhole;
      }
    }
  }

  /** A chunk without the tag is written unchanged, with no diagnostic. */
  lemma {:induction false} ScanWithoutTag(s: seq<Byte>, p: nat, tag: seq<Byte>, r: Result)
    requires p <= |s| && NoTag(s, tag)
    ensures ScanFrom(s, p, tag, ScanState(false, 0, r)) == Scanned(s[p..], ScanState(false, 0, r))
    decreases |s| - p
  {
    if p < |s| {
      var st := ScanState(false, 0, r);
      assert !TagAt(s, SpacesEnd(s, p), tag);
      PlainLineCopied(s, p, tag, st);
      var n := NextLine(s, p);
      ScanWithoutTag(s, n, tag, r);
      SliceSplit(s, p, n);
    }
  }

  lemma {:induction false} ChunksWithoutTag(input: seq<Byte>, pos: nat, tag: seq<Byte>, min: nat, r: Result)
    requires pos <= |input| && NoTag(input, tag)
    ensures ScanChunks(Chunks(input, pos, min), tag, ScanState(false, 0, r)) == Scanned(input[pos..], ScanState(false, 0, r))
    decreases |input| - pos
  {
    var e := ChunkEnd(input, pos, min);
    var c := input[pos..e];
    NoTagInPiece(input, pos, e, tag);
    ScanWithoutTag(c, 0, tag, r);
    assert c[0..] == c;
    ChunkStep(input, pos, min);
    if LastChunk(input, pos, min) {
      ChunkShape(input, pos, min);
      assert c == input[pos..];
    } else {
      ChunksWithoutTag(input, e, tag, min, r);
      SliceSplit(input, pos, e);
    }
  }

  /** An input that carries no rejected mark and no tag is written
      unchanged, with no error and no warning. */
  lemma UntaggedInputUnchanged(input: seq<Byte>, tag: seq<Byte>, min: nat)
    requires RejectedBom(input).None? && NoTag(input, tag)
    ensures Processed(input, tag, min) == (Zero, input)
  {
    FirstChunkBom(input, min);
    ChunksWithoutTag(input, 0, tag, min, Zero);
    assert input[0..] == input;
  }
}
