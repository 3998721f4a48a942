/** Line-ending detection and conversion (`detectLineEnding` and the
    five-argument `convertLineEnding`, src/middleware/util.cpp:241-424).

    A file is read as an `InStream`: its bytes, and whether the read after the
    last byte fails with an I/O error instead of reporting end of file. A file
    that cannot be opened reads like `InStream([], true)`: its first read fails. */
module LineEndings {
  import opened Util

  datatype LineEnding = Error | LF_ | CR_ | CRLF_

  datatype InStream = InStream(data: seq<Byte>, failsAtEnd: bool)

  /** Bytes written for one line break in the given convention. */
  function BreakBytes(e: LineEnding): seq<Byte>
  {
    match e
    case LF_ => [LF]
    case CR_ => [CR]
    case CRLF_ => [CR, LF]
    case Error => []
  }

  predicate NoBreakByte(s: seq<Byte>)
  {
    forall k :: 0 <= k < |s| ==> s[k] != CR && s[k] != LF
  }

  predicate NoCR(s: seq<Byte>)
  {
    forall k :: 0 <= k < |s| ==> s[k] != CR
  }

  predicate NoLF(s: seq<Byte>)
  {
    forall k :: 0 <= k < |s| ==> s[k] != LF
  }

  // ---------------------------------------------------------------------
  // Detection

  /** The detection loop from byte `i` on, `prev` being the byte before it
      (0x00 before the first byte). */
  function DetectFrom(s: InStream, i: nat, prev: Byte): LineEnding
    requires i <= |s.data|
    decreases |s.data| - i
  {
    if i < |s.data| then
      var cur := s.data[i];
      if prev != CR && cur == LF then LF_
      else if prev == CR && cur != LF then CR_
      else if prev == CR && cur == LF then CRLF_
      else DetectFrom(s, i + 1, cur)
    else if s.failsAtEnd then Error
    else if prev == CR then CR_
    else LF_
  }

  function Detect(s: InStream): LineEnding
  {
    DetectFrom(s, 0, 0)
  }

  /** `detectLineEnding`: reads byte pairs through a two-byte window. */
  method DetectLineEnding(s: InStream) returns (le: LineEnding)
    ensures le == Detect(s)
  {
    le := Error;
    var buffer0: Byte := 0;
    var i := 0;
    var searching := true;
    while searching
      invariant 0 <= i <= |s.data|
      invariant searching ==> DetectFrom(s, i, buffer0) == Detect(s)
      invariant !searching ==> le == Detect(s)
      decreases |s.data| - i, searching
    {
      if i < |s.data| {
        var buffer1 := s.data[i];
        i := i + 1;
        if buffer0 != CR && buffer1 == LF {
          searching := false;
          le := LF_;
        } else if buffer0 == CR && buffer1 != LF {
          searching := false;
          le := CR_;
        } else if buffer0 == CR && buffer1 == LF {
          searching := false;
          le := CRLF_;
        }
        buffer0 := buffer1;
      } else if !s.failsAtEnd {
        searching := false;
        le := if buffer0 == CR then CR_ else LF_;
      } else {
        searching := false;
        le := Error;
      }
    }
  }

  /** Bytes that are neither CR nor LF never decide: the scan moves past them. */
  lemma {:induction false} DetectSkips(s: InStream, i: nat, j: nat, prev: Byte)
    requires i <= j <= |s.data|
    requires prev != CR
    requires NoBreakByte(s.data[i..j])
    ensures DetectFrom(s, i, prev) == DetectFrom(s, j, if j > i then s.data[j - 1] else prev)
    decreases j - i
  {
    if i < j {
      assert s.data[i] == s.data[i..j][0];
      assert s.data[i + 1..j] == s.data[i..j][1..];
      DetectSkips(s, i + 1, j, s.data[i]);
    }
  }

  /** An LF with neither CR nor LF before it: the file is LF. */
  lemma DetectFirstLF(pre: seq<Byte>, post: seq<Byte>, fails: bool)
    requires NoBreakByte(pre)
    ensures Detect(InStream(pre + [LF] + post, fails)) == LF_
  {
    var s := InStream(pre + [LF] + post, fails);
    assert s.data[0..|pre|] == pre;
    DetectSkips(s, 0, |pre|, 0);
  }

  /** A CR LF pair with neither byte before it: the file is CRLF. */
  lemma DetectFirstCRLF(pre: seq<Byte>, post: seq<Byte>, fails: bool)
    requires NoBreakByte(pre)
    ensures Detect(InStream(pre + [CR, LF] + post, fails)) == CRLF_
  {
    var s := InStream(pre + [CR, LF] + post, fails);
    assert s.data[0..|pre|] == pre;
    DetectSkips(s, 0, |pre|, 0);
  }

  /** A CR followed by another byte, with neither CR nor LF before: CR. */
  lemma DetectFirstCR(pre: seq<Byte>, b: Byte, post: seq<Byte>, fails: bool)
    requires NoBreakByte(pre) && b != LF
    ensures Detect(InStream(pre + [CR, b] + post, fails)) == CR_
  {
    var s := InStream(pre + [CR, b] + post, fails);
    assert s.data[0..|pre|] == pre;
    DetectSkips(s, 0, |pre|, 0);
  }

  /** A CR as the very last byte, with no break before it: CR when the file
      ends normally, `error` when the read after it fails. */
  lemma DetectLastCR(pre: seq<Byte>, fails: bool)
    requires NoBreakByte(pre)
    ensures Detect(InStream(pre + [CR], fails)) == if fails then Error else CR_
  {
    var s := InStream(pre + [CR], fails);
    assert s.data[0..|pre|] == pre;
    DetectSkips(s, 0, |pre|, 0);
  }

  /** No CR and no LF at all: LF by default (an empty file included), or
      `error` when the read after the data fails. */
  lemma DetectNoBreak(d: seq<Byte>, fails: bool)
    requires NoBreakByte(d)
    ensures Detect(InStream(d, fails)) == if fails then Error else LF_
  {
    var s := InStream(d, fails);
    assert s.data[0..|d|] == d;
    DetectSkips(s, 0, |d|, 0);
  }

  /** `error` is only ever the outcome of a failing read. */
  lemma {:induction false} DetectErrorOnlyOnFailure(s: InStream, i: nat, prev: Byte)
    requires i <= |s.data|
    ensures DetectFrom(s, i, prev) == Error ==> s.failsAtEnd
    decreases |s.data| - i
  {
    if i < |s.data| {
      DetectErrorOnlyOnFailure(s, i + 1, s.data[i]);
    }
  }

  // ---------------------------------------------------------------------
  // Conversion

  /** Output bytes written and the return code of `convertLineEnding`. */
  datatype Converted = Converted(out: seq<Byte>, code: int)

  function Prepend(bytes: seq<Byte>, c: Converted): Converted
  {
    Converted(bytes + c.out, c.code)
  }

  lemma PrependTwice(a: seq<Byte>, b: seq<Byte>, c: Converted)
    ensures Prepend(a, Prepend(b, c)) == Prepend(a + b, c)
  {
    assert a + (b + c.out) == (a + b) + c.out;
  }

  /** LF or CR source: every `brk` byte is a break. */
  function ConvertSingle(d: seq<Byte>, brk: Byte, to: LineEnding): Converted
  {
    if d == [] then Converted([], 0)
    else if d[0] == brk then
      if to == Error then Converted([], 2)
      else Prepend(BreakBytes(to), ConvertSingle(d[1..], brk, to))
    else Prepend([d[0]], ConvertSingle(d[1..], brk, to))
  }

  /** CRLF source: only a CR read together with a following LF is a break. */
  function ConvertPairs(d: seq<Byte>, fails: bool, to: LineEnding): Converted
  {
    if d == [] then Converted([], 0)
    else if d[0] != CR then Prepend([d[0]], ConvertPairs(d[1..], fails, to))
    else if |d| == 1 then
      if fails then Converted([], 3) else Converted([CR], 0)
    else if d[1] == LF then
      if to == Error then Converted([], 2)
      else Prepend(BreakBytes(to), ConvertPairs(d[2..], fails, to))
    else Prepend([CR, d[1]], ConvertPairs(d[2..], fails, to))
  }

  function Convert(s: InStream, from: LineEnding, to: LineEnding): Converted
  {
    match from
    case CRLF_ => ConvertPairs(s.data, s.failsAtEnd, to)
    case LF_ => ConvertSingle(s.data, LF, to)
    case CR_ => ConvertSingle(s.data, CR, to)
    case Error => Converted([], 1)
  }

  /** `convertLineEnding(inf, infLineEnding, outf, outfLineEnding, errMsg)`:
      reads the input byte by byte and writes the output byte by byte. */
  method ConvertLineEnding(s: InStream, from: LineEnding, to: LineEnding)
    returns (out: seq<Byte>, result: int)
    ensures Converted(out, result) == Convert(s, from, to)
  {
    if from == CRLF_ {
      out, result := ConvertCrlfLoop(s, to);
    } else if from == LF_ || from == CR_ {
      out, result := ConvertSingleLoop(s, if from == LF_ then LF else CR, to);
    } else {
      out, result := [], 1;
    }
  }

  /** The loop for a CRLF source: a CR is read together with the next byte. */
  method ConvertCrlfLoop(s: InStream, to: LineEnding) returns (out: seq<Byte>, result: int)
    ensures Converted(out, result) == ConvertPairs(s.data, s.failsAtEnd, to)
  {
    result := 0;
    out := [];
    var d := s.data;
    var i := 0;
    var proc := true;
    ghost var total := ConvertPairs(d, s.failsAtEnd, to);
    assert d[0..] == d;
    while proc
      invariant 0 <= i <= |d|
      invariant proc ==> result == 0 && total == Prepend(out, ConvertPairs(d[i..], s.failsAtEnd, to))
      invariant !proc ==> total == Converted(out, result)
      decreases |d| - i, proc
    {
      if i < |d| {
        var c0 := d[i];
        ghost var rest := d[i..];
        i := i + 1;
        if c0 == CR {
          if i < |d| {
            var c1 := d[i];
            i := i + 1;
            assert rest[2..] == d[i..];
            if c1 == LF {
              if to != Error {
                PrependTwice(out, BreakBytes(to), ConvertPairs(d[i..], s.failsAtEnd, to));
                out := out + BreakBytes(to);
              } else {
                result := 2;
                proc := false;
              }
            } else {
              PrependTwice(out, [c0, c1], ConvertPairs(d[i..], s.failsAtEnd, to));
              out := out + [c0, c1];
            }
          } else if !s.failsAtEnd {
            out := out + [c0];
            proc := false;
          } else {
            result := 3;
            proc := false;
          }
        } else {
          assert rest[1..] == d[i..];
          PrependTwice(out, [c0], ConvertPairs(d[i..], s.failsAtEnd, to));
          out := out + [c0];
        }
      } else {
        proc := false;
      }
    }
  }

  /** The loop for an LF or CR source: every `brk` byte is replaced. */
  method ConvertSingleLoop(s: InStream, brk: Byte, to: LineEnding) returns (out: seq<Byte>, result: int)
    ensures Converted(out, result) == ConvertSingle(s.data, brk, to)
  {
    result := 0;
    out := [];
    var d := s.data;
    var i := 0;
    var proc := true;
    ghost var total := ConvertSingle(d, brk, to);
    assert d[0..] == d;
    while proc
      invariant 0 <= i <= |d|
      invariant proc ==> result == 0 && total == Prepend(out, ConvertSingle(d[i..], brk, to))
      invariant !proc ==> total == Converted(out, result)
      decreases |d| - i, proc
    {
      if i < |d| {
        var c := d[i];
        assert d[i..][1..] == d[i + 1..];
        i := i + 1;
        if c == brk {
          if to != Error {
            PrependTwice(out, BreakBytes(to), ConvertSingle(d[i..], brk, to));
            out := out + BreakBytes(to);
          } else {
            result := 2;
            proc := false;
          }
        } else {
          PrependTwice(out, [c], ConvertSingle(d[i..], brk, to));
          out := out + [c];
        }
      } else {
        proc := false;
      }
    }
  }

  /** Return codes: 1 exactly for an invalid source ending; 2 only for an
      invalid target; 3 only for a CRLF source whose read fails; and a valid
      source and target on a stream without read failure always give 0. */
  lemma ConvertCodes(s: InStream, from: LineEnding, to: LineEnding)
    ensures Convert(s, from, to).code in {0, 1, 2, 3}
    ensures Convert(s, from, to).code == 1 <==> from == Error
    ensures Convert(s, from, to).code == 2 ==> to == Error
    ensures Convert(s, from, to).code == 3 ==> from == CRLF_ && s.failsAtEnd
    ensures from != Error && to != Error && !s.failsAtEnd ==> Convert(s, from, to).code == 0
  {
    match from
    case Error =>
    case LF_ => SingleCodes(s.data, LF, to);
    case CR_ => SingleCodes(s.data, CR, to);
    case CRLF_ => PairsCodes(s.data, s.failsAtEnd, to);
  }

  lemma {:induction false} SingleCodes(d: seq<Byte>, brk: Byte, to: LineEnding)
    ensures ConvertSingle(d, brk, to).code in {0, 2}
    ensures ConvertSingle(d, brk, to).code == 2 <==> to == Error && brk in d
  {
    if d != [] {
      SingleCodes(d[1..], brk, to);
      assert brk in d <==> d[0] == brk || brk in d[1..] by {
        assert d == [d[0]] + d[1..];
      }
    }
  }

  lemma {:induction false} PairsCodes(d: seq<Byte>, fails: bool, to: LineEnding)
    ensures ConvertPairs(d, fails, to).code in {0, 2, 3}
    ensures ConvertPairs(d, fails, to).code == 2 ==> to == Error
    ensures ConvertPairs(d, fails, to).code == 3 ==> fails
    ensures to != Error && !fails ==> ConvertPairs(d, fails, to).code == 0
  {
    if d != [] {
      if d[0] != CR {
        PairsCodes(d[1..], fails, to);
      } else if |d| > 1 {
        PairsCodes(d[2..], fails, to);
      }
    }
  }

  /** With an LF or CR source and no such byte in the data, nothing is
      replaced, whatever the target. */
  lemma {:induction false} SingleWithoutBreak(d: seq<Byte>, brk: Byte, to: LineEnding)
    requires brk !in d
    ensures ConvertSingle(d, brk, to) == Converted(d, 0)
  {
    if d != [] {
      assert brk !in d[1..];
      SingleWithoutBreak(d[1..], brk, to);
      assert d == [d[0]] + d[1..];
    }
  }

  /** With a CRLF source and no CR in the data, nothing is replaced. */
  lemma {:induction false} PairsWithoutCR(d: seq<Byte>, fails: bool, to: LineEnding)
    requires NoCR(d)
    ensures ConvertPairs(d, fails, to) == Converted(d, 0)
  {
    if d != [] {
      PairsWithoutCR(d[1..], fails, to);
      assert d == [d[0]] + d[1..];
    }
  }

  /** Converting to the ending a file already has changes nothing (for a
      CRLF source as long as reading does not fail). */
  lemma {:induction false} ConvertToSameIsIdentity(d: seq<Byte>, fails: bool, e: LineEnding)
    requires e != Error
    requires e == CRLF_ ==> !fails
    ensures Convert(InStream(d, fails), e, e) == Converted(d, 0)
  {
    match e
    case LF_ => SingleSameIsIdentity(d, LF, LF_);
    case CR_ => SingleSameIsIdentity(d, CR, CR_);
    case CRLF_ => PairsSameIsIdentity(d);
  }

  lemma {:induction false} SingleSameIsIdentity(d: seq<Byte>, brk: Byte, e: LineEnding)
    requires BreakBytes(e) == [brk]
    ensures ConvertSingle(d, brk, e) == Converted(d, 0)
  {
    if d != [] {
      SingleSameIsIdentity(d[1..], brk, e);
      assert d == [d[0]] + d[1..];
    }
  }

  lemma {:induction false} PairsSameIsIdentity(d: seq<Byte>)
    ensures ConvertPairs(d, false, CRLF_) == Converted(d, 0)
  {
    if d != [] {
      if d[0] != CR {
        PairsSameIsIdentity(d[1..]);
        assert d == [d[0]] + d[1..];
      } else if |d| > 1 {
        PairsSameIsIdentity(d[2..]);
        assert d == [d[0], d[1]] + d[2..];
      }
    }
  }

  /** LF to CRLF and back returns the original bytes when they hold no CR. */
  lemma {:induction false} LfCrlfRoundTrip(d: seq<Byte>, fails: bool)
    requires NoCR(d)
    ensures Convert(InStream(d, fails), LF_, CRLF_).code == 0
    ensures Convert(InStream(Convert(InStream(d, fails), LF_, CRLF_).out, false), CRLF_, LF_) == Converted(d, 0)
  {
    if d != [] {
      LfCrlfRoundTrip(d[1..], fails);
      var rest := ConvertSingle(d[1..], LF, CRLF_).out;
      if d[0] == LF {
        assert ([CR, LF] + rest)[2..] == rest;
      } else {
        assert ([d[0]] + rest)[1..] == rest;
      }
      assert d == [d[0]] + d[1..];
    }
  }

  /** LF to CR and back returns the original bytes when they hold no CR. */
  lemma {:induction false} LfCrRoundTrip(d: seq<Byte>, fails: bool)
    requires NoCR(d)
    ensures Convert(InStream(d, fails), LF_, CR_).code == 0
    ensures Convert(InStream(Convert(InStream(d, fails), LF_, CR_).out, false), CR_, LF_) == Converted(d, 0)
  {
    if d != [] {
      LfCrRoundTrip(d[1..], fails);
      var rest := ConvertSingle(d[1..], LF, CR_).out;
      assert ([if d[0] == LF then CR else d[0]] + rest)[1..] == rest;
      assert d == [d[0]] + d[1..];
    }
  }

  /** Every CR followed by LF and every LF preceded by CR. */
  predicate StrictCRLF(d: seq<Byte>)
  {
    && (forall k :: 0 <= k < |d| && d[k] == CR ==> k + 1 < |d| && d[k + 1] == LF)
    && (forall k :: 0 <= k < |d| && d[k] == LF ==> k > 0 && d[k - 1] == CR)
  }

  /** A file whose breaks are all CR LF pairs survives CRLF to LF and back. */
  lemma {:induction false} CrlfLfRoundTrip(d: seq<Byte>, fails: bool)
    requires StrictCRLF(d)
    ensures Convert(InStream(d, fails), CRLF_, LF_).code == 0
    ensures Convert(InStream(Convert(InStream(d, fails), CRLF_, LF_).out, false), LF_, CRLF_) == Converted(d, 0)
  {
    if d != [] {
      if d[0] == CR {
        assert d[1] == LF;
        assert StrictCRLF(d[2..]) by {
          forall k | 0 <= k < |d[2..]| && d[2..][k] == LF ensures k > 0 && d[2..][k - 1] == CR {
            assert d[k + 2] == LF;
          }
        }
        CrlfLfRoundTrip(d[2..], fails);
        assert d == [CR, LF] + d[2..];
      } else {
        assert d[0] != LF;
        assert StrictCRLF(d[1..]) by {
          forall k | 0 <= k < |d[1..]| && d[1..][k] == LF ensures k > 0 && d[1..][k - 1] == CR {
            assert d[k + 1] == LF;
          }
        }
        CrlfLfRoundTrip(d[1..], fails);
        assert d == [d[0]] + d[1..];
      }
    }
  }

  /** A CR file with no LF byte survives CR to LF and back. */
  lemma {:induction false} CrLfRoundTrip(d: seq<Byte>, fails: bool)
    requires NoLF(d)
    ensures Convert(InStream(d, fails), CR_, LF_).code == 0
    ensures Convert(InStream(Convert(InStream(d, fails), CR_, LF_).out, false), LF_, CR_) == Converted(d, 0)
  {
    if d != [] {
      CrLfRoundTrip(d[1..], fails);
      var rest := ConvertSingle(d[1..], CR, LF_).out;
      assert ([if d[0] == CR then LF else d[0]] + rest)[1..] == rest;
      assert d == [d[0]] + d[1..];
    }
  }
}
