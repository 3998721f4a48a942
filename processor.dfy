/** `processJob` and `processJobs`, src/application/processor.cpp:490-654:
    the line-ending normalisation around the scanner, the removal of the
    output of a failed job, the `Werror` rule and the sum over all jobs.

    The file system is described, per job, by an `Env`: whether the input
    exists and can be opened (and its bytes), whether the output names the
    same file as the input, and how many of `rmOut`'s removals fail. */
module Processor {
  import opened Util
  import opened LineEndings
  import opened Scanner
  import Jobs

  /** `pbSizeMin` of a release build (processor.cpp:119). */
  const PbSizeMin: nat := 100 * 1024

  /** The input file of a job. */
  datatype Source = Missing | Unopenable | Readable(stream: InStream)

  /** What becomes of the output file. */
  datatype OutFile = Untouched | Removed | Written(data: seq<Byte>)

  /** The file system as one job meets it: `sameFile` stands for
      `fs::exists(outf) && fs::equivalent(inf, outf)`, `rmFailures` for the
      removals in `rmOut` that fail (each one a warning). */
  datatype Env = Env(src: Source, sameFile: bool, rmFailures: nat)

  datatype Outcome = Outcome(r: Result, out: OutFile)

  /** The tag the scanner looks for: the job's tag and a space. */
  function TagBytes(tag: string): (t: seq<Byte>)
    ensures |t| == |tag| + 1 && t[|tag|] == SP
  {
    AsBytes(tag) + [SP]
  }

  /** The line ending a job's input is processed in: an undetectable one
      is taken for LF. */
  function Assumed(le: LineEnding): LineEnding
  {
    if le == Error then LF_ else le
  }

  /** `r += rmOut(...)` after a failure: the output is gone, and each
      failed removal is a warning. */
  function RemoveOutput(r: Result, env: Env): Outcome
  {
    Outcome(Add(r, Result(0, env.rmFailures)), Removed)
  }

  /** An LF input after the scanner: the output written, or removed when
      there are errors. */
  function LfPath(r0: Result, scanned: (Result, seq<Byte>), env: Env): Outcome
  {
    Settled(Add(r0, scanned.0), scanned.1, env)
  }

  /** `if (r.err > 0) r += rmOut(...)` after the output was written. */
  function Settled(r: Result, out: seq<Byte>, env: Env): Outcome
  {
    if r.err > 0 then RemoveOutput(r, env) else Outcome(r, Written(out))
  }

  /** A CR or CRLF input: converted to LF, scanned, and the output
      converted back. */
  function ConvertPath(s: InStream, le: LineEnding, tag: seq<Byte>, env: Env, min: nat): Outcome
  {
    var toLf := Convert(s, le, LF_);
    if toLf.code == 0 then Restored(Processed(toLf.out, tag, min), le, env)
    else RemoveOutput(Errors(1), env)
  }

  /** The scanner's output converted back to the input's line ending, or
      removed when there are errors. */
  function Restored(scanned: (Result, seq<Byte>), le: LineEnding, env: Env): Outcome
  {
    if scanned.0.err == 0 then WrittenBack(scanned.0, Convert(InStream(scanned.1, false), LF_, le))
    else RemoveOutput(scanned.0, env)
  }

  /** The output converted back: a failed conversion is a warning. */
  function WrittenBack(r: Result, back: Converted): Outcome
  {
    Outcome(if back.code != 0 then OneMoreWarning(r) else r, Written(back.out))
  }

  /** `processJob` up to the `Werror` rule. */
  function Core(job: Jobs.Job, env: Env, min: nat): Outcome
  {
    var tag := TagBytes(job.tag);
    match env.src
    case Missing => Outcome(Errors(1), Untouched)
    case Unopenable =>
      // the detection cannot open the file (a warning), then opening it
      // for the scanner throws (an error) before the output is created
      if env.sameFile then Outcome(Errors(1), Untouched) else Outcome(Result(1, 1), Untouched)
    case Readable(s) =>
      if env.sameFile then Outcome(Errors(1), Untouched)
      else
        var le := Detect(s);
        var warned := if le == Error then Result(0, 1) else Zero;
        if Assumed(le) == LF_ then LfPath(warned, Processed(s.data, tag, min), env)
        else ConvertPath(s, le, tag, env, min)
  }

  /** `processJob`: with `warningAsError`, a job that ends with warnings
      gets one more error. */
  function JobOutcome(job: Jobs.Job, env: Env, min: nat): Outcome
  {
    Werror(job.wError, Core(job, env, min))
  }

  /** The `Werror` rule on the outcome of the `try` block. */
  function Werror(wError: bool, o: Outcome): Outcome
  {
    if wError && o.r.warn > 0 then Outcome(OneMoreError(o.r), o.out) else o
  }

  /** The results of a list of jobs. */
  function Results(jobs: seq<Jobs.Job>, envs: seq<Env>, min: nat): (rs: seq<Result>)
    requires |jobs| == |envs|
    ensures |rs| == |jobs|
    ensures forall i :: 0 <= i < |jobs| ==> rs[i] == JobOutcome(jobs[i], envs[i], min).r
  {
    seq(|jobs|, i requires 0 <= i < |jobs| => JobOutcome(jobs[i], envs[i], min).r)
  }

  // ---------------------------------------------------------------------
  // The methods

  /** `processJob`. */
  method ProcessJob(job: Jobs.Job, env: Env, min: nat) returns (r: Result, out: OutFile)
    ensures Outcome(r, out) == JobOutcome(job, env, min)
  {
    r, out := ProcessJobCore(job, env, min);
    if job.wError && r.warn > 0 {
      r := OneMoreError(r);
    }
  }

  /** The `try` block of `processJob` and its handlers. */
  method ProcessJobCore(job: Jobs.Job, env: Env, min: nat) returns (r: Result, out: OutFile)
    ensures Outcome(r, out) == Core(job, env, min)
  {
    if env.src.Missing? || env.sameFile {
      // "file does not exist" or "in and out files are the same"
      return Errors(1), Untouched;
    }
    if env.src.Unopenable? {
      // the detection reads nothing and reports `error`: one warning, LF
      // assumed; then opening the input for the scanner throws
      var le := DetectLineEnding(InStream([], true));
      assert le == Error;
      return Result(1, 1), Untouched;
    }
    var s := env.src.stream;
    var ile := DetectLineEnding(s);
    r := Zero;
    if ile == Error {
      r := OneMoreWarning(r);
      ile := LF_;
    }
    if ile == LF_ {
      r, out := ProcessLf(r, s.data, TagBytes(job.tag), env, min);
    } else {
      r, out := ProcessConverted(s, ile, TagBytes(job.tag), env, min);
    }
  }

  /** An LF input: scanned as it is; the output removed on errors. */
  method ProcessLf(r0: Result, data: seq<Byte>, tag: seq<Byte>, env: Env, min: nat) returns (r: Result, out: OutFile)
    ensures Outcome(r, out) == LfPath(r0, Processed(data, tag, min), env)
  {
    var pr, o := CaterpillarProc(data, tag, min);
    r, out := Add(r0, pr), Written(o);
    if r.err > 0 {
      r, out := Add(r, Result(0, env.rmFailures)), Removed;
    }
  }

  /** A CR or CRLF input: converted to LF, scanned, converted back; the
      output removed on errors. */
  method ProcessConverted(s: InStream, le: LineEnding, tag: seq<Byte>, env: Env, min: nat) returns (r: Result, out: OutFile)
    ensures Outcome(r, out) == ConvertPath(s, le, tag, env, min)
  {
    r, out := Zero, Untouched;
    var lfData, code := ConvertLineEnding(s, le, LF_);
    if code == 0 {
      var pr, o := CaterpillarProc(lfData, tag, min);
      r := Add(r, pr);
      if r.err == 0 {
        var back, code' := ConvertLineEnding(InStream(o, false), LF_, le);
        out := Written(back);
        if code' != 0 {
          r := OneMoreWarning(r);
        }
      }
    } else {
      r := OneMoreError(r);
    }
    if r.err > 0 {
      r, out := Add(r, Result(0, env.rmFailures)), Removed;
    }
  }

  /** `processJobs`: the jobs one after the other, their results summed. */
  method ProcessJobs(jobs: seq<Jobs.Job>, envs: seq<Env>, min: nat) returns (pr: Result, outs: seq<OutFile>)
    requires |jobs| == |envs|
    ensures pr == Sum(Results(jobs, envs, min))
    ensures pr.err == SumErr(Results(jobs, envs, min)) && pr.warn == SumWarn(Results(jobs, envs, min))
    ensures |outs| == |jobs|
    ensures forall i :: 0 <= i < |jobs| ==> outs[i] == JobOutcome(jobs[i], envs[i], min).out
  {
    ghost var rs := Results(jobs, envs, min);
    pr, outs := Zero, [];
    var i := 0;
    while i < |jobs|
      invariant i <= |jobs| && |outs| == i
      invariant pr == Sum(rs[..i])
      invariant forall k :: 0 <= k < i ==> outs[k] == JobOutcome(jobs[k], envs[k], min).out
    {
      var lastR, out := ProcessJob(jobs[i], envs[i], min);
      assert rs[..i + 1][..i] == rs[..i];
      pr := Add(pr, lastR);
      outs := outs + [out];
      i := i + 1;
    }
    assert rs[..i] == rs;
    SumComponents(rs);
  }
}
