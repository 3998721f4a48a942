/** What `processJob` and `processJobs` promise, proved about the
    specification functions of module `Processor`
    (src/application/processor.cpp:490-654). */
module ProcessorProperties {
  import opened Util
  import opened LineEndings
  import opened Scanner
  import opened ScannerProperties
  import opened Processor
  import Jobs

  /** The counters of a job are never negative. */
  lemma CoreCounts(job: Jobs.Job, env: Env, min: nat)
    ensures Core(job, env, min).r.err >= 0 && Core(job, env, min).r.warn >= 0
    ensures JobOutcome(job, env, min).r.err >= 0 && JobOutcome(job, env, min).r.warn >= 0
  {
  }

  /** Before the `Werror` rule the output file is written exactly when the
      job has no error; on an error it is removed, or never created. */
  lemma WrittenIffNoError(job: Jobs.Job, env: Env, min: nat)
    ensures Core(job, env, min).out.Written? <==> Core(job, env, min).r.err == 0
    ensures !Core(job, env, min).out.Written? ==> Core(job, env, min).out in {Removed, Untouched}
  {
  }

  /** `warningAsError` adds exactly one error to a job that ends with
      warnings, and changes nothing else: not even the output file, which
      was written before the rule applies. */
  lemma WerrorAddsOneError(job: Jobs.Job, env: Env, min: nat)
    ensures var plain := JobOutcome(job.(wError := false), env, min);
      var strict := JobOutcome(job.(wError := true), env, min);
      && strict.out == plain.out
      && strict.r.warn == plain.r.warn
      && strict.r.err == plain.r.err + (if plain.r.warn > 0 then 1 else 0)
  {
    assert job.(wError := false).tag == job.(wError := true).tag;
  }

  /** With `warningAsError`, a job without errors has no warnings either. */
  lemma WerrorLeavesNoQuietWarning(job: Jobs.Job, env: Env, min: nat)
    requires job.wError
    ensures JobOutcome(job, env, min).r.err == 0 ==> JobOutcome(job, env, min).r.warn == 0
  {
    CoreCounts(job, env, min);
  }

  /** A missing input, or an output that is the input itself, is one error
      and leaves the output alone. */
  lemma RefusedJob(job: Jobs.Job, env: Env, min: nat)
    requires env.src.Missing? || env.sameFile
    ensures Core(job, env, min) == Outcome(Errors(1), Untouched)
  {
  }

  /** An input whose line ending cannot be determined costs one warning and
      is scanned as LF, byte for byte. */
  lemma UndetectableTakenAsLf(job: Jobs.Job, env: Env, min: nat)
    requires env.src.Readable? && !env.sameFile && Detect(env.src.stream) == Error
    ensures var (pr, o) := Processed(env.src.stream.data, TagBytes(job.tag), min);
      var c := Core(job, env, min);
      && c.r.err == pr.err
      && c.r.warn == pr.warn + 1 + (if pr.err > 0 then env.rmFailures else 0)
      && (pr.err == 0 ==> c.out == Written(o))
      && (pr.err > 0 ==> c.out == Removed)
  {
  }

  /** For a CR or CRLF input, the conversion to LF fails only on a read
      error, and the conversion back never fails: the restore step adds no
      warning. */
  lemma RestoreNeverFails(job: Jobs.Job, env: Env, min: nat)
    requires env.src.Readable? && !env.sameFile
    requires Detect(env.src.stream) == CR_ || Detect(env.src.stream) == CRLF_
    ensures var s := env.src.stream;
      var le := Detect(s);
      && (!s.failsAtEnd ==> Convert(s, le, LF_).code == 0)
      && (Convert(s, le, LF_).code == 0 ==>
            var (pr, o) := Processed(Convert(s, le, LF_).out, TagBytes(job.tag), min);
            pr.err == 0 ==> Core(job, env, min) == Outcome(pr, Written(Convert(InStream(o, false), LF_, le).out)))
  {
    var s := env.src.stream;
    var le := Detect(s);
    ConvertCodes(s, le, LF_);
    var (pr, o) := Processed(Convert(s, le, LF_).out, TagBytes(job.tag), min);
    ConvertCodes(InStream(o, false), LF_, le);
  }

  /** An LF input without a rejected byte-order mark and without the tag
      is copied to the output unchanged, with no diagnostic. */
  lemma UntaggedLfCopied(job: Jobs.Job, env: Env, min: nat)
    requires env.src.Readable? && !env.sameFile && Detect(env.src.stream) == LF_
    requires RejectedBom(env.src.stream.data).None? && NoTag(env.src.stream.data, TagBytes(job.tag))
    ensures JobOutcome(job, env, min) == Outcome(Zero, Written(env.src.stream.data))
  {
    var tag := TagBytes(job.tag);
    var data := env.src.stream.data;
    LfInputScanned(job, env, min);
    UntaggedInputUnchanged(data, tag, min);
    CleanScanKept(env, data, Processed(data, tag, min));
    JobOutcomeOf(job, env, min, Outcome(Zero, Written(data)));
  }

  lemma CleanScanKept(env: Env, data: seq<Byte>, scanned: (Result, seq<Byte>))
    requires scanned.0 == Zero && scanned.1 == data
    ensures LfPath(Zero, scanned, env) == Outcome(Zero, Written(data))
  {
  }

  lemma JobOutcomeOf(job: Jobs.Job, env: Env, min: nat, o: Outcome)
    requires Core(job, env, min) == o
    ensures JobOutcome(job, env, min) == Werror(job.wError, o)
  {
  }

  /** An LF input is scanned as it is. */
  lemma LfInputScanned(job: Jobs.Job, env: Env, min: nat)
    requires env.src.Readable? && !env.sameFile && Detect(env.src.stream) == LF_
    ensures Core(job, env, min) == LfPath(Zero, Processed(env.src.stream.data, TagBytes(job.tag), min), env)
  {
  }

  /** A CRLF input whose breaks are all CR LF pairs, and whose LF form has
      no rejected mark and no tag, is written back unchanged: the
      normalisation to LF and the restore undo each other. */
  lemma UntaggedCrlfCopied(job: Jobs.Job, env: Env, min: nat)
    requires env.src.Readable? && !env.sameFile && Detect(env.src.stream) == CRLF_
    requires StrictCRLF(env.src.stream.data)
    requires var lf := Convert(env.src.stream, CRLF_, LF_).out;
      RejectedBom(lf).None? && NoTag(lf, TagBytes(job.tag))
    ensures JobOutcome(job, env, min) == Outcome(Zero, Written(env.src.stream.data))
  {
    var s := env.src.stream;
    CrlfLfRoundTrip(s.data, s.failsAtEnd);
    assert s == InStream(s.data, s.failsAtEnd);
    UntaggedInputUnchanged(Convert(s, CRLF_, LF_).out, TagBytes(job.tag), min);
  }

  /** A CR input without LF bytes, whose LF form has no rejected mark and
      no tag, is written back unchanged. */
  lemma UntaggedCrCopied(job: Jobs.Job, env: Env, min: nat)
    requires env.src.Readable? && !env.sameFile && Detect(env.src.stream) == CR_
    requires NoLF(env.src.stream.data)
    requires var lf := Convert(env.src.stream, CR_, LF_).out;
      RejectedBom(lf).None? && NoTag(lf, TagBytes(job.tag))
    ensures JobOutcome(job, env, min) == Outcome(Zero, Written(env.src.stream.data))
  {
    var s := env.src.stream;
    CrLfRoundTrip(s.data, s.failsAtEnd);
    assert s == InStream(s.data, s.failsAtEnd);
    UntaggedInputUnchanged(Convert(s, CR_, LF_).out, TagBytes(job.tag), min);
  }

  /** The run has no error exactly when no job has one. */
  lemma {:induction false} NoErrorIffEveryJobClean(jobs: seq<Jobs.Job>, envs: seq<Env>, min: nat)
    requires |jobs| == |envs|
    ensures Sum(Results(jobs, envs, min)).err == 0 <==>
      forall i :: 0 <= i < |jobs| ==> JobOutcome(jobs[i], envs[i], min).r.err == 0
  {
    var rs := Results(jobs, envs, min);
    SumComponents(rs);
    forall i | 0 <= i < |jobs|
      ensures rs[i].err >= 0
    {
      CoreCounts(jobs[i], envs[i], min);
    }
    SumErrZero(rs);
  }

  /** A sum of counts that are not negative is zero exactly when every
      count is. */
  lemma {:induction false} SumErrZero(rs: seq<Result>)
    requires forall i :: 0 <= i < |rs| ==> rs[i].err >= 0
    ensures SumErr(rs) >= 0
    ensures SumErr(rs) == 0 <==> forall i :: 0 <= i < |rs| ==> rs[i].err == 0
  {
    if rs != [] {
      SumErrZero(rs[1..]);
      assert forall i :: 0 < i < |rs| ==> rs[i] == rs[1..][i - 1];
    }
  }
}
