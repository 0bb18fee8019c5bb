/**
 * The output stream (Go's `io.Writer`) and what a sequence of writes to it
 * produces. A write either succeeds and appends its text, or fails, appends
 * nothing and returns an error. Which writes fail is fixed when the sink is
 * made: write number `i` (counting from zero) fails exactly when `fails(i)`.
 */
module Writers {
  import opened Wrappers
  import opened Text

  /** The error values of the model: a sink failure, or `errors.New(text)`. */
  datatype Error = WriteFailure(attempt: nat) | Message(text: string)

  /** What a run of writes leaves behind: the text appended, the number of write calls made, the error returned. */
  datatype Outcome = Outcome(text: string, attempts: nat, err: Option<Error>)

  class Sink {
    var out: string
    var attempts: nat
    const fails: nat -> bool

    constructor (fails: nat -> bool)
      ensures out == [] && attempts == 0 && this.fails == fails
    {
      out := [];
      attempts := 0;
      this.fails := fails;
    }

    /** `fmt.Fprintf(writer, "%s", s)`. */
    method Write(s: string) returns (err: Option<Error>)
      modifies this
      ensures attempts == old(attempts) + 1
      ensures err == (if fails(old(attempts)) then Some(WriteFailure(old(attempts))) else None)
      ensures out == (if fails(old(attempts)) then old(out) else old(out) + s)
    {
      if fails(attempts) {
        err := Some(WriteFailure(attempts));
      } else {
        out := out + s;
        err := None;
      }
      attempts := attempts + 1;
    }
  }

  /**
   * Writing `chunks` in order, starting at write number `start`, and stopping at
   * the first write that fails.
   */
  function Run(chunks: seq<string>, start: nat, fails: nat -> bool): Outcome
  {
    if chunks == [] then Outcome("", 0, None)
    else if fails(start) then Outcome("", 1, Some(WriteFailure(start)))
    else
      var rest := Run(chunks[1..], start + 1, fails);
      Outcome(chunks[0] + rest.text, 1 + rest.attempts, rest.err)
  }

  /** A single write either fails and appends nothing, or appends its chunk. */
  lemma RunSingle(c: string, start: nat, fails: nat -> bool)
    ensures Run([c], start, fails)
            == if fails(start) then Outcome("", 1, Some(WriteFailure(start))) else Outcome(c, 1, None)
  {
    assert [c][1..] == [];
    assert c + "" == c;
  }

  /** The sink states around one `Write` of `c` as attempt `at` are those of a run of `[c]`. */
  lemma WriteIsRun(c: string, at: nat, fails: nat -> bool, outBefore: string, outAfter: string,
                   attemptsAfter: nat, err: Option<Error>)
    requires attemptsAfter == at + 1
    requires err == (if fails(at) then Some(WriteFailure(at)) else None)
    requires outAfter == (if fails(at) then outBefore else outBefore + c)
    ensures var r := Run([c], at, fails);
            outAfter == outBefore + r.text && attemptsAfter == at + r.attempts && err == r.err
  {
    RunSingle(c, at, fails);
  }

  /**
   * A run makes at most one write call per chunk; it returns no error only after
   * writing every chunk, and otherwise returns the error of its last call, which failed.
   */
  lemma {:induction false} RunReport(chunks: seq<string>, start: nat, fails: nat -> bool)
    ensures var r := Run(chunks, start, fails);
            && r.attempts <= |chunks|
            && (r.err.None? ==> r.attempts == |chunks|)
            && (r.err.Some? ==> 0 < r.attempts && fails(start + r.attempts - 1)
                                && r.err == Some(WriteFailure(start + r.attempts - 1)))
  {
    if chunks != [] && !fails(start) {
      RunReport(chunks[1..], start + 1, fails);
    }
  }

  /** Writing `a` then `b` stops inside `a` when a write of `a` fails, and otherwise continues with `b`. */
  lemma {:induction false} RunAppend(a: seq<string>, b: seq<string>, start: nat, fails: nat -> bool)
    ensures var ra := Run(a, start, fails);
            Run(a + b, start, fails) ==
              if ra.err.Some? then ra
              else
                var rb := Run(b, start + |a|, fails);
                Outcome(ra.text + rb.text, ra.attempts + rb.attempts, rb.err)
  {
    if a == [] {
      assert a + b == b;
    } else if !fails(start) {
      assert (a + b)[1..] == a[1..] + b;
      RunAppend(a[1..], b, start + 1, fails);
    }
  }

  /** One more write after `done`: what `Sink.Write` does, unless an earlier write already failed. */
  lemma RunSnoc(done: seq<string>, c: string, start: nat, fails: nat -> bool)
    ensures var rd := Run(done, start, fails);
            var n := start + |done|;
            Run(done + [c], start, fails) ==
              if rd.err.Some? then rd
              else if fails(n) then Outcome(rd.text, |done| + 1, Some(WriteFailure(n)))
              else Outcome(rd.text + c, |done| + 1, None)
  {
    RunReport(done, start, fails);
    RunAppend(done, [c], start, fails);
    assert [c][1..] == [];
  }

  /**
   * A sink that reflects the run of `done` and then performs `Sink.Write(c)`
   * reflects the run of `done + [c]`.
   */
  lemma WriteExtendsRun(done: seq<string>, c: string, start: nat, fails: nat -> bool, out0: string,
                        outBefore: string, attemptsBefore: nat, outAfter: string, attemptsAfter: nat,
                        err: Option<Error>)
    requires Run(done, start, fails).err.None?
    requires outBefore == out0 + Run(done, start, fails).text
    requires attemptsBefore == start + Run(done, start, fails).attempts
    requires attemptsAfter == attemptsBefore + 1
    requires err == (if fails(attemptsBefore) then Some(WriteFailure(attemptsBefore)) else None)
    requires outAfter == (if fails(attemptsBefore) then outBefore else outBefore + c)
    ensures outAfter == out0 + Run(done + [c], start, fails).text
    ensures attemptsAfter == start + Run(done + [c], start, fails).attempts
    ensures err == Run(done + [c], start, fails).err
  {
    RunReport(done, start, fails);
    RunSnoc(done, c, start, fails);
  }

  /**
   * Running `a` and then, only if that reported no error, `b` starting at the next
   * attempt, leaves the sink as running `a + b` would.
   */
  lemma RunThen(a: seq<string>, b: seq<string>, start: nat, fails: nat -> bool, out0: string,
                outMid: string, attemptsMid: nat, errMid: Option<Error>,
                outAfter: string, attemptsAfter: nat, err: Option<Error>)
    requires outMid == out0 + Run(a, start, fails).text
    requires attemptsMid == start + Run(a, start, fails).attempts
    requires errMid == Run(a, start, fails).err
    requires errMid.None? ==> outAfter == outMid + Run(b, attemptsMid, fails).text
    requires errMid.None? ==> attemptsAfter == attemptsMid + Run(b, attemptsMid, fails).attempts
    requires errMid.None? ==> err == Run(b, attemptsMid, fails).err
    requires errMid.Some? ==> outAfter == outMid && attemptsAfter == attemptsMid && err == errMid
    ensures outAfter == out0 + Run(a + b, start, fails).text
    ensures attemptsAfter == start + Run(a + b, start, fails).attempts
    ensures err == Run(a + b, start, fails).err
  {
    RunSplit(a, b, start, fails, attemptsMid);
    Sequenced(Run(a, start, fails), Run(b, attemptsMid, fails), Run(a + b, start, fails), start, out0,
              outMid, attemptsMid, errMid, outAfter, attemptsAfter, err);
  }

  /** Writing `a + b`: the writes of `a`, then, unless one of them failed, those of `b`. */
  lemma RunSplit(a: seq<string>, b: seq<string>, start: nat, fails: nat -> bool, mid: nat)
    requires mid == start + Run(a, start, fails).attempts
    ensures var ra := Run(a, start, fails);
            var rb := Run(b, mid, fails);
            Run(a + b, start, fails)
            == if ra.err.Some? then ra else Outcome(ra.text + rb.text, ra.attempts + rb.attempts, rb.err)
  {
    RunAppend(a, b, start, fails);
    if Run(a, start, fails).err.None? {
      RunReport(a, start, fails);
      assert mid == start + |a|;
    }
  }

  /** `RunThen` on the outcomes alone: `ra` of the first run, `rb` of the second, `rab` of both. */
  lemma Sequenced(ra: Outcome, rb: Outcome, rab: Outcome, start: nat, out0: string,
                  outMid: string, attemptsMid: nat, errMid: Option<Error>,
                  outAfter: string, attemptsAfter: nat, err: Option<Error>)
    requires rab == if ra.err.Some? then ra else Outcome(ra.text + rb.text, ra.attempts + rb.attempts, rb.err)
    requires outMid == out0 + ra.text && attemptsMid == start + ra.attempts && errMid == ra.err
    requires errMid.None? ==> outAfter == outMid + rb.text && attemptsAfter == attemptsMid + rb.attempts && err == rb.err
    requires errMid.Some? ==> outAfter == outMid && attemptsAfter == attemptsMid && err == errMid
    ensures outAfter == out0 + rab.text && attemptsAfter == start + rab.attempts && err == rab.err
  {
    if errMid.None? {
      assert out0 + (ra.text + rb.text) == (out0 + ra.text) + rb.text;
    }
  }

  /** When every write of `a` succeeds and write `k` of `b` is the first of `b` to fail, the run stops there. */
  lemma RunFailsInSecond(a: seq<string>, b: seq<string>, start: nat, fails: nat -> bool, k: nat)
    requires k < |b| && fails(start + |a| + k)
    requires forall i :: start <= i < start + |a| + k ==> !fails(i)
    ensures Run(a + b, start, fails)
            == Outcome(Concat(a) + Concat(b[..k]), |a| + k + 1, Some(WriteFailure(start + |a| + k)))
  {
    RunAllSucceed(a, start, fails);
    RunFirstFailure(b, start + |a|, fails, k);
    RunSplit(a, b, start, fails, start + |a|);
  }

  /** When no write fails, every chunk is written and no error is returned. */
  lemma {:induction false} RunAllSucceed(chunks: seq<string>, start: nat, fails: nat -> bool)
    requires forall i :: start <= i < start + |chunks| ==> !fails(i)
    ensures Run(chunks, start, fails) == Outcome(Concat(chunks), |chunks|, None)
  {
    if chunks != [] {
      RunAllSucceed(chunks[1..], start + 1, fails);
    }
  }

  /** A run that returns no error has written every chunk, in order. */
  lemma {:induction false} RunSuccess(chunks: seq<string>, start: nat, fails: nat -> bool)
    requires Run(chunks, start, fails).err.None?
    ensures Run(chunks, start, fails) == Outcome(Concat(chunks), |chunks|, None)
  {
    if chunks != [] {
      RunSuccess(chunks[1..], start + 1, fails);
    }
  }

  /**
   * When write `start + k` is the first to fail, exactly the chunks before it are
   * written, no write after it is attempted, and its error is returned.
   */
  lemma {:induction false} RunFirstFailure(chunks: seq<string>, start: nat, fails: nat -> bool, k: nat)
    requires k < |chunks| && fails(start + k)
    requires forall i :: start <= i < start + k ==> !fails(i)
    ensures Run(chunks, start, fails) == Outcome(Concat(chunks[..k]), k + 1, Some(WriteFailure(start + k)))
  {
    if k > 0 {
      RunFirstFailure(chunks[1..], start + 1, fails, k - 1);
      assert chunks[1..][..k - 1] == chunks[..k][1..];
    }
  }

  /** Writing every chunk while ignoring the errors: the text of the writes that succeed. */
  function Each(chunks: seq<string>, start: nat, fails: nat -> bool): string
  {
    if chunks == [] then ""
    else (if fails(start) then "" else chunks[0]) + Each(chunks[1..], start + 1, fails)
  }

  lemma {:induction false} EachAppend(a: seq<string>, b: seq<string>, start: nat, fails: nat -> bool)
    ensures Each(a + b, start, fails) == Each(a, start, fails) + Each(b, start + |a|, fails)
  {
    if a == [] {
      assert a + b == b;
      assert Each(a, start, fails) == "";
      assert Each(a + b, start, fails) == "" + Each(b, start + |a|, fails);
    } else {
      var head := if fails(start) then "" else a[0];
      assert (a + b)[0] == a[0] && (a + b)[1..] == a[1..] + b;
      assert Each(a + b, start, fails) == head + Each(a[1..] + b, start + 1, fails);
      EachAppend(a[1..], b, start + 1, fails);
      var x, y := Each(a[1..], start + 1, fails), Each(b, start + |a|, fails);
      assert Each(a, start, fails) == head + x;
      assert Each(a + b, start, fails) == head + (x + y);
      assert head + (x + y) == (head + x) + y;
    }
  }

  /** With no failure, ignoring errors writes the same text as stopping at the first one. */
  lemma {:induction false} EachAllSucceed(chunks: seq<string>, start: nat, fails: nat -> bool)
    requires forall i :: start <= i < start + |chunks| ==> !fails(i)
    ensures Each(chunks, start, fails) == Concat(chunks) == Run(chunks, start, fails).text
  {
    RunAllSucceed(chunks, start, fails);
    if chunks != [] {
      EachAllSucceed(chunks[1..], start + 1, fails);
    }
  }

  /**
   * When write `start + k` is the first to fail and errors are ignored, the chunks
   * before it are written, it is left out, and the writes after it go on.
   */
  lemma EachFirstFailure(chunks: seq<string>, start: nat, fails: nat -> bool, k: nat)
    requires k < |chunks| && fails(start + k)
    requires forall i :: start <= i < start + k ==> !fails(i)
    ensures Each(chunks, start, fails) == Concat(chunks[..k]) + Each(chunks[k + 1..], start + k + 1, fails)
  {
    assert chunks == chunks[..k] + chunks[k..];
    EachAppend(chunks[..k], chunks[k..], start, fails);
    EachAllSucceed(chunks[..k], start, fails);
    assert chunks[k..][1..] == chunks[k + 1..];
    var rest := Each(chunks[k + 1..], start + k + 1, fails);
    assert Each(chunks[k..], start + k, fails) == "" + rest;
    assert "" + rest == rest;
  }

  /** When every write fails, nothing at all reaches the sink. */
  lemma {:induction false} EachAllFail(chunks: seq<string>, start: nat, fails: nat -> bool)
    requires forall i :: start <= i < start + |chunks| ==> fails(i)
    ensures Each(chunks, start, fails) == ""
  {
    if chunks != [] {
      EachAllFail(chunks[1..], start + 1, fails);
    }
  }

  /** A single write whose error is ignored appends its chunk unless it fails. */
  lemma EachSingle(c: string, start: nat, fails: nat -> bool)
    ensures Each([c], start, fails) == if fails(start) then "" else c
  {
    assert [c][1..] == [];
    var step := if fails(start) then "" else c;
    assert Each([c], start, fails) == step + "";
    assert step + "" == step;
  }

  /**
   * A sink that reflects writing `done` while ignoring errors, and then performs
   * `Sink.Write(c)` and ignores its error, reflects writing `done + [c]` so.
   */
  lemma WriteExtendsEach(done: seq<string>, c: string, start: nat, fails: nat -> bool, out0: string,
                         outBefore: string, attemptsBefore: nat, outAfter: string, attemptsAfter: nat)
    requires outBefore == out0 + Each(done, start, fails)
    requires attemptsBefore == start + |done|
    requires attemptsAfter == attemptsBefore + 1
    requires outAfter == (if fails(attemptsBefore) then outBefore else outBefore + c)
    ensures outAfter == out0 + Each(done + [c], start, fails)
    ensures attemptsAfter == start + |done + [c]|
  {
    EachAppend(done, [c], start, fails);
    EachSingle(c, attemptsBefore, fails);
    var d := Each(done, start, fails);
    if fails(attemptsBefore) {
      assert Each(done + [c], start, fails) == d + "";
      assert d + "" == d;
    } else {
      assert Each(done + [c], start, fails) == d + c;
      assert out0 + (d + c) == (out0 + d) + c;
    }
  }
}
