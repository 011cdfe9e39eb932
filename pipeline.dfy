/**
 * The handler chain of pkg/imageops/imageops.go: a pipeline holds a list of byte-to-byte steps
 * and runs them in insertion order, stopping at the first step that reports an error.
 */
module ImageOps {
  import opened Results

  /** A Go `error` is carried by its message. */
  type Error = string

  /** `Handler func([]byte) ([]byte, error)`: a step either yields new bytes or fails. */
  type Handler = seq<Byte> -> Result<seq<Byte>, Error>

  /**
   * What running `steps` on `data` yields: the input unchanged for no steps; otherwise the first
   * step's error, or the rest of the steps run on the first step's output.
   */
  function RunSteps(steps: seq<Handler>, data: seq<Byte>): (r: Result<seq<Byte>, Error>)
    ensures steps == [] ==> r == Ok(data)
    decreases |steps|
  {
    if steps == [] then Ok(data)
    else match steps[0](data)
      case Err(e) => Err(e)
      case Ok(next) => RunSteps(steps[1..], next)
  }

  /** The inputs the steps are called with, in order; a step after a failing one is never called. */
  function Invoked(steps: seq<Handler>, data: seq<Byte>): (calls: seq<seq<Byte>>)
    ensures |calls| <= |steps|
    ensures steps != [] ==> |calls| >= 1 && calls[0] == data
    decreases |steps|
  {
    if steps == [] then []
    else match steps[0](data)
      case Err(_) => [data]
      case Ok(next) => [data] + Invoked(steps[1..], next)
  }

  class Pipeline {
    var steps: seq<Handler>

    /** `NewPipeline`: a pipeline with no steps. */
    constructor ()
      ensures steps == []
    {
      steps := [];
    }

    /** `Add`: the handler goes to the end, the earlier steps keep their order, and the same pipeline is returned. */
    method Add(fn: Handler) returns (self: Pipeline)
      modifies this
      ensures steps == old(steps) + [fn]
      ensures self == this
    {
      steps := steps + [fn];
      self := this;
    }

    /**
     * `Run`: threads the data through the steps in order and returns the first error, or the
     * last output. It modifies nothing, so the step list is the same afterwards. The ghost
     * `calls` records the input every invoked step received.
     */
    method Run(data: seq<Byte>) returns (r: Result<seq<Byte>, Error>, ghost calls: seq<seq<Byte>>)
      ensures r == RunSteps(steps, data)
      ensures calls == Invoked(steps, data)
    {
      var cur := data;
      calls := [];
      for i := 0 to |steps|
        invariant RunSteps(steps, data) == RunSteps(steps[i..], cur)
        invariant Invoked(steps, data) == calls + Invoked(steps[i..], cur)
      {
        calls := calls + [cur];
        var out := steps[i](cur);
        assert steps[i..][1..] == steps[i + 1..];
        if out.Err? {
          return Err(out.error), calls;
        }
        cur := out.value;
      }
      r := Ok(cur);
    }
  }

  // ---- properties ----

  /** Running `a + b` is running `a`, then, if that succeeded, `b` on its output. */
  lemma {:induction false} RunConcat(a: seq<Handler>, b: seq<Handler>, data: seq<Byte>)
    ensures RunSteps(a + b, data) ==
      match RunSteps(a, data)
      case Err(e) => Err(e)
      case Ok(mid) => RunSteps(b, mid)
    decreases |a|
  {
    if a == [] {
      assert a + b == b;
    } else {
      assert (a + b)[1..] == a[1..] + b;
      match a[0](data)
      case Err(_) =>
      case Ok(next) => RunConcat(a[1..], b, next);
    }
  }

  /** After `Add(fn)`, running the pipeline is the old run followed by fn. */
  lemma AddThenRun(steps: seq<Handler>, fn: Handler, data: seq<Byte>)
    ensures RunSteps(steps + [fn], data) ==
      match RunSteps(steps, data)
      case Err(e) => Err(e)
      case Ok(mid) => fn(mid)
  {
    RunConcat(steps, [fn], data);
  }

  /**
   * The chain on success: every step is invoked, step 0 gets the input, step i+1 gets the output
   * of step i, and the result is the last step's output.
   */
  lemma {:induction false} SuccessThreads(steps: seq<Handler>, data: seq<Byte>)
    requires RunSteps(steps, data).Ok?
    ensures var calls := Invoked(steps, data);
      && |calls| == |steps|
      && (steps != [] ==> calls[0] == data)
      && (forall i :: 0 <= i < |steps| - 1 ==> steps[i](calls[i]) == Ok(calls[i + 1]))
      && (steps != [] ==> steps[|steps| - 1](calls[|steps| - 1]) == RunSteps(steps, data))
    decreases |steps|
  {
    if steps != [] {
      var next := steps[0](data).value;
      SuccessThreads(steps[1..], next);
      var calls, rest := Invoked(steps, data), Invoked(steps[1..], next);
      assert calls == [data] + rest;
      forall i | 0 <= i < |steps| - 1
        ensures steps[i](calls[i]) == Ok(calls[i + 1])
      {
        if i > 0 {
          assert steps[i] == steps[1..][i - 1];
        }
      }
    }
  }

  /**
   * The first failure: when the first k steps succeed and step k fails, the run returns that
   * step's error and exactly k+1 steps were invoked, so no later step ran.
   */
  lemma {:induction false} FirstFailureStops(steps: seq<Handler>, data: seq<Byte>, k: nat, mid: seq<Byte>)
    requires k < |steps|
    requires RunSteps(steps[..k], data) == Ok(mid) && steps[k](mid).Err?
    ensures RunSteps(steps, data) == Err(steps[k](mid).error)
    ensures |Invoked(steps, data)| == k + 1 && Invoked(steps, data)[k] == mid
    decreases k
  {
    if k == 0 {
      assert steps[..0] == [];
    } else {
      assert steps[..k][0] == steps[0];
      assert steps[..k][1..] == steps[1..][..k - 1];
      var next := steps[0](data).value;
      FirstFailureStops(steps[1..], next, k - 1, mid);
    }
  }
}
