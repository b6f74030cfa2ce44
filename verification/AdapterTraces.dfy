/** What the DSP callback is given and what becomes of it, block by block: which block, which state, which
    slice. */
module AdapterTraces {
  import opened Words
  import opened Samples
  import opened NumberTheory
  import opened AdapterModel
  import opened AdapterRuns
  import opened AdapterStreams

  /** One call of the callback after another: the states it went through, the blocks it was given and the
      slices it wrote. */
  datatype Trace<C> = Trace(states: seq<C>, blocks: seq<seq<Sample>>, slices: seq<seq<Sample>>)

  /** What the output slice holds when call `k` begins. */
  function Before(scratch: seq<Sample>, slices: seq<seq<Sample>>, k: nat): seq<Sample>
    requires k <= |slices|
  {
    if k == 0 then scratch else slices[k - 1]
  }

  /** Call `k` starts from the state and the output slice that the call before it left behind, and writes
      every sample of its slice. */
  ghost predicate CallAt<C>(cb: Callback<C>, scratch: seq<Sample>, t: Trace<C>, k: nat)
    requires k < |t.blocks| == |t.slices| == |t.states| - 1
  {
    var before := Before(scratch, t.slices, k);
    && t.states[k + 1] == cb.next(t.states[k], t.blocks[k], before)
    && |t.slices[k]| == |scratch|
    && forall j :: 0 <= j < |scratch| ==> t.slices[k][j] == cb.sample(t.states[k], t.blocks[k], before, j)
  }

  ghost predicate Called<C>(cb: Callback<C>, scratch: seq<Sample>, t: Trace<C>) {
    && |t.states| == |t.blocks| + 1 && |t.slices| == |t.blocks|
    && forall k :: 0 <= k < |t.blocks| ==> CallAt(cb, scratch, t, k)
  }

  /** Piece `k` is the k-th piece of length `d` of `whole`. */
  ghost predicate PieceAt(whole: seq<Sample>, pieces: seq<seq<Sample>>, d: nat, k: nat)
    requires k < |pieces|
  {
    k * d <= (k + 1) * d <= |whole| && pieces[k] == whole[k * d..(k + 1) * d]
  }

  ghost predicate Pieces(whole: seq<Sample>, pieces: seq<seq<Sample>>, d: nat) {
    forall k :: 0 <= k < |pieces| ==> PieceAt(whole, pieces, d, k)
  }

  lemma PiecesCons(whole: seq<Sample>, pieces: seq<seq<Sample>>, d: nat)
    requires d <= |whole| && Pieces(whole[d..], pieces, d)
    ensures Pieces(whole, [whole[..d]] + pieces, d)
  {
    var all := [whole[..d]] + pieces;
    forall k | 0 <= k < |all| ensures PieceAt(whole, all, d, k) {
      if k == 0 {
        assert 0 * d == 0 && 1 * d == d;
      } else {
        PieceShift(whole, pieces, d, k);
      }
    }
  }

  lemma PieceShift(whole: seq<Sample>, pieces: seq<seq<Sample>>, d: nat, k: nat)
    requires d <= |whole| && Pieces(whole[d..], pieces, d) && 0 < k <= |pieces|
    ensures k * d <= (k + 1) * d <= |whole| && pieces[k - 1] == whole[k * d..(k + 1) * d]
  {
    MulAdd(k - 1, 1, d);
    MulAdd(k, 1, d);
    var i := k - 1;
    assert PieceAt(whole[d..], pieces, d, i);
    assert whole[d..][i * d..(i + 1) * d] == whole[k * d..(k + 1) * d];
  }

  lemma CalledCons<C>(cb: Callback<C>, env: C, block: seq<Sample>, scratch: seq<Sample>, t: Trace<C>)
    requires t.states != [] && t.states[0] == cb.next(env, block, scratch)
    requires Called(cb, cb.Render(env, block, scratch), t)
    ensures Called(cb, scratch,
                   Trace([env] + t.states, [block] + t.blocks, [cb.Render(env, block, scratch)] + t.slices))
  {
    var slice := cb.Render(env, block, scratch);
    var all := Trace([env] + t.states, [block] + t.blocks, [slice] + t.slices);
    forall k | 0 <= k < |all.blocks| ensures CallAt(cb, scratch, all, k) {
      if k > 0 {
        var i := k - 1;
        assert CallAt(cb, slice, t, i);
        assert all.blocks[k] == t.blocks[i] && all.slices[k] == t.slices[i];
        assert all.states[k] == t.states[i] && all.states[k + 1] == t.states[i + 1];
        assert Before(scratch, all.slices, k) == Before(slice, t.slices, i);
      }
    }
  }

  /** A rendering is what the calls on the consecutive complete blocks of the input leave behind: the last
      state, the last slice, the slices one after the other, and the input that fills no block. */
  ghost predicate Traced<C>(cb: Callback<C>, env: C, scratch: seq<Sample>, input: seq<Sample>,
                            r: Rendering<C>, t: Trace<C>)
    requires |scratch| > 0
  {
    var d, n := |scratch|, |input| / |scratch|;
    && Called(cb, scratch, t) && |t.blocks| == n && t.states[0] == env
    && Pieces(input, t.blocks, d) && Pieces(r.rendered, t.slices, d) && |r.rendered| == n * d <= |input|
    && r.env == t.states[n] && r.scratch == (if n == 0 then scratch else t.slices[n - 1])
    && r.rest == input[n * d..]
  }

  lemma TracedCons<C>(cb: Callback<C>, env: C, scratch: seq<Sample>, input: seq<Sample>, r: Rendering<C>,
                      t: Trace<C>)
    requires 0 < |scratch| <= |input|
    requires Traced(cb, cb.next(env, input[..|scratch|], scratch), cb.Render(env, input[..|scratch|], scratch),
                    input[|scratch|..], r, t)
    ensures var slice := cb.Render(env, input[..|scratch|], scratch);
            Traced(cb, env, scratch, input, r.(rendered := slice + r.rendered),
                   Trace([env] + t.states, [input[..|scratch|]] + t.blocks, [slice] + t.slices))
  {
    var d := |scratch|;
    var slice := cb.Render(env, input[..d], scratch);
    CalledCons(cb, env, input[..d], scratch, t);
    PiecesCons(input, t.blocks, d);
    assert (slice + r.rendered)[..d] == slice && (slice + r.rendered)[d..] == r.rendered;
    PiecesCons(slice + r.rendered, t.slices, d);
    ModShift(|input| - d, d, 1);
    MulAdd(|input| / d - 1, 1, d);
    hide Called, Pieces;
  }

  lemma {:induction false} RenderTrace<C>(cb: Callback<C>, env: C, scratch: seq<Sample>, input: seq<Sample>)
    returns (t: Trace<C>)
    requires |scratch| > 0
    ensures Traced(cb, env, scratch, input, RenderBlocks(cb, env, scratch, input), t)
    decreases |input|
  {
    var d := |scratch|;
    if |input| < d {
      ModUnique(|input|, d, 0, |input|);
      t := Trace([env], [], []);
    } else {
      var slice, next := cb.Render(env, input[..d], scratch), cb.next(env, input[..d], scratch);
      var tail := RenderTrace(cb, next, slice, input[d..]);
      t := Trace([env] + tail.states, [input[..d]] + tail.blocks, [slice] + tail.slices);
      hide Traced;
      TracedCons(cb, env, scratch, input, RenderBlocks(cb, next, slice, input[d..]), tail);
    }
  }

  /** After every run of the adapter, whatever the quanta, the drops and the underruns: the callback has been
      called once for every complete block of the accepted input, in order, each time on the state and the
      slice that it left behind. It is in its last state, the remainder waits, and what the host has
      received or can still receive are the slices, woven with silence and cut as the reports say. */
  lemma CallbackSeesBlocks<C>(cb: Callback<C>, block: nat, capacity: nat, env: C, calls: seq<HostCall>)
    returns (t: Trace<C>, rendered: seq<Sample>)
    requires 0 < block && 2 * block <= capacity
    ensures var run := Run(cb, Fresh(block, capacity, env), calls);
            var accepted := AllAccepted(cb, Fresh(block, capacity, env), calls);
            && Traced(cb, env, Silence(block), accepted,
                      Rendering(run.adapter.env, run.adapter.scratch, run.adapter.input, rendered), t)
            && Received(cb, Fresh(block, capacity, env), calls) + run.adapter.output
               == Woven(run.reports, block, rendered)
  {
    hide RenderBlocks, Silence, Run, AllAccepted, Received, Woven, Traced;
    var accepted := AllAccepted(cb, Fresh(block, capacity, env), calls);
    StreamIsPreserved(cb, block, capacity, env, calls);
    t := RenderTrace(cb, env, Silence(block), accepted);
    rendered := RenderBlocks(cb, env, Silence(block), accepted).rendered;
  }

  /** The same up to and including `flush`: the remainder, if there is one, padded with silence, is the last
      block the callback sees, and the host receives its slice cut to the remainder and to the room left. */
  lemma CallbackSeesFlush<C>(cb: Callback<C>, block: nat, capacity: nat, env: C, calls: seq<HostCall>)
    returns (t: Trace<C>, rendered: seq<Sample>)
    requires 0 < block && 2 * block <= capacity
    ensures var run := Run(cb, Fresh(block, capacity, env), calls);
            var accepted := AllAccepted(cb, Fresh(block, capacity, env), calls);
            var whole := |accepted| - |run.adapter.input|;
            var cut := Min(|run.adapter.input|, capacity - |run.adapter.output|);
            && Traced(cb, env, Silence(block), accepted + Padding(accepted, block),
                      Rendering(AfterFlush(cb, run.adapter).env, AfterFlush(cb, run.adapter).scratch, [], rendered), t)
            && 0 <= whole <= |accepted| <= |rendered| && 0 <= cut
            && Received(cb, Fresh(block, capacity, env), calls) + Flushed(cb, run.adapter)
               == Woven(run.reports, block, rendered[..whole]) + rendered[whole..whole + cut]
  {
    hide RenderBlocks, Silence, Run, AllAccepted, Received, Woven, Flushed, AfterFlush, Padding, Traced;
    var accepted := AllAccepted(cb, Fresh(block, capacity, env), calls);
    var padded := accepted + Padding(accepted, block);
    FlushedRun(cb, block, capacity, env, calls);
    StreamIsPreserved(cb, block, capacity, env, calls);
    t := RenderTrace(cb, env, Silence(block), padded);
    var seen := RenderBlocks(cb, env, Silence(block), accepted).rendered;
    rendered := RenderBlocks(cb, env, Silence(block), padded).rendered;
    assert seen == rendered[..|seen|];
    hide Processed;
  }
}
