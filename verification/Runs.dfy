/**
  Runs of a step function that may end: induction over whole runs, once and for all.

  The step function and the invariant are parameters, so that the induction does not
  depend on what one step does.
 */
module Runs {
  import opened Common

  /** `next` is `None` when the step ends the run; `output` is what the step hands over. */
  datatype Step<S, B> = Step(next: Option<S>, output: seq<B>)

  datatype Result<S, B> = Result(last: Option<S>, output: seq<B>)

  ghost function Run<S, M, B>(step: (S, M) -> Step<S, B>, s: S, ms: seq<M>): Result<S, B>
    decreases |ms|
  {
    if ms == [] then Result(Some(s), [])
    else
      var r := step(s, ms[0]);
      if r.next.None? then Result(None, r.output)
      else
        var rest := Run(step, r.next.value, ms[1..]);
        Result(rest.last, r.output + rest.output)
  }

  /** The step in state `s`, with `n` elements handed over before, goes on along the stream. */
  ghost predicate Along<S, B>(r: Step<S, B>, stream: seq<B>, n: nat, inv: (S, nat) -> bool) {
    && n + |r.output| <= |stream|
    && r.output == stream[n..n + |r.output|]
    && (r.next.Some? ==> inv(r.next.value, n + |r.output|))
  }

  /** The side condition `fine` of a step holds at every step of the run. */
  ghost predicate Always<S, M, B>(step: (S, M) -> Step<S, B>, fine: (S, M, nat) -> bool, s: S, ms: seq<M>, n: nat)
    decreases |ms|
  {
    ms != [] ==>
      && fine(s, ms[0], n)
      && var r := step(s, ms[0]);
         r.next.Some? ==> Always(step, fine, r.next.value, ms[1..], n + |r.output|)
  }

  /** If every fine step from a state that satisfies the invariant goes on along the stream, every fine run does. */
  lemma {:induction false} RunAlong<S(!new), M(!new), B>(
    step: (S, M) -> Step<S, B>, fine: (S, M, nat) -> bool, inv: (S, nat) -> bool, stream: seq<B>,
    s: S, ms: seq<M>, n: nat)
    requires forall s, m, n | inv(s, n) && fine(s, m, n) :: Along(step(s, m), stream, n, inv)
    requires inv(s, n) && n <= |stream| && Always(step, fine, s, ms, n)
    ensures var r := Run(step, s, ms);
            && n + |r.output| <= |stream|
            && r.output == stream[n..n + |r.output|]
            && (r.last.Some? ==> inv(r.last.value, n + |r.output|))
    decreases |ms|
  {
    if ms != [] {
      var r := step(s, ms[0]);
      assert Along(r, stream, n, inv);
      if r.next.Some? {
        var m := n + |r.output|;
        RunAlong(step, fine, inv, stream, r.next.value, ms[1..], m);
        var rest := Run(step, r.next.value, ms[1..]).output;
        assert stream[n..m] + stream[m..m + |rest|] == stream[n..m + |rest|];
      }
    }
  }

  /** A side condition that does not depend on the state needs no run. */
  lemma {:induction false} AlwaysEach<S(!new), M, B>(
    step: (S, M) -> Step<S, B>, fine: (S, M, nat) -> bool, s: S, ms: seq<M>, n: nat)
    requires forall s, i, n | 0 <= i < |ms| :: fine(s, ms[i], n)
    ensures Always(step, fine, s, ms, n)
    decreases |ms|
  {
    if ms != [] {
      var r := step(s, ms[0]);
      if r.next.Some? {
        forall s, i, n | 0 <= i < |ms[1..]| ensures fine(s, ms[1..][i], n) {
          assert fine(s, ms[i + 1], n);
        }
        AlwaysEach(step, fine, r.next.value, ms[1..], n + |r.output|);
      }
    }
  }

  /** A side condition may be replaced by one that an invariant adds to it. */
  lemma {:induction false} AlwaysStronger<S(!new), M(!new), B>(
    step: (S, M) -> Step<S, B>, fine: (S, M, nat) -> bool, finer: (S, M, nat) -> bool, inv: S -> bool,
    s: S, ms: seq<M>, n: nat)
    requires forall s, m, n | inv(s) && fine(s, m, n) ::
               finer(s, m, n) && (step(s, m).next.Some? ==> inv(step(s, m).next.value))
    requires inv(s) && Always(step, fine, s, ms, n)
    ensures Always(step, finer, s, ms, n)
    ensures var r := Run(step, s, ms); r.last.Some? ==> inv(r.last.value)
    decreases |ms|
  {
    if ms != [] {
      var r := step(s, ms[0]);
      if r.next.Some? {
        AlwaysStronger(step, fine, finer, inv, r.next.value, ms[1..], n + |r.output|);
      }
    }
  }

  /** Two side conditions that agree on every step that the invariant leads to hold of the same runs. */
  lemma {:induction false} AlwaysSame<S(!new), M(!new), B>(
    step: (S, M) -> Step<S, B>, fine: (S, M, nat) -> bool, a: (S, M, nat) -> bool, b: (S, M, nat) -> bool, inv: S -> bool,
    s: S, ms: seq<M>, n: nat)
    requires forall s, m, n | inv(s) && fine(s, m, n) :: a(s, m, n) == b(s, m, n)
    requires forall s, m, n | inv(s) && fine(s, m, n) && a(s, m, n) && step(s, m).next.Some? :: inv(step(s, m).next.value)
    requires inv(s) && Always(step, fine, s, ms, n)
    ensures Always(step, a, s, ms, n) <==> Always(step, b, s, ms, n)
    decreases |ms|
  {
    if ms != [] {
      assert a(s, ms[0], n) == b(s, ms[0], n);
      var r := step(s, ms[0]);
      if r.next.Some? && a(s, ms[0], n) {
        AlwaysSame(step, fine, a, b, inv, r.next.value, ms[1..], n + |r.output|);
      }
    }
  }

  lemma RunOne<S, M, B>(step: (S, M) -> Step<S, B>, s: S, m: M)
    ensures Run(step, s, [m]) == Result(step(s, m).next, step(s, m).output)
  {
    var r := step(s, m);
    assert [m][1..] == [];
    if r.next.Some? {
      assert r.output + [] == r.output;
    }
  }

  /** A run in two parts. */
  lemma {:induction false} RunConcat<S, M, B>(step: (S, M) -> Step<S, B>, s: S, first: seq<M>, rest: seq<M>)
    requires Run(step, s, first).last.Some?
    ensures var r := Run(step, s, first);
            var q := Run(step, r.last.value, rest);
            Run(step, s, first + rest) == Result(q.last, r.output + q.output)
    decreases |first|
  {
    if first == [] {
      assert first + rest == rest;
    } else {
      assert (first + rest)[1..] == first[1..] + rest;
      RunConcat(step, step(s, first[0]).next.value, first[1..], rest);
    }
  }

  /** A step and the run after it. */
  lemma RunBefore<S, M, B>(step: (S, M) -> Step<S, B>, s: S, m: M, t: S, out: seq<B>, ms: seq<M>, u: S, more: seq<B>)
    requires step(s, m) == Step(Some(t), out) && Run(step, t, ms) == Result(Some(u), more)
    ensures Run(step, s, [m] + ms) == Result(Some(u), out + more)
  {
    RunOne(step, s, m);
    RunConcat(step, s, [m], ms);
  }

  /** A run and one more step. */
  lemma RunMore<S, M, B>(step: (S, M) -> Step<S, B>, s: S, ms: seq<M>, t: S, out: seq<B>, m: M, u: S, more: seq<B>)
    requires Run(step, s, ms) == Result(Some(t), out) && step(t, m) == Step(Some(u), more)
    ensures Run(step, s, ms + [m]) == Result(Some(u), out + more)
  {
    RunOne(step, t, m);
    RunConcat(step, s, ms, [m]);
  }

  /** The step goes on without output, and to a state that satisfies the invariant at `k`. */
  ghost predicate Silent<S, B>(r: Step<S, B>, inv: (S, nat) -> bool, k: nat) {
    r.next.Some? && r.output == [] && inv(r.next.value, k)
  }

  /** The same message many times. */
  lemma {:induction false} RunRepeat<S(!new), M, B>(
    step: (S, M) -> Step<S, B>, s: S, m: M, n: nat, inv: (S, nat) -> bool) returns (last: S)
    requires n > 0
    requires Silent(step(s, m), inv, 1)
    requires forall s, k: nat {:trigger inv(s, k)} | inv(s, k) :: Silent(step(s, m), inv, k + 1)
    ensures Run(step, s, seq(n, _ => m)) == Result(Some(last), []) && inv(last, n)
  {
    if n == 1 {
      last := step(s, m).next.value;
      RunOne(step, s, m);
      assert seq(1, _ => m) == [m];
    } else {
      var t := RunRepeat(step, s, m, n - 1, inv);
      assert Silent(step(t, m), inv, n);
      last := step(t, m).next.value;
      RunMore(step, s, seq(n - 1, _ => m), t, [], m, last, []);
      assert seq(n, _ => m) == seq(n - 1, _ => m) + [m];
    }
  }

  /** What the first state satisfies and every step keeps holds in every state of a trace. */
  lemma {:induction false} TraceInvariant<S(!new), A(!new)>(
    step: (S, A, S) -> bool, inv: S -> bool, states: seq<S>, actions: seq<A>, i: nat)
    requires |states| == |actions| + 1 && i < |states| && inv(states[0])
    requires forall j {:trigger actions[j]} | 0 <= j < |actions| :: step(states[j], actions[j], states[j + 1])
    requires forall s, a, s' | inv(s) && step(s, a, s') :: inv(s')
    ensures inv(states[i])
  {
    if i != 0 {
      TraceInvariant(step, inv, states, actions, i - 1);
      assert step(states[i - 1], actions[i - 1], states[i]);
    }
  }
}
