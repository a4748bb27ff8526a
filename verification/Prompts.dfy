/**
 The multi-step prompt handler of internal/inputhandlers/login_prompt_handler.go. Validators and
 conditions are arbitrary functions of the results so far and of the world at the time of the call.
 */
module Prompts {
  import opened Common

  type Results = map<string, string>

  // A missing key reads as the empty string.
  function Get(results: Results, id: string): string {
    if id in results then results[id] else ""
  }

  const VERIFY_ID := "password-new-verify"

  // A validator gives the value to store, or None for an error; without a condition a step always runs.
  datatype PromptStep<!W(!new)> = PromptStep(
    id: string,
    validator: (string, Results, W) -> Option<string>,
    condition: Option<(Results, W) -> bool>)

  predicate Applies<W(!new)>(step: PromptStep<W>, results: Results, w: W) {
    step.condition.None? || step.condition.value(results, w)
  }

  // The source steps back from a failed verification without looking whether there is a step before it.
  predicate Wellformed<W(!new)>(steps: seq<PromptStep<W>>) {
    |steps| > 0 ==> steps[0].id != VERIFY_ID
  }

  // ---------- the dialog as a state machine ----------

  datatype Phase = Waiting | Completed | Disconnected

  datatype Dialog = Dialog(phase: Phase, index: int, results: Results, failures: seq<nat>)

  // Waiting at a step that exists, or over
  predicate InBounds<W(!new)>(steps: seq<PromptStep<W>>, d: Dialog) {
    |d.failures| == |steps| && (d.phase == Waiting ==> 0 <= d.index < |steps|)
  }

  // The first step from i on that applies
  function FirstApplicable<W(!new)>(steps: seq<PromptStep<W>>, i: nat, results: Results, w: W): (j: nat)
    requires i <= |steps|
    ensures i <= j <= |steps|
    decreases |steps| - i
  {
    if i == |steps| || Applies(steps[i], results, w) then i else FirstApplicable(steps, i + 1, results, w)
  }

  // Exactly the steps passed over do not apply.
  lemma {:induction false} SkippedDoNotApply<W(!new)>(steps: seq<PromptStep<W>>, i: nat, results: Results, w: W)
    requires i <= |steps|
    ensures forall k :: i <= k < FirstApplicable(steps, i, results, w) ==> !Applies(steps[k], results, w)
    ensures FirstApplicable(steps, i, results, w) < |steps| ==>
      Applies(steps[FirstApplicable(steps, i, results, w)], results, w)
    decreases |steps| - i
  {
    if i < |steps| && !Applies(steps[i], results, w) {
      SkippedDoNotApply(steps, i + 1, results, w);
    }
  }

  function Begin<W(!new)>(steps: seq<PromptStep<W>>, failures: seq<nat>, w: W): Dialog {
    var i := FirstApplicable(steps, 0, map[], w);
    Dialog(if i < |steps| then Waiting else Completed, i, map[], failures)
  }

  // One submission. A failed verification goes back to the step before and is charged to it; the third
  // failure charged to a step disconnects.
  function Submit<W(!new)>(steps: seq<PromptStep<W>>, d: Dialog, input: string, w: W): (d': Dialog)
    requires Wellformed(steps) && InBounds(steps, d)
    ensures InBounds(steps, d')
  {
    if d.phase != Waiting then d
    else
      var step := steps[d.index];
      var v := step.validator(input, d.results, w);
      if v.None? then
        var i := if step.id == VERIFY_ID then d.index - 1 else d.index;
        var failures := d.failures[i := d.failures[i] + 1];
        if failures[i] >= 3 then Dialog(Disconnected, i + 99, d.results, failures)
        else Dialog(Waiting, i, d.results, failures)
      else
        var results := d.results[step.id := v.value];
        var i := FirstApplicable(steps, d.index + 1, results, w);
        Dialog(if i < |steps| then Waiting else Completed, i, results, d.failures)
  }

  function NoFailures(n: nat): (failures: seq<nat>)
    ensures |failures| == n
  {
    seq(n, _ => 0)
  }

  // A whole dialog, from the first prompt
  function Run<W(!new)>(steps: seq<PromptStep<W>>, w: W, inputs: seq<(string, W)>): (d: Dialog)
    requires Wellformed(steps)
    ensures InBounds(steps, d)
  {
    if inputs == [] then Begin(steps, NoFailures(|steps|), w)
    else
      var n := |inputs| - 1;
      Submit(steps, Run(steps, w, inputs[..n]), inputs[n].0, inputs[n].1)
  }

  // Whether a submission to d is accepted
  predicate Accepted<W(!new)>(steps: seq<PromptStep<W>>, d: Dialog, input: string, w: W)
    requires InBounds(steps, d)
  {
    d.phase == Waiting && steps[d.index].validator(input, d.results, w).Some?
  }

  // A rejected answer is asked for again at the same step and charged to it - but a rejected verification
  // sends the dialog back to the step before, which is charged in its place. The third charge ends it.
  lemma AskedAgain<W(!new)>(steps: seq<PromptStep<W>>, d: Dialog, input: string, w: W)
    requires Wellformed(steps) && InBounds(steps, d) && d.phase == Waiting && !Accepted(steps, d, input, w)
    ensures var d' := Submit(steps, d, input, w);
            var i := if steps[d.index].id == "password-new-verify" then d.index - 1 else d.index;
            && d'.results == d.results && d'.failures[i] == d.failures[i] + 1
            && (forall k :: 0 <= k < |steps| && k != i ==> d'.failures[k] == d.failures[k])
            && (d.failures[i] < 2 ==> d'.phase == Waiting && d'.index == i)
            && (d.failures[i] >= 2 ==> d'.phase == Disconnected && d'.index == i + 99)
  {
  }

  // After a rejected verification the next accepted answer replaces that of the step before, and the
  // verification is asked for again.
  lemma VerifiedAgain<W(!new)>(steps: seq<PromptStep<W>>, d: Dialog, wrong: string, w: W, input: string, w': W)
    requires Wellformed(steps) && InBounds(steps, d) && d.phase == Waiting && steps[d.index].id == "password-new-verify"
    requires !Accepted(steps, d, wrong, w) && d.failures[d.index - 1] < 2
    requires Accepted(steps, Submit(steps, d, wrong, w), input, w')
    ensures var value := steps[d.index - 1].validator(input, d.results, w');
            var d' := Submit(steps, Submit(steps, d, wrong, w), input, w');
            && value.Some? && d'.results == d.results[steps[d.index - 1].id := value.value]
            && (Applies(steps[d.index], d'.results, w') ==> d'.phase == Waiting && d'.index == d.index)
  {
    AskedAgain(steps, d, wrong, w);
  }

  function Accepts<W(!new)>(steps: seq<PromptStep<W>>, w: W, inputs: seq<(string, W)>): nat
    requires Wellformed(steps)
  {
    if inputs == [] then 0
    else
      var n := |inputs| - 1;
      Accepts(steps, w, inputs[..n]) + if Accepted(steps, Run(steps, w, inputs[..n]), inputs[n].0, inputs[n].1) then 1 else 0
  }

  function Fails<W(!new)>(steps: seq<PromptStep<W>>, w: W, inputs: seq<(string, W)>): nat
    requires Wellformed(steps)
  {
    if inputs == [] then 0
    else
      var n := |inputs| - 1;
      var d := Run(steps, w, inputs[..n]);
      Fails(steps, w, inputs[..n]) + if d.phase == Waiting && !Accepted(steps, d, inputs[n].0, inputs[n].1) then 1 else 0
  }

  function Sum(s: seq<nat>): nat {
    if s == [] then 0 else Sum(s[..|s| - 1]) + s[|s| - 1]
  }

  lemma {:induction false} SumIncrement(s: seq<nat>, i: nat)
    requires i < |s|
    ensures Sum(s[i := s[i] + 1]) == Sum(s) + 1
  {
    var n := |s| - 1;
    var t := s[i := s[i] + 1];
    if i < n {
      SumIncrement(s[..n], i);
      assert t[..n] == s[..n][i := s[i] + 1];
    } else {
      assert t[..n] == s[..n];
    }
  }

  lemma {:induction false} SumAtMost(s: seq<nat>, b: nat)
    requires forall i :: 0 <= i < |s| ==> s[i] <= b
    ensures Sum(s) <= b * |s|
    ensures b == 0 ==> Sum(s) == 0
  {
    if s != [] {
      SumAtMost(s[..|s| - 1], b);
    }
  }

  // What holds after every submission: failures are never forgotten, and each accepted submission moves
  // the dialog on by at least one step, each failed one back by at most one.
  ghost predicate Counted<W(!new)>(steps: seq<PromptStep<W>>, d: Dialog, accepts: nat, fails: nat) {
    && InBounds(steps, d)
    && fails == Sum(d.failures)
    && (d.phase != Disconnected ==> d.index >= 0 && accepts <= d.index + fails && forall i :: 0 <= i < |steps| ==> d.failures[i] <= 2)
    && (d.phase == Completed ==> d.index == |steps|)
    && (d.phase == Disconnected ==> fails <= 2 * |steps| + 1 && accepts <= |steps| + fails)
  }

  lemma SubmitCounted<W(!new)>(steps: seq<PromptStep<W>>, d: Dialog, input: string, w: W, accepts: nat, fails: nat)
    requires Wellformed(steps) && Counted(steps, d, accepts, fails) && d.phase == Waiting
    ensures Accepted(steps, d, input, w) ==> Counted(steps, Submit(steps, d, input, w), accepts + 1, fails)
    ensures !Accepted(steps, d, input, w) ==> Counted(steps, Submit(steps, d, input, w), accepts, fails + 1)
  {
    hide FirstApplicable, Sum;
    var i := if steps[d.index].id == VERIFY_ID then d.index - 1 else d.index;
    SumIncrement(d.failures, i);
    SumAtMost(d.failures, 2);
  }

  lemma {:induction false} RunCounted<W(!new)>(steps: seq<PromptStep<W>>, w: W, inputs: seq<(string, W)>)
    requires Wellformed(steps)
    ensures Counted(steps, Run(steps, w, inputs), Accepts(steps, w, inputs), Fails(steps, w, inputs))
    ensures Run(steps, w, inputs).phase == Waiting ==> |inputs| == Accepts(steps, w, inputs) + Fails(steps, w, inputs)
  {
    if inputs == [] {
      SumAtMost(NoFailures(|steps|), 0);
    } else {
      var n := |inputs| - 1;
      RunCounted(steps, w, inputs[..n]);
      var d := Run(steps, w, inputs[..n]);
      if d.phase == Waiting {
        SubmitCounted(steps, d, inputs[n].0, inputs[n].1, Accepts(steps, w, inputs[..n]), Fails(steps, w, inputs[..n]));
      }
    }
  }

  // Every dialog of n steps ends: at most 2n + 1 submissions fail, and at most n more are accepted than
  // fail; so it is over, completed or disconnected, after 5n submissions whatever they are.
  lemma DialogEnds<W(!new)>(steps: seq<PromptStep<W>>, w: W, inputs: seq<(string, W)>)
    requires Wellformed(steps)
    ensures Fails(steps, w, inputs) <= 2 * |steps| + 1
    ensures Accepts(steps, w, inputs) <= |steps| + Fails(steps, w, inputs)
    ensures |inputs| >= 5 * |steps| ==> Run(steps, w, inputs).phase != Waiting
  {
    RunCounted(steps, w, inputs);
    var d := Run(steps, w, inputs);
    if d.phase != Disconnected {
      SumAtMost(d.failures, 2);
    }
  }

  // The step i that a third failure was charged to leaves the index at i + 99.
  lemma {:induction false} DisconnectedAt<W(!new)>(steps: seq<PromptStep<W>>, w: W, inputs: seq<(string, W)>)
    requires Wellformed(steps)
    ensures var d := Run(steps, w, inputs);
            && (d.phase != Disconnected ==> forall i :: 0 <= i < |steps| ==> d.failures[i] <= 2)
            && (d.phase == Disconnected ==> 99 <= d.index < |steps| + 99 && d.failures[d.index - 99] == 3)
  {
    if inputs != [] {
      DisconnectedAt(steps, w, inputs[..|inputs| - 1]);
    }
  }

  // A step that accepts nothing
  function Stubborn(): PromptStep<int> {
    PromptStep("stubborn", (input: string, results: Results, w: int) => None, None)
  }

  // In a dialog of such steps three submissions disconnect at the first, and leave the index at 99.
  lemma StubbornDisconnects(n: nat)
    requires n > 0
    ensures var steps := seq(n, _ => Stubborn()); var three := [("", 0), ("", 0), ("", 0)];
            Wellformed(steps) && Run(steps, 0, three).phase == Disconnected && Run(steps, 0, three).index == 99
  {
    var steps := seq(n, _ => Stubborn());
    var none: seq<(string, int)>, one, two, three := [], [("", 0)], [("", 0), ("", 0)], [("", 0), ("", 0), ("", 0)];
    var zero := NoFailures(n);
    assert three[..2] == two && two[..1] == one && one[..0] == none;
    assert FirstApplicable(steps, 0, map[], 0) == 0;
    assert Run(steps, 0, none) == Dialog(Waiting, 0, map[], zero);
    assert Run(steps, 0, one) == Dialog(Waiting, 0, map[], zero[0 := 1]);
    assert Run(steps, 0, two) == Dialog(Waiting, 0, map[], zero[0 := 1][0 := 2]);
  }

  // After a disconnect the index lies beyond the last step in every dialog of n steps if and only if n is
  // at most 99; in a longer dialog the index may be that of a step.
  lemma DisconnectedIsOutside(n: nat)
    ensures (forall steps: seq<PromptStep<int>>, w, inputs ::
               |steps| == n && Wellformed(steps) && Run(steps, w, inputs).phase == Disconnected ==> Run(steps, w, inputs).index >= n)
        <==> n <= 99
  {
    if n <= 99 {
      forall steps: seq<PromptStep<int>>, w, inputs | |steps| == n && Wellformed(steps) && Run(steps, w, inputs).phase == Disconnected
        ensures Run(steps, w, inputs).index >= n
      {
        DisconnectedAt(steps, w, inputs);
      }
    } else {
      StubbornDisconnects(n);
    }
  }

  // Every stored result is what the validator of its step made of one of the submissions, when the dialog
  // waited at that step with the results collected by then.
  ghost predicate Validated<W(!new)>(steps: seq<PromptStep<W>>, w: W, inputs: seq<(string, W)>, id: string, value: string)
    requires Wellformed(steps)
  {
    exists k :: 0 <= k < |inputs| && ValidatedAt(steps, w, inputs, k, id, value)
  }

  ghost predicate ValidatedAt<W(!new)>(steps: seq<PromptStep<W>>, w: W, inputs: seq<(string, W)>, k: nat, id: string, value: string)
    requires Wellformed(steps) && k < |inputs|
  {
    var d := Run(steps, w, inputs[..k]);
    d.phase == Waiting && steps[d.index].id == id && steps[d.index].validator(inputs[k].0, d.results, inputs[k].1) == Some(value)
  }

  // A submission stores at most the answer to the step it is for.
  lemma SubmitStores<W(!new)>(steps: seq<PromptStep<W>>, d: Dialog, input: string, w: W, id: string)
    requires Wellformed(steps) && InBounds(steps, d) && id in Submit(steps, d, input, w).results
    ensures var value := Submit(steps, d, input, w).results[id];
            || (id in d.results && d.results[id] == value)
            || (d.phase == Waiting && steps[d.index].id == id && steps[d.index].validator(input, d.results, w) == Some(value))
  {
    hide FirstApplicable;
  }

  lemma {:induction false} StoredIsValidated<W(!new)>(steps: seq<PromptStep<W>>, w: W, inputs: seq<(string, W)>)
    requires Wellformed(steps)
    ensures forall id :: id in Run(steps, w, inputs).results ==> Validated(steps, w, inputs, id, Run(steps, w, inputs).results[id])
  {
    hide Submit, FirstApplicable;
    if inputs != [] {
      var n := |inputs| - 1;
      StoredIsValidated(steps, w, inputs[..n]);
      var d, d' := Run(steps, w, inputs[..n]), Run(steps, w, inputs);
      forall id | id in d'.results
        ensures Validated(steps, w, inputs, id, d'.results[id])
      {
        SubmitStores(steps, d, inputs[n].0, inputs[n].1, id);
        if id in d.results && d'.results[id] == d.results[id] {
          var k :| 0 <= k < n && ValidatedAt(steps, w, inputs[..n], k, id, d.results[id]);
          assert inputs[..n][..k] == inputs[..k] && inputs[..n][k] == inputs[k];
          assert ValidatedAt(steps, w, inputs, k, id, d'.results[id]);
        } else {
          assert ValidatedAt(steps, w, inputs, n, id, d'.results[id]);
        }
      }
    }
  }

  // ---------- the handler ----------

  class PromptHandler<W(!new)> {
    const steps: seq<PromptStep<W>>
    const onComplete: (Results, W) -> bool
    var failureCounts: seq<nat>     // FailureCount of each step
    var started: bool               // there is a state for the connection
    var currentStepIndex: int
    var results: Results
    var connected: bool

    constructor (steps: seq<PromptStep<W>>, onComplete: (Results, W) -> bool)
      requires Wellformed(steps)
      ensures this.steps == steps && this.onComplete == onComplete
      ensures Valid() && !started && connected && failureCounts == NoFailures(|steps|)
    {
      this.steps, this.onComplete := steps, onComplete;
      failureCounts := NoFailures(|steps|);
      started, connected := false, true;
      currentStepIndex, results := -1, map[];
    }

    predicate Valid()
      reads this
    {
      Wellformed(steps) && |failureCounts| == |steps|
    }

    predicate AtStep()
      reads this
    {
      0 <= currentStepIndex < |steps|
    }

    // The state the handler waits in
    function Here(): (d: Dialog)
      requires Valid() && AtStep()
      reads this
      ensures InBounds(steps, d)
    {
      Dialog(Waiting, currentStepIndex, results, failureCounts)
    }

    // The fields follow the state machine; a completed dialog leaves no state behind.
    ghost predicate Follows(d: Dialog)
      reads this
    {
      currentStepIndex == d.index && results == d.results && failureCounts == d.failures && (started <==> d.phase != Completed)
    }

    // advanceAndSendPrompt, without the prompt
    method AdvanceAndSendPrompt(w: W) returns (complete: bool)
      requires Valid() && -1 <= currentStepIndex < |steps|
      modifies this`currentStepIndex
      ensures currentStepIndex == FirstApplicable(steps, old(currentStepIndex) + 1, results, w)
      ensures complete <==> currentStepIndex == |steps|
    {
      currentStepIndex := currentStepIndex + 1;
      while currentStepIndex < |steps|
        invariant 0 <= currentStepIndex <= |steps|
        invariant FirstApplicable(steps, currentStepIndex, results, w) == FirstApplicable(steps, old(currentStepIndex) + 1, results, w)
      {
        if Applies(steps[currentStepIndex], results, w) {
          return false;
        }
        currentStepIndex := currentStepIndex + 1;
      }
      return true;
    }

    // One call of the handler. submitted is the trimmed input line.
    method Handle(enterPressed: bool, submitted: string, w: W) returns (done: bool)
      requires Valid()
      modifies this
      ensures Valid()
      ensures !old(started) ==>
        var d := Begin(steps, old(failureCounts), w);
        Follows(d) && connected == old(connected) && (done <==> d.phase == Completed && onComplete(d.results, w))
      ensures old(started) && !old(AtStep()) ==>
        !started && !connected && !done && results == old(results) && failureCounts == old(failureCounts)
      ensures old(started && AtStep()) && !enterPressed ==>
        Follows(old(Here())) && connected == old(connected) && !done
      ensures old(started && AtStep()) && enterPressed ==>
        var d := Submit(steps, old(Here()), submitted, w);
        && Follows(d) && (connected <==> old(connected) && d.phase != Disconnected)
        && (done <==> d.phase == Completed && onComplete(d.results, w))
    {
      if !started {
        started, currentStepIndex, results := true, -1, map[];
        var complete := AdvanceAndSendPrompt(w);
        if complete {
          started := false;
          return onComplete(results, w);
        }
        return false;
      }
      if currentStepIndex < 0 || currentStepIndex >= |steps| {
        started, connected := false, false;
        return false;
      }
      var current := currentStepIndex;
      if !enterPressed {
        return false;
      }
      var validated := steps[current].validator(submitted, results, w);
      if validated.None? {
        if steps[current].id == VERIFY_ID {
          currentStepIndex := currentStepIndex - 1;
          current := currentStepIndex;
        }
        failureCounts := failureCounts[current := failureCounts[current] + 1];
        if failureCounts[current] >= 3 {
          connected := false;
          currentStepIndex := currentStepIndex + 99;
          return false;
        }
        return false;
      }
      results := results[steps[current].id := validated.value];
      var complete := AdvanceAndSendPrompt(w);
      if complete {
        started := false;
        return onComplete(results, w);
      }
      return false;
    }
  }
}
