/**
 Exactly when the two results agree on a strict line: the receiver is gone once it has taken the end of
 transmission, so the one wait in which it was taken decides, and no retry can help.
 */
module Agreement {
  import opened Link
  import RL = ReceiverLog
  import SL = SenderLog

  /** The receiver has taken the end of transmission; the sender does not know, and no ACK is on its way. */
  ghost predicate Orphaned(p: Setting, s: State) {
    HasEnded(s.rx) && SL.Acks(s.tx) == |p.blocks| && !s.acked
  }

  /** The answer to the end of transmission is not heard: step i ends the wait in which it was taken. */
  ghost predicate EndUnanswered(p: Setting, steps: seq<Step>, i: nat)
    requires p.Sized()
  {
    i < |steps| && HasEnded(After(p, steps[..i]).rx) && SL.Acks(After(p, steps[..i]).tx) == |p.blocks| &&
    steps[i].Answer? && !steps[i].answer.Ack?
  }

  lemma EndedIsDone(p: Setting, rx: RL.Log)
    ensures HasEnded(rx) ==> RL.Ended(p.room, rx)
  {
  }

  /** An orphaned sender stays one, whatever the line does. */
  lemma StepKeepsOrphan(p: Setting, s: State, step: Step)
    requires p.Sized() && p.strict && Orphaned(p, s) && Enabled(p, s, step)
    ensures Orphaned(p, Next(p, s, step))
  {
    hide SL.Acks, SL.Misses, SL.Done, RL.Ended, RL.Hear, SL.Item, IsRound, IsWait;
    EndedIsDone(p, s.rx);
    if step.Answer? {
      SL.Extend(|p.blocks|, s.tx, step.answer);
    }
  }

  lemma AfterLast(p: Setting, steps: seq<Step>)
    requires p.Sized() && steps != [] && Possible(p, steps)
    ensures var before, last := steps[..|steps| - 1], steps[|steps| - 1];
            Possible(p, before) && Enabled(p, After(p, before), last) &&
            After(p, steps) == Next(p, After(p, before), last)
  {
    hide Enabled, Next;
  }

  lemma {:induction false} OrphanedForGood(p: Setting, steps: seq<Step>, i: nat)
    requires p.Sized() && p.strict && Possible(p, steps) && i <= |steps| && Orphaned(p, After(p, steps[..i]))
    ensures Orphaned(p, After(p, steps))
    decreases |steps|
  {
    hide Orphaned, Enabled, Next, Possible, After;
    if i == |steps| {
      assert steps[..i] == steps;
    } else {
      var before := steps[..|steps| - 1];
      assert before[..i] == steps[..i];
      AfterLast(p, steps);
      OrphanedForGood(p, before, i);
      StepKeepsOrphan(p, After(p, before), steps[|steps| - 1]);
    }
  }

  lemma {:induction false} PrefixPossible(p: Setting, steps: seq<Step>, i: nat)
    requires p.Sized() && Possible(p, steps) && i <= |steps|
    ensures Possible(p, steps[..i])
    ensures i < |steps| ==> Enabled(p, After(p, steps[..i]), steps[i]) &&
                            After(p, steps[..i + 1]) == Next(p, After(p, steps[..i]), steps[i])
    decreases |steps|
  {
    hide Enabled, Next, Possible, After;
    if i == |steps| {
      assert steps[..i] == steps;
    } else {
      var before := steps[..|steps| - 1];
      AfterLast(p, steps);
      PrefixPossible(p, before, i);
      assert before[..i] == steps[..i];
      if i + 1 < |steps| {
        assert before[..i + 1] == steps[..i + 1];
      } else {
        assert steps[..i + 1] == steps;
      }
    }
  }

  /** An unanswered end of transmission makes an orphan, and for good. */
  lemma UnansweredOrphans(p: Setting, steps: seq<Step>, i: nat)
    requires p.Sized() && p.strict && Possible(p, steps) && EndUnanswered(p, steps, i)
    ensures Orphaned(p, After(p, steps))
  {
    hide Possible, After, Enabled, SL.Acks, SL.Misses, SL.Done;
    PrefixPossible(p, steps, i);
    SL.Extend(|p.blocks|, After(p, steps[..i]).tx, steps[i].answer);
    OrphanedForGood(p, steps, i + 1);
  }

  /** A step that makes an orphan ends the wait in which the end of transmission was taken. */
  lemma StepOrphans(p: Setting, s: State, step: Step)
    requires p.Sized() && p.strict && InStep(p, s) && Enabled(p, s, step)
    requires !Orphaned(p, s) && Orphaned(p, Next(p, s, step))
    ensures HasEnded(s.rx) && SL.Acks(s.tx) == |p.blocks| && step.Answer? && !step.answer.Ack?
  {
    hide SL.Acks, SL.Misses, SL.Done, RL.Ended, SL.Item, IsRound, IsWait, RL.Accepted;
    EndedIsDone(p, s.rx);
    if step.Answer? {
      SL.Extend(|p.blocks|, s.tx, step.answer);
    }
  }

  lemma {:induction false} OrphanWasUnanswered(p: Setting, steps: seq<Step>) returns (i: nat)
    requires p.Valid() && p.strict && Possible(p, steps) && Orphaned(p, After(p, steps))
    ensures EndUnanswered(p, steps, i)
    decreases |steps|
  {
    hide Enabled, Next, Possible, Orphaned, InStep, Sound;
    if steps == [] {
      NoOrphanAtStart(p);
    } else {
      var before, last := steps[..|steps| - 1], steps[|steps| - 1];
      AfterLast(p, steps);
      if Orphaned(p, After(p, before)) {
        i := OrphanWasUnanswered(p, before);
        assert before[..i] == steps[..i] && before[i] == steps[i];
      } else {
        InvariantHolds(p, before);
        StepOrphans(p, After(p, before), last);
        i := |steps| - 1;
      }
    }
  }

  lemma NoOrphanAtStart(p: Setting)
    requires p.Sized()
    ensures !Orphaned(p, After(p, []))
  {
  }

  /**
   If the wait in which the end of transmission was taken ends without an ACK, the sender returns -1,
   whatever follows.
   */
  lemma {:induction false} UnansweredEndFails(p: Setting, steps: seq<Step>, i: nat)
    requires p.Valid() && p.strict && Possible(p, steps) && EndUnanswered(p, steps, i)
    ensures SL.Result(p.blocks, After(p, steps).tx) == -1
  {
    hide Possible, After, SL.Acks, EndUnanswered;
    UnansweredOrphans(p, steps, i);
  }

  /** Both sides done: the results differ exactly for an orphaned sender. */
  lemma {:induction false} AgreeUnlessOrphaned(p: Setting, steps: seq<Step>)
    requires p.Valid() && p.strict && Possible(p, steps)
    requires SenderDone(p, After(p, steps)) && ReceiverDone(p, After(p, steps))
    ensures SL.Result(p.blocks, After(p, steps).tx) == RL.Result(p.room, After(p, steps).rx) <==>
            !Orphaned(p, After(p, steps))
  {
    hide Possible, After, SL.Acks, SL.Misses, RL.Accepted, RL.Payload, RL.Stored, SL.Concat, ReceiverHeard, SenderHeard;
    InvariantHolds(p, steps);
    InStepSafety(p, steps);
  }

  ghost predicate BothDone(p: Setting, s: State) { SenderDone(p, s) && ReceiverDone(p, s) }

  ghost predicate ResultsAgree(p: Setting, s: State) { SL.Result(p.blocks, s.tx) == RL.Result(p.room, s.rx) }

  /**
   Exactly when the two results agree, once both sides are done: unless the wait in which the end of
   transmission was taken ended without an ACK.
   */
  lemma {:induction false} AgreementIff(p: Setting, steps: seq<Step>, s: State)
    requires p.Valid() && p.strict && Possible(p, steps) && s == After(p, steps) && BothDone(p, s)
    ensures ResultsAgree(p, s) <==> !exists i: nat :: EndUnanswered(p, steps, i)
  {
    hide Possible, After, SL.Result, RL.Result, SL.Done, RL.Ended, Orphaned, EndUnanswered;
    AgreeUnlessOrphaned(p, steps);
    if Orphaned(p, s) {
      var i := OrphanWasUnanswered(p, steps);
    } else if exists i: nat :: EndUnanswered(p, steps, i) {
      var i: nat :| EndUnanswered(p, steps, i);
      UnansweredOrphans(p, steps, i);
    }
  }
}
