/** Counting and notifying: which wake-ups of the task can be trusted, for every interleaving. */
module DfuHandover {
  import opened Words
  import opened DfuTypes
  import opened DfuFlash
  import opened DfuMachine
  import opened DfuProtocol

  /** Some wake-up has consumed more than one notification. */
  predicate Lost(s: System) {
    s.history.consumed > s.history.wakes
  }

  function TaskBits(task: TaskPc): set<Request> {
    match task
    case Woken(bits) => bits
    case Counted(bits, _) => bits
    case _ => {}
  }

  /** The counter and the bits against the numbers of gives, notifications, wake-ups and takes. */
  predicate Counts(s: System) {
    && s.history.takes <= s.history.gives
    && s.counter == s.history.gives - s.history.takes
    && s.history.gives == s.history.notifies + (if s.servicer.Given? then 1 else 0)
    && s.history.wakes == s.history.takes + (if s.task.Woken? then 1 else 0)
    && s.history.wakes <= s.history.consumed <= s.history.notifies
    && (s.bits == {} <==> s.history.notifies == s.history.consumed)
    && (s.history.notifies == s.history.consumed + 1 ==> Selected(s.bits).Some?)
    && (s.task.Woken? && !Lost(s) ==> Selected(s.task.bits).Some?)
    && (s.task.Counted? ==> s.task.value >= 1)
    && (s.task.Counted? && s.task.value == 1 ==> Selected(s.task.bits).Some?)
    && (s.task.Counted? && Lost(s) ==> s.task.value >= 2)
    && (Lost(s) ==> !s.task.BusyBegun? && !s.task.BusyDone?)
  }

  /** An UPLOAD holds the servicer until the task has answered it. */
  predicate UploadHeld(s: System) {
    && (ReqUpload in s.bits ==> s.servicer.AwaitUpload? && !s.semaphore)
    && (ReqUpload in TaskBits(s.task) ==> s.servicer.AwaitUpload? && !s.semaphore && s.bits == {})
    && (s.semaphore ==> s.servicer.AwaitUpload? && s.task.Waiting? && s.bits == {} && !Lost(s))
  }

  predicate Handover(s: System) {
    Counts(s) && UploadHeld(s)
  }

  lemma CountsStep(layout: Layout, s: System, a: Action)
    requires Counts(s)
    ensures Counts(Next(layout, s, a))
    ensures Lost(s) ==> Lost(Next(layout, s, a))
  {
    hide Handle, BusyFlash, Forecast, PolledEarly, ResetState;
    if Enabled(s, a) && a.Notify? && s.bits == {} {
      assert s.bits + {s.servicer.request} == {s.servicer.request};
    }
  }

  lemma UploadHeldStep(layout: Layout, s: System, a: Action)
    requires Handover(s)
    ensures UploadHeld(Next(layout, s, a))
  {
    hide Handle, BusyFlash, Forecast, PolledEarly, ResetState;
    if Enabled(s, a) && a.Dispatch? && s.task.value == 1 && Selected(s.task.bits) == Some(ReqUpload) {
      UploadNotBusy(layout, s.dfu, s.flash);
    }
  }

  lemma UploadNotBusy(layout: Layout, d: DfuData, f: FlashData)
    ensures !Busy(Handle(layout, d, f, ReqUpload).state)
  {
    UploadFallThrough(layout, d, f);
  }

  lemma HandoverStep(layout: Layout, s: System, a: Action)
    requires Handover(s)
    ensures Handover(Next(layout, s, a))
    ensures Lost(s) ==> Lost(Next(layout, s, a))
  {
    hide Counts, UploadHeld, Next;
    HandoverParts(s);
    CountsStep(layout, s, a);
    UploadHeldStep(layout, s, a);
  }

  lemma HandoverParts(s: System)
    requires Handover(s)
    ensures Counts(s) && UploadHeld(s)
  {
  }

  lemma {:induction false} HandoverRun(layout: Layout, s: System, actions: seq<Action>)
    requires Handover(s)
    ensures Handover(Run(layout, s, actions))
    ensures Lost(s) ==> Lost(Run(layout, s, actions))
    decreases actions
  {
    if actions != [] {
      HandoverStep(layout, s, actions[0]);
      HandoverRun(layout, Next(layout, s, actions[0]), actions[1..]);
    }
  }

  /** In every interleaving, a task that has woken finds a positive counter. It finds 1 exactly
      when there have been as many gives as wake-ups, and then every wake-up so far has consumed
      exactly one request, nothing is pending, and the bits name that one request. */
  lemma WakeReads(layout: Layout, contents: seq<byte>, actions: seq<Action>)
    ensures var s := Run(layout, Start(contents), actions);
            s.task.Woken? ==>
              && s.counter >= 1
              && (s.counter == 1 <==> s.history.gives == s.history.wakes)
              && (s.counter == 1 ==>
                    && s.history.consumed == s.history.notifies == s.history.wakes
                    && s.bits == {}
                    && Selected(s.task.bits).Some?)
  {
    HandoverRun(layout, Start(contents), actions);
  }

  /** Once one wake-up has merged two requests, the task reads at least 2 on every later
      wake-up, whatever the host does, and acts on nothing any more: it leaves dfuERROR behind
      and never enters a busy state again. */
  lemma LostForEver(layout: Layout, contents: seq<byte>, before: seq<Action>, after: seq<Action>)
    requires Lost(Run(layout, Start(contents), before))
    ensures var s := Run(layout, Start(contents), before + after);
            && Lost(s)
            && (s.task.Woken? ==> s.counter >= 2)
            && (s.task.Counted? ==>
                  s.task.value >= 2 && Next(layout, s, Dispatch).dfu == ToError(s.dfu, ErrStalledPkt))
            && !s.task.BusyBegun? && !s.task.BusyDone?
  {
    RunAppend(layout, Start(contents), before, after);
    HandoverRun(layout, Start(contents), before);
    HandoverRun(layout, Run(layout, Start(contents), before), after);
  }

  /** After such a loss the flash is never written again. */
  lemma {:induction false} LostNeverWrites(layout: Layout, s: System, actions: seq<Action>)
    requires Handover(s) && Lost(s)
    ensures Run(layout, s, actions).flash == s.flash
    decreases actions
  {
    if actions != [] {
      HandoverStep(layout, s, actions[0]);
      LostNeverWrites(layout, Next(layout, s, actions[0]), actions[1..]);
    }
  }

  /** The task answers a waiting UPLOAD exactly when its wake-up read 1 on the counter. */
  lemma UploadAnswered(layout: Layout, contents: seq<byte>, actions: seq<Action>)
    ensures var s := Run(layout, Start(contents), actions);
            s.task.Counted? && ReqUpload in s.task.bits ==>
              && s.servicer.AwaitUpload?
              && (Next(layout, s, Dispatch).semaphore <==> s.task.value == 1)
  {
    HandoverRun(layout, Start(contents), actions);
  }

  /** After a loss nobody ever gives the upload semaphore: a servicer that waits for it waits
      in every continuation. */
  lemma {:induction false} UploadHangs(layout: Layout, s: System, actions: seq<Action>)
    requires Handover(s) && Lost(s) && s.servicer.AwaitUpload?
    ensures Run(layout, s, actions).servicer.AwaitUpload?
    ensures !Run(layout, s, actions).semaphore
    decreases actions
  {
    if actions != [] {
      HandoverStep(layout, s, actions[0]);
      UploadHangs(layout, Next(layout, s, actions[0]), actions[1..]);
    }
  }

  /** Such a loss does happen: two commands sent before the task runs are enough. */
  lemma LossHappens(layout: Layout, contents: seq<byte>)
    ensures Lost(Run(layout, Start(contents),
                     [Fill(CmdAbort), Give, Notify, Fill(CmdClrStatus), Give, Notify, Wake]))
  {
    var s0 := Start(contents);
    RunSteps(layout, s0, Fill(CmdAbort), Give, [Notify, Fill(CmdClrStatus), Give, Notify, Wake]);
    var s2 := Next(layout, Next(layout, s0, Fill(CmdAbort)), Give);
    RunSteps(layout, s2, Notify, Fill(CmdClrStatus), [Give, Notify, Wake]);
    var s4 := Next(layout, Next(layout, s2, Notify), Fill(CmdClrStatus));
    RunSteps(layout, s4, Give, Notify, [Wake]);
    RunCons(layout, Next(layout, Next(layout, s4, Give), Notify), Wake, []);
  }

  lemma RunSteps(layout: Layout, s: System, first: Action, second: Action, rest: seq<Action>)
    ensures Run(layout, s, [first, second] + rest) == Run(layout, Next(layout, Next(layout, s, first), second), rest)
  {
    RunCons(layout, s, first, [second] + rest);
    assert [first, second] + rest == [first] + ([second] + rest);
    RunCons(layout, Next(layout, s, first), second, rest);
  }

  /** And so does an UPLOAD that waits for ever: an ABORT just before it is enough. */
  lemma UploadHangHappens(layout: Layout, contents: seq<byte>)
    ensures var s := Run(layout, Start(contents),
                         [Fill(CmdAbort), Give, Notify, Fill(CmdUpload), Give, Notify, Wake]);
            Lost(s) && s.servicer.AwaitUpload?
  {
    var s0 := Start(contents);
    RunSteps(layout, s0, Fill(CmdAbort), Give, [Notify, Fill(CmdUpload), Give, Notify, Wake]);
    var s2 := Next(layout, Next(layout, s0, Fill(CmdAbort)), Give);
    RunSteps(layout, s2, Notify, Fill(CmdUpload), [Give, Notify, Wake]);
    var s4 := Next(layout, Next(layout, s2, Notify), Fill(CmdUpload));
    RunSteps(layout, s4, Give, Notify, [Wake]);
    RunCons(layout, Next(layout, Next(layout, s4, Give), Notify), Wake, []);
  }
}
