/** After a close the boundary answers nothing, records nothing and keeps its policy, until a restart. */
module ClosedBoundary {
  import opened Common
  import opened EnforcementSpec
  import AuditLogSpec

  predicate NoRestart(events: seq<Event>) {
    forall i :: 0 <= i < |events| ==> !events[i].RestartEvent?
  }

  /** Nothing of the host can change: its log is closed, or its process was killed. */
  predicate Over(h: Host) {
    h.world.instance.ClosedByHost? || h.world.instance.Ended?
  }

  lemma OverDoesNothing(t: Trace, s: AuditSetup, e: Event)
    requires Over(t.host) && !e.RestartEvent?
    ensures var t' := Step(t, s, e);
      t'.host == t.host && t'.records == t.records && t'.answers == t.answers
  {
    assert t.records + [] == t.records && t.answers + [] == t.answers;
  }

  lemma {:induction false} OverUntilRestart(s: AuditSetup, events: seq<Event>, after: seq<Event>)
    requires Over(Run(s, events).host) && NoRestart(after)
    ensures var t, t' := Run(s, events), Run(s, events + after);
      t'.host == t.host && t'.records == t.records && t'.answers == t.answers
    decreases |after|
  {
    if after == [] {
      assert events + after == events;
    } else {
      var init, last := after[..|after| - 1], after[|after| - 1];
      OverUntilRestart(s, events, init);
      assert (events + after)[..|events + after| - 1] == events + init;
      assert (events + after)[|events + after| - 1] == last;
      OverDoesNothing(Run(s, events + init), s, last);
    }
  }

  /**
   From a close to the next restart: no event adds an answer or a record, no file
   changes, and the active policy stays.
   */
  lemma ClosedBoundaryIsSilent(s: AuditSetup, before: seq<Event>, after: seq<Event>)
    requires NoRestart(after)
    ensures var t, t' := Run(s, before), Run(s, before + [CloseEvent] + after);
      && t'.answers == t.answers && t'.records == t.records
      && t'.host.active == t.host.active
      && t'.host.world.files == t.host.world.files && t'.host.world.history == t.host.world.history
  {
    var events := before + [CloseEvent];
    assert events[..|events| - 1] == before;
    var t := Run(s, before);
    assert t.records + [] == t.records && t.answers + [] == t.answers;
    OverUntilRestart(s, events, after);
  }

  /** A new process starts without a policy, on the directory and the history that it finds. */
  lemma RestartForgetsPolicy(s: AuditSetup, events: seq<Event>)
    ensures var t, t' := Run(s, events), Run(s, events + [RestartEvent]);
      && t'.host.active == None && t'.answers == t.answers && t'.records == t.records
      && t'.host.world.files == t.host.world.files && t'.host.world.history == t.host.world.history
  {
    var all := events + [RestartEvent];
    assert all[..|all| - 1] == events;
    var t := Run(s, events);
    assert t.records + [] == t.records && t.answers + [] == t.answers;
  }
}
