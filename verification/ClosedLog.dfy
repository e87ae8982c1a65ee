/** The life of a log instance: when it opens, that it opens once, and that it does nothing after its end. */
module ClosedLog {
  import opened Storage
  import opened TailRecovery
  import opened AuditLogSpec

  predicate NoRestart(events: seq<Event>) {
    forall i :: 0 <= i < |events| ==> !events[i].Restart?
  }

  lemma RunAfter(w: World, g: Grammar, config: Config, events: seq<Event>, e: Event)
    ensures Run(w, g, config, events + [e]) == Step(Run(w, g, config, events), g, config, e)
  {
    assert (events + [e])[..|events|] == events;
  }

  lemma {:induction false} RunJoins(w: World, g: Grammar, config: Config, a: seq<Event>, b: seq<Event>)
    ensures Run(w, g, config, a + b) == Run(Run(w, g, config, a), g, config, b)
    decreases |b|
  {
    if b == [] {
      assert a + b == a;
    } else {
      var init, last := b[..|b| - 1], b[|b| - 1];
      assert a + b == (a + init) + [last];
      RunJoins(w, g, config, a, init);
      RunAfter(w, g, config, a + init, last);
    }
  }

  /** An instance that is over stays what it is, and keeps its hands off the directory. */
  lemma {:induction false} OverUntilRestart(w: World, g: Grammar, config: Config, events: seq<Event>)
    requires (w.instance.ClosedByHost? || w.instance.Ended?) && NoRestart(events)
    ensures Run(w, g, config, events) == w
    decreases |events|
  {
    if events != [] {
      OverUntilRestart(w, g, config, events[..|events| - 1]);
    }
  }

  /**
   After a close, until the next restart, the log changes nothing and forgets
   nothing, and every append is refused as closed, unless the process had been
   killed before.
   */
  lemma ClosedRefuses(w: World, g: Grammar, config: Config, before: seq<Event>, after: seq<Event>, e: Event)
    requires NoRestart(after) && e.AppendCall?
    ensures var closing := Run(w, g, config, before);
      var closed := Run(w, g, config, before + [Close] + after);
      && closed.files == closing.files && closed.history == closing.history
      && (!closing.instance.Ended? ==> Answer(closed, g, config, e).status == Failed(AuditError.Closed))
      && !Answer(closed, g, config, e).status.Running?
      && Step(closed, g, config, e).files == closing.files
      && Step(closed, g, config, e).history == closing.history
  {
    RunAfter(w, g, config, before, Close);
    RunJoins(w, g, config, before + [Close], after);
    OverUntilRestart(Run(w, g, config, before + [Close]), g, config, after);
  }

  /** A process that was killed in an append does nothing more until the next restart. */
  lemma KilledDoesNothing(w: World, g: Grammar, config: Config, kill: Event, after: seq<Event>)
    requires kill.AppendCall? && !kill.survives && Answer(w, g, config, kill).status.Interrupted?
    requires NoRestart(after)
    ensures var killed := Run(w, g, config, [kill] + after);
      && killed.files == Answer(w, g, config, kill).files
      && killed.history == Step(w, g, config, kill).history
      && forall e: Event :: e.AppendCall? ==> !Answer(killed, g, config, e).status.Running?
  {
    RunAfter(w, g, config, [], kill);
    assert [] + [kill] == [kill];
    RunJoins(w, g, config, [kill], after);
    OverUntilRestart(Step(w, g, config, kill), g, config, after);
  }

  /** Opening the log again after any run makes a fresh instance of it, on the same directory and history. */
  lemma RestartIsFresh(w: World, g: Grammar, config: Config, events: seq<Event>)
    ensures var before := Run(w, g, config, events);
      Run(w, g, config, events + [Restart]) == World(before.files, Fresh, before.history)
  {
    RunAfter(w, g, config, events, Restart);
  }

  // ----- opening -----

  predicate Surviving(events: seq<Event>) {
    forall i :: 0 <= i < |events| ==> events[i].AppendCall? && events[i].survives
  }

  /** An instance whose opening failed is as good as a new one: its next append opens it again. */
  lemma FailedOpeningIsForgotten(w: World, g: Grammar, config: Config, e: Event)
    requires e.AppendCall? && e.survives && w.instance.Fresh?
    requires !RecoverLog(Disk(w.files, e.fuel, e.tear, Running), g, config, e.now).status.Running?
    ensures Run(w, g, config, [e]) == Run(w, g, config, [e] + [Restart])
    ensures Run(w, g, config, [e]).history == w.history
  {
    RunAfter(w, g, config, [], e);
    assert [] + [e] == [e];
    RunAfter(w, g, config, [e], Restart);
  }

  /** An instance whose opening succeeded never opens again, whatever becomes of its appends. */
  lemma {:induction false} OpensOnce(w: World, g: Grammar, config: Config, opening: Event, events: seq<Event>, e: Event)
    requires opening.AppendCall? && opening.survives && w.instance.Fresh?
    requires RecoverLog(Disk(w.files, opening.fuel, opening.tear, Running), g, config, opening.now).status.Running?
    requires Surviving(events) && e.AppendCall?
    ensures var open := Run(w, g, config, [opening] + events);
      && open.instance.Ready?
      && Answer(open, g, config, e)
         == AppendRecord(Disk(open.files, e.fuel, e.tear, Running), config, e.record, e.transaction, e.now)
    decreases |events|
  {
    if events == [] {
      RunAfter(w, g, config, [], opening);
      assert [] + [opening] == [opening] && [opening] + events == [opening];
    } else {
      var init, last := events[..|events| - 1], events[|events| - 1];
      OpensOnce(w, g, config, opening, init, last);
      assert [opening] + events == ([opening] + init) + [last];
      RunAfter(w, g, config, [opening] + init, last);
    }
  }
}
