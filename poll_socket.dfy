/** The live poll engine driven by socket events. One dictionary, keyed by
    the presenter's connection id, holds every poll ever created on this
    process; handlers replace, vote on, read and close its entries, and
    every broadcast is appended to an event log. Expiry timers are kept as
    the list of poll ids whose timer has been scheduled and has not fired. */
module PollSocket {
  import opened Optional
  import opened PollTally

  type Store = map<string, Poll>

  /** What `io.emit` broadcasts to every connected client. */
  datatype Event =
    | PollStarted(pollId: string, poll: Poll)
    | PollUpdate(options: seq<PollOption>)
    | PollResults(pollId: string, poll: Poll)
    | PollEnded(pollId: string, poll: Poll)

  /** How `submit-answer` ends: it returns early, throws at the option
      lookup, or records the vote. */
  datatype SubmitOutcome = Ignored | InvalidOption | Accepted

  /** Every stored poll keeps its total equal to the sum of its tallies, and
      once a vote has been counted its percentages are current. */
  ghost predicate StoreConsistent(s: Store)
  {
    forall id :: id in s ==>
      TallyConsistent(s[id]) && (s[id].totalVotes > 0 ==> PercentsCurrent(s[id]))
  }

  /** `s2` differs from `s` at most in polls that went from active to
      inactive: no key appears or disappears, and no question, option or
      tally changes. */
  ghost predicate OnlyDeactivates(s: Store, s2: Store)
  {
    && s2.Keys == s.Keys
    && forall id :: id in s ==>
         s2[id].(isActive := s[id].isActive) == s[id] && (s2[id].isActive ==> s[id].isActive)
  }

  /** `end-poll` and the expiry callback: the poll stored under `id`, if any,
      is marked inactive. */
  function Close(s: Store, id: string): (r: Store)
    ensures r.Keys == s.Keys
    ensures id in s ==> !r[id].isActive && r[id].(isActive := s[id].isActive) == s[id]
    ensures forall k :: k in s && k != id ==> r[k] == s[k]
  {
    if id in s then s[id := s[id].(isActive := false)] else s
  }

  /** Which branch `submit-answer` takes for this store and request. */
  function SubmitStatus(s: Store, pollId: string, optionIndex: int): (r: SubmitOutcome)
    ensures r == Ignored <==> pollId !in s || !s[pollId].isActive
    ensures r == Accepted <==>
      pollId in s && s[pollId].isActive && 0 <= optionIndex < |s[pollId].options|
  {
    if pollId !in s || !s[pollId].isActive then Ignored
    else if !(0 <= optionIndex < |s[pollId].options|) then InvalidOption
    else Accepted
  }

  /** Closing changes nothing but active flags, is idempotent, leaves every
      other poll alone and does nothing for an unknown id. */
  lemma CloseOnlyDeactivates(s: Store, id: string)
    ensures OnlyDeactivates(s, Close(s, id))
    ensures Close(Close(s, id), id) == Close(s, id)
    ensures id in s ==> !Close(s, id)[id].isActive
    ensures forall k :: k in s && k != id ==> Close(s, id)[k] == s[k]
    ensures id !in s ==> Close(s, id) == s
  {
  }

  /** Closing keeps every poll's tallies consistent. */
  lemma CloseKeepsConsistent(s: Store, id: string)
    requires StoreConsistent(s)
    ensures StoreConsistent(Close(s, id))
  {
  }

  /** An accepted answer keeps the store consistent, and the poll voted on
      stays active. */
  lemma TallyKeepsStoreConsistent(s: Store, pollId: string, optionIndex: int)
    requires StoreConsistent(s)
    requires SubmitStatus(s, pollId, optionIndex) == Accepted
    ensures StoreConsistent(s[pollId := Tally(s[pollId], optionIndex)])
    ensures s[pollId := Tally(s[pollId], optionIndex)][pollId].isActive
  {
  }

  /** A handler other than `create-poll`, as it reaches the dictionary. */
  datatype Handler =
    | Vote(pollId: string, optionIndex: int)
    | ReadResults(pollId: string)
    | End(pollId: string)
    | Timeout(pollId: string)
    | Leave(socketId: string)

  /** The dictionary after one handler has run. */
  function Step(s: Store, h: Handler): (r: Store)
    ensures r.Keys == s.Keys
    ensures h.ReadResults? || h.Leave? ==> r == s
    ensures !h.Leave? ==> forall k :: k in s && k != h.pollId ==> r[k] == s[k]
    ensures (h.End? || h.Timeout?) && h.pollId in s ==> !r[h.pollId].isActive
  {
    match h
    case Vote(id, i) => if SubmitStatus(s, id, i) == Accepted then s[id := Tally(s[id], i)] else s
    case ReadResults(_) => s
    case End(id) => Close(s, id)
    case Timeout(id) => Close(s, id)
    case Leave(_) => s
  }

  /** The dictionary after a run of handlers, first to last. */
  function Run(s: Store, hs: seq<Handler>): (r: Store)
    ensures r.Keys == s.Keys
  {
    if hs == [] then s else Run(Step(s, hs[0]), hs[1..])
  }

  /** `s2` keeps every poll of `s` under the same id, with the same question
      and option count, and active only if it was active in `s`. */
  ghost predicate NeverReactivated(s: Store, s2: Store)
  {
    && s2.Keys == s.Keys
    && forall id :: id in s ==>
         && s2[id].question == s[id].question
         && |s2[id].options| == |s[id].options|
         && (s2[id].isActive ==> s[id].isActive)
  }

  /** One handler keeps tallies consistent and never turns a poll back on. */
  lemma StepKeepsInvariants(s: Store, h: Handler)
    ensures StoreConsistent(s) ==> StoreConsistent(Step(s, h))
    ensures NeverReactivated(s, Step(s, h))
  {
    match h
    case Vote(id, i) =>
      if SubmitStatus(s, id, i) == Accepted {
        if StoreConsistent(s) {
          TallyKeepsStoreConsistent(s, id, i);
        }
        var t := Tally(s[id], i);
        assert t.question == s[id].question && |t.options| == |s[id].options|;
      }
    case End(id) =>
      CloseOnlyDeactivates(s, id);
    case Timeout(id) =>
      CloseOnlyDeactivates(s, id);
    case _ =>
  }

  /** Whatever votes, reads, manual ends, timer callbacks and disconnects
      arrive, in whatever order, tallies stay consistent and the active flag
      of each poll only ever goes from true to false. */
  lemma {:induction false} RunKeepsInvariants(s: Store, hs: seq<Handler>)
    ensures StoreConsistent(s) ==> StoreConsistent(Run(s, hs))
    ensures NeverReactivated(s, Run(s, hs))
  {
    if hs != [] {
      StepKeepsInvariants(s, hs[0]);
      RunKeepsInvariants(Step(s, hs[0]), hs[1..]);
    }
  }

  /** A closed poll is frozen: no later vote, end, timer, read or
      disconnect changes any part of it. */
  lemma {:induction false} ClosedPollFrozen(s: Store, hs: seq<Handler>, id: string)
    requires id in s && !s[id].isActive
    ensures id in Run(s, hs) && Run(s, hs)[id] == s[id]
  {
    if hs != [] {
      assert id in Step(s, hs[0]) && Step(s, hs[0])[id] == s[id];
      ClosedPollFrozen(Step(s, hs[0]), hs[1..], id);
    }
  }

  class PollEngine {
    /** `activePolls`, keyed by the creating connection's id. */
    var activePolls: Store
    /** Every broadcast so far, oldest first. */
    var events: seq<Event>
    /** The poll ids captured by the expiry timers still pending. */
    var timers: seq<string>

    ghost predicate Valid()
      reads this
    {
      && StoreConsistent(activePolls)
      && forall k :: 0 <= k < |timers| ==> timers[k] in activePolls
    }

    constructor ()
      ensures Valid()
      ensures activePolls == map[] && events == [] && timers == []
    {
      activePolls := map[];
      events := [];
      timers := [];
    }

    /** `create-poll` from connection `socketId`. With `options` absent the
        handler throws at `options.map` before touching the dictionary. */
    method CreatePoll(socketId: string, question: string, options: Option<seq<OptionSpec>>) returns (ok: bool)
      requires Valid()
      modifies this
      ensures Valid()
      ensures ok == options.Some?
      ensures !ok ==> activePolls == old(activePolls) && events == old(events) && timers == old(timers)
      ensures ok ==>
        && activePolls == old(activePolls)[socketId := NewPoll(question, options.value)]
        && events == old(events) + [PollStarted(socketId, NewPoll(question, options.value))]
        && timers == old(timers) + [socketId]
    {
      if options.None? {
        return false;
      }
      var poll := NewPoll(question, options.value);
      activePolls := activePolls[socketId := poll];
      events := events + [PollStarted(socketId, poll)];
      timers := timers + [socketId];
      ok := true;
    }

    /** `submit-answer`: a vote on a missing or closed poll is dropped; an
        index outside the options throws before any counter moves. */
    method SubmitAnswer(pollId: string, optionIndex: int) returns (outcome: SubmitOutcome)
      requires Valid()
      modifies this
      ensures Valid()
      ensures outcome == SubmitStatus(old(activePolls), pollId, optionIndex)
      ensures activePolls == Step(old(activePolls), Vote(pollId, optionIndex))
      ensures timers == old(timers)
      ensures outcome != Accepted ==> activePolls == old(activePolls) && events == old(events)
      ensures outcome == Accepted ==>
        events == old(events) + [PollUpdate(Tally(old(activePolls)[pollId], optionIndex).options)]
    {
      if pollId !in activePolls || !activePolls[pollId].isActive {
        return Ignored;
      }
      var poll := activePolls[pollId];
      if !(0 <= optionIndex < |poll.options|) {
        return InvalidOption;
      }
      var options := poll.options;
      options := options[optionIndex := options[optionIndex].(votes := options[optionIndex].votes + 1)];
      var totalVotes := poll.totalVotes + 1;
      var updatedOptions := Recompute(options, totalVotes);
      assert poll.(options := updatedOptions, totalVotes := totalVotes) == Tally(poll, optionIndex);
      TallyKeepsStoreConsistent(activePolls, pollId, optionIndex);
      activePolls := activePolls[pollId := poll.(options := updatedOptions, totalVotes := totalVotes)];
      events := events + [PollUpdate(updatedOptions)];
      outcome := Accepted;
    }

    /** `get-results`: broadcasts the poll if it exists; never changes it. */
    method GetResults(pollId: string) returns (found: bool)
      requires Valid()
      modifies this`events
      ensures Valid()
      ensures found == (pollId in activePolls)
      ensures activePolls == Step(old(activePolls), ReadResults(pollId))
      ensures events == old(events) + (if found then [PollResults(pollId, activePolls[pollId])] else [])
    {
      found := pollId in activePolls;
      if found {
        events := events + [PollResults(pollId, activePolls[pollId])];
      }
    }

    /** `end-poll`: anyone may close any existing poll; no owner check. */
    method EndPoll(pollId: string)
      requires Valid()
      modifies this`activePolls, this`events
      ensures Valid()
      ensures activePolls == Step(old(activePolls), End(pollId))
      ensures events == old(events) +
        (if pollId in activePolls then [PollEnded(pollId, activePolls[pollId])] else [])
    {
      if pollId in activePolls {
        var poll := activePolls[pollId];
        activePolls := activePolls[pollId := poll.(isActive := false)];
        events := events + [PollEnded(pollId, activePolls[pollId])];
      }
    }

    /** The expiry callback of the `k`-th pending timer fires: it closes
        whatever poll is stored under the id it captured. */
    method Expire(k: nat)
      requires Valid()
      requires k < |timers|
      modifies this
      ensures Valid()
      ensures timers == old(timers[..k] + timers[k + 1..])
      ensures activePolls == Step(old(activePolls), Timeout(old(timers[k])))
      ensures events == old(events) + [PollEnded(old(timers[k]), activePolls[old(timers[k])])]
    {
      var pollId := timers[k];
      timers := timers[..k] + timers[k + 1..];
      if pollId in activePolls {
        var poll := activePolls[pollId];
        activePolls := activePolls[pollId := poll.(isActive := false)];
        events := events + [PollEnded(pollId, activePolls[pollId])];
      }
    }

    /** `disconnect` only logs; the dictionary keeps the connection's poll. */
    method Disconnect(socketId: string)
      requires Valid()
      ensures Valid()
      ensures activePolls == Step(old(activePolls), Leave(socketId))
      ensures events == old(events) && timers == old(timers)
    {
    }
  }

  /** The timer scheduled by an earlier `create-poll` closes whatever poll
      is stored under that connection id when it fires, even one that a
      later `create-poll` from the same connection put there; the later
      poll's own timer is still pending. */
  method StaleTimerClosesNewerPoll(id: string, q1: string, o1: seq<OptionSpec>, q2: string, o2: seq<OptionSpec>)
    returns (e: PollEngine)
    ensures e.Valid()
    ensures e.activePolls == map[id := NewPoll(q2, o2).(isActive := false)]
    ensures e.timers == [id]
    ensures e.events == [PollStarted(id, NewPoll(q1, o1)), PollStarted(id, NewPoll(q2, o2)),
                         PollEnded(id, NewPoll(q2, o2).(isActive := false))]
  {
    e := new PollEngine();
    var ok := e.CreatePoll(id, q1, Some(o1));
    ok := e.CreatePoll(id, q2, Some(o2));
    e.Expire(0);
  }
}
