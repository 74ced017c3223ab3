/** What a connection remembers of gaps over whole runs, and which failures of an exchange close its socket. */
module ConnectionGaps {
  import opened Outcomes
  import opened Connections

  /** The offer that step `a` hands to `update`: of a status frame, or of the event a receive returned. */
  function Offered(c: Connection, a: Action): Option<Offer>
    requires Enabled(c, a)
  {
    if !a.Take? then None
    else
      match c.sockets[c.channel].packets[0]
      case Status(offer) => Some(offer)
      case Reply(_, refusal, event) => if refusal.None? && !c.opening then event else None
      case _ => None
  }

  ghost function Offers(caller: Caller, states: seq<Connection>, acts: seq<Action>, k: nat): seq<Offer>
    requires IsRun(caller, states, acts) && k <= |acts|
  {
    if k == 0 then []
    else
      Offers(caller, states, acts, k - 1)
      + match Offered(states[k - 1], acts[k - 1]) case None => [] case Some(offer) => [offer]
  }

  lemma GapsStep(caller: Caller, c: Connection, a: Action)
    requires Enabled(c, a)
    ensures Apply(caller, c, a).gaps
            == match Offered(c, a) case None => c.gaps case Some(offer) => Update(c.gaps, offer, false).0
  {
  }

  lemma RememberedAppend(offers: seq<Offer>, offer: Offer)
    ensures Remembered(offers + [offer]) == Update(Remembered(offers), offer, false).0
  {
    assert (offers + [offer])[..|offers|] == offers;
  }

  /** In every run the gap count a connection remembers is that of the offers it was handed, over all its sockets. */
  lemma {:induction false} GapsAreRemembered(caller: Caller, states: seq<Connection>, acts: seq<Action>, k: nat)
    requires IsRun(caller, states, acts) && k <= |acts|
    ensures states[k].gaps == Remembered(Offers(caller, states, acts, k))
  {
    hide Apply, Enabled, Update, Remembered;
    if k == 0 {
      assert states[0] == START && Remembered([]) == -1 by { NothingRemembered(); }
    } else {
      GapsAreRemembered(caller, states, acts, k - 1);
      GapsStep(caller, states[k - 1], acts[k - 1]);
      var before := Offers(caller, states, acts, k - 1);
      match Offered(states[k - 1], acts[k - 1])
      case None => assert before + [] == before;
      case Some(offer) => RememberedAppend(before, offer);
    }
  }

  lemma NothingRemembered()
    ensures Remembered([]) == -1
  {
  }

  // ----- Failures of an exchange -----

  /** The frame taken is a status that `update` refuses. */
  predicate UpdateFails(caller: Caller, c: Connection, a: Action)
    requires Enabled(c, a)
  {
    && a.Take? && c.sockets[c.channel].packets[0].Status?
    && Update(c.gaps, c.sockets[c.channel].packets[0].offer, caller.onGapError).1.Some?
  }

  /** The exchange under way ends with an error in step `a`: nothing is returned, and nothing more is awaited. */
  predicate ExchangeFails(caller: Caller, c: Connection, a: Action)
    requires Enabled(c, a)
  {
    && c.phase.Waiting? && (a.Take? || a.Drained? || a.Cut?)
    && !Apply(caller, c, a).phase.Waiting? && Apply(caller, c, a).answers == c.answers
  }

  /** An exchange that fails leaves its connection without a socket, and the one it had closed, exactly unless the error
      is that of `update` on a connection that is open. */
  lemma FailuresClose(caller: Caller, c: Connection, a: Action)
    requires Enabled(c, a) && ExchangeFails(caller, c, a) && c.socket.Some? && c.socket.value < |c.sockets|
    ensures var c' := Apply(caller, c, a);
            && (c'.socket.None? <==> !UpdateFails(caller, c, a) || c.opening)
            && (c'.socket.None? ==> |c'.sockets| == |c.sockets| && !c'.sockets[c.socket.value].open)
            && (UpdateFails(caller, c, a) && !c.opening ==> c'.socket == c.socket)
  {
  }
}
