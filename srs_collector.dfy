/** The SRS data collector: events from the beam-interface producer and
    from the SRS producer wait in two FIFOs; the fronts are matched by
    trigger number, the smaller front is dropped on a mismatch, and a
    match is written out as one event wrapping the pair. */
module SrsCollector {
  import opened Bytes
  import opened Events

  const BifProducer: string := "caliceahcalbifProducer"
  const CalProducer: string := "Srs1"
  const SrsProducer: string := "srsProducer"
  const StartTag: string := "ROCStartTS"
  const BacklogLimit: nat := 1000

  /** The event written for a matching pair: the trigger number and time
      stamps of the beam-interface event, and both events as sub-events,
      beam-interface event first. */
  datatype Wrapped = Wrapped(triggerN: Word32, tsBegin: Word64, tsEnd: Word64, subEvents: seq<Event>)

  function Wrap(bif: Event, cal: Event): (w: Wrapped)
    requires bif.triggerN == cal.triggerN
    ensures w.subEvents == [bif, cal]
    ensures w.triggerN == bif.triggerN == cal.triggerN
    ensures w.tsBegin == bif.tsBegin && w.tsEnd == bif.tsEnd
  {
    Wrapped(bif.triggerN, bif.tsBegin, bif.tsEnd, [bif, cal])
  }

  /** A written event pairs two events of the same trigger number and
      carries the first one's trigger number and time stamps. */
  predicate WellWrapped(w: Wrapped)
  {
    |w.subEvents| == 2
    && w.triggerN == w.subEvents[0].triggerN == w.subEvents[1].triggerN
    && w.tsBegin == w.subEvents[0].tsBegin && w.tsEnd == w.subEvents[0].tsEnd
  }

  /** How the matching loop leaves the two queues, and what it wrote. */
  datatype Matched = Matched(bif: seq<Event>, cal: seq<Event>, written: seq<Wrapped>)

  /** The matching loop: while both queues hold an event, compare the
      fronts; drop the one with the smaller trigger number, or write the
      pair and drop both. */
  function Match(bif: seq<Event>, cal: seq<Event>): Matched
    decreases |bif| + |cal|
  {
    if bif == [] || cal == [] then Matched(bif, cal, [])
    else if bif[0].triggerN > cal[0].triggerN then Match(bif, cal[1..])
    else if bif[0].triggerN < cal[0].triggerN then Match(bif[1..], cal)
    else
      var r := Match(bif[1..], cal[1..]);
      r.(written := [Wrap(bif[0], cal[0])] + r.written)
  }

  /** s is what is left of t after elements were taken off its front. */
  predicate IsSuffix(s: seq<Event>, t: seq<Event>)
  {
    |s| <= |t| && s == t[|t| - |s|..]
  }

  lemma SuffixOfTail(s: seq<Event>, t: seq<Event>)
    requires t != [] && IsSuffix(s, t[1..])
    ensures IsSuffix(s, t)
  {
    assert t[1..][|t| - 1 - |s|..] == t[|t| - |s|..];
  }

  predicate AllWellWrapped(ws: seq<Wrapped>)
  {
    forall i :: 0 <= i < |ws| ==> WellWrapped(ws[i])
  }

  /** After matching one queue is empty, what is left of each queue is a
      suffix of it, every written event is a well-formed pair, and no more
      events are written than were taken off either queue. */
  lemma {:induction false} MatchShape(bif: seq<Event>, cal: seq<Event>)
    ensures var r := Match(bif, cal);
      && (r.bif == [] || r.cal == [])
      && IsSuffix(r.bif, bif) && IsSuffix(r.cal, cal)
      && AllWellWrapped(r.written)
      && |r.written| <= |bif| - |r.bif| && |r.written| <= |cal| - |r.cal|
    decreases |bif| + |cal|
  {
    if bif == [] || cal == [] {
      assert bif[|bif| - |bif|..] == bif;
      assert cal[|cal| - |cal|..] == cal;
    } else if bif[0].triggerN > cal[0].triggerN {
      MatchShape(bif, cal[1..]);
      SuffixOfTail(Match(bif, cal).cal, cal);
    } else if bif[0].triggerN < cal[0].triggerN {
      MatchShape(bif[1..], cal);
      SuffixOfTail(Match(bif, cal).bif, bif);
    } else {
      var r := Match(bif[1..], cal[1..]);
      MatchShape(bif[1..], cal[1..]);
      SuffixOfTail(r.bif, bif);
      SuffixOfTail(r.cal, cal);
      var w := [Wrap(bif[0], cal[0])] + r.written;
      assert AllWellWrapped(w) by {
        forall i | 0 <= i < |w| ensures WellWrapped(w[i]) {
          if i > 0 {
            assert w[i] == r.written[i - 1];
          }
        }
      }
    }
  }

  /** s can be obtained from t by deleting elements. */
  predicate IsSubsequence(s: seq<Event>, t: seq<Event>)
    decreases |t|
  {
    s == [] || (t != [] && ((s[0] == t[0] && IsSubsequence(s[1..], t[1..])) || IsSubsequence(s, t[1..])))
  }

  /** The j-th sub-event of every written event, in order. */
  function SubEvents(ws: seq<Wrapped>, j: nat): (r: seq<Event>)
    ensures |r| <= |ws|
  {
    if ws == [] then []
    else (if j < |ws[0].subEvents| then [ws[0].subEvents[j]] else []) + SubEvents(ws[1..], j)
  }

  lemma SubEventsCons(w: Wrapped, ws: seq<Wrapped>, j: nat)
    requires j < |w.subEvents|
    ensures SubEvents([w] + ws, j) == [w.subEvents[j]] + SubEvents(ws, j)
  {
    assert ([w] + ws)[1..] == ws;
  }

  /** One step of the matching consumes the front of a queue t, leaving
      `left` events: a subsequence of what the rest of the matching consumed
      from t[1..] is also one of what is consumed from t, with or without
      the front in front of it. */
  lemma ConsumedStep(t: seq<Event>, left: nat, s: seq<Event>)
    requires t != [] && left < |t| && IsSubsequence(s, t[1..][..|t| - 1 - left])
    ensures IsSubsequence(s, t[..|t| - left]) && IsSubsequence([t[0]] + s, t[..|t| - left])
  {
    var u := t[..|t| - left];
    assert u[0] == t[0] && u[1..] == t[1..][..|t| - 1 - left];
    assert ([t[0]] + s)[0] == t[0] && ([t[0]] + s)[1..] == s;
  }

  /** The beam-interface sub-events written are, in order, a subsequence
      of the beam-interface events the matching consumed. */
  lemma {:induction false} MatchTakesBifInOrder(bif: seq<Event>, cal: seq<Event>)
    ensures var r := Match(bif, cal);
      && |r.bif| <= |bif|
      && IsSubsequence(SubEvents(r.written, 0), bif[..|bif| - |r.bif|])
    decreases |bif| + |cal|
  {
    var r := Match(bif, cal);
    if bif == [] || cal == [] {
      assert SubEvents(r.written, 0) == [];
    } else if bif[0].triggerN > cal[0].triggerN {
      assert r == Match(bif, cal[1..]);
      MatchTakesBifInOrder(bif, cal[1..]);
    } else if bif[0].triggerN < cal[0].triggerN {
      assert r == Match(bif[1..], cal);
      MatchTakesBifInOrder(bif[1..], cal);
      ConsumedStep(bif, |r.bif|, SubEvents(r.written, 0));
    } else {
      var rest := Match(bif[1..], cal[1..]);
      assert r == rest.(written := [Wrap(bif[0], cal[0])] + rest.written);
      MatchTakesBifInOrder(bif[1..], cal[1..]);
      SubEventsCons(Wrap(bif[0], cal[0]), rest.written, 0);
      assert SubEvents(r.written, 0) == [bif[0]] + SubEvents(rest.written, 0);
      ConsumedStep(bif, |r.bif|, SubEvents(rest.written, 0));
    }
  }

  /** The SRS sub-events written are, in order, a subsequence of the SRS
      events the matching consumed. */
  lemma {:induction false} MatchTakesCalInOrder(bif: seq<Event>, cal: seq<Event>)
    ensures var r := Match(bif, cal);
      && |r.cal| <= |cal|
      && IsSubsequence(SubEvents(r.written, 1), cal[..|cal| - |r.cal|])
    decreases |bif| + |cal|
  {
    var r := Match(bif, cal);
    if bif == [] || cal == [] {
    } else if bif[0].triggerN > cal[0].triggerN {
      MatchTakesCalInOrder(bif, cal[1..]);
      ConsumedStep(cal, |r.cal|, SubEvents(r.written, 1));
    } else if bif[0].triggerN < cal[0].triggerN {
      MatchTakesCalInOrder(bif[1..], cal);
    } else {
      var rest := Match(bif[1..], cal[1..]);
      MatchTakesCalInOrder(bif[1..], cal[1..]);
      SubEventsCons(Wrap(bif[0], cal[0]), rest.written, 1);
      ConsumedStep(cal, |r.cal|, SubEvents(rest.written, 1));
    }
  }

  predicate SameTriggers(bif: seq<Event>, cal: seq<Event>)
  {
    |bif| == |cal| && forall i :: 0 <= i < |bif| ==> bif[i].triggerN == cal[i].triggerN
  }

  /** Queues that carry the same trigger numbers in the same order are
      matched pair by pair, and both end empty. */
  lemma {:induction false} AlignedQueuesAllMatched(bif: seq<Event>, cal: seq<Event>)
    requires SameTriggers(bif, cal)
    ensures Match(bif, cal).bif == [] && Match(bif, cal).cal == []
    ensures |Match(bif, cal).written| == |bif|
    ensures forall i :: 0 <= i < |bif| ==> Match(bif, cal).written[i].subEvents == [bif[i], cal[i]]
    decreases |bif|
  {
    if bif != [] {
      assert SameTriggers(bif[1..], cal[1..]) by {
        forall i | 0 <= i < |bif[1..]| ensures bif[1..][i].triggerN == cal[1..][i].triggerN {
          assert bif[1..][i] == bif[i + 1] && cal[1..][i] == cal[i + 1];
        }
      }
      AlignedQueuesAllMatched(bif[1..], cal[1..]);
      var w := Match(bif, cal).written;
      forall i | 0 <= i < |bif| ensures w[i].subEvents == [bif[i], cal[i]] {
        if i > 0 {
          assert w[i] == Match(bif[1..], cal[1..]).written[i - 1];
          assert bif[1..][i - 1] == bif[i] && cal[1..][i - 1] == cal[i];
        }
      }
    }
  }

  function Ev(n: Word32): Event
  {
    Event(n, 0, 0, false, true, map[])
  }

  /** A beam-interface event without partner is dropped once the SRS side
      has moved past its trigger number; the later SRS event waits. */
  lemma SkewedFrontDropped()
    ensures Match([Ev(5)], [Ev(7)]) == Matched([], [Ev(7)], [])
    ensures Match([Ev(5), Ev(7)], [Ev(7)]) == Matched([], [], [Wrap(Ev(7), Ev(7))])
  {
    assert [Ev(5)][1..] == [];
    assert [Ev(5), Ev(7)][1..] == [Ev(7)];
    assert [Ev(7)][1..] == [];
  }

  // ---------------------------------------------------------------------
  // Receiving
  // ---------------------------------------------------------------------

  datatype SrsState = SrsState(tsBoreBif: Word64, tsBoreCal: Word64, bif: seq<Event>, cal: seq<Event>)

  /** Routing by producer name. A begin-of-run event also sets its side's
      start time stamp from its ROCStartTS tag, keeping the old value when
      the tag is missing. Events from any other producer go nowhere. */
  function Route(s: SrsState, id: Connection, ev: Event): (r: SrsState)
    ensures r.bif == (if id.name == BifProducer then s.bif + [ev] else s.bif)
    ensures r.cal == (if id.name == CalProducer then s.cal + [ev] else s.cal)
    ensures r.tsBoreBif != s.tsBoreBif ==> id.name == BifProducer && ev.bore && r.tsBoreBif == GetTag(ev, StartTag, s.tsBoreBif)
    ensures r.tsBoreCal != s.tsBoreCal ==> id.name == CalProducer && ev.bore && r.tsBoreCal == GetTag(ev, StartTag, s.tsBoreCal)
    ensures id.name == BifProducer && ev.bore ==> r.tsBoreBif == GetTag(ev, StartTag, s.tsBoreBif)
    ensures id.name == CalProducer && ev.bore ==> r.tsBoreCal == GetTag(ev, StartTag, s.tsBoreCal)
    ensures id.name != BifProducer && id.name != CalProducer ==> r == s
  {
    if id.name == BifProducer then
      var ts := if ev.bore then GetTag(ev, StartTag, s.tsBoreBif) else s.tsBoreBif;
      s.(tsBoreBif := ts, bif := s.bif + [ev])
    else if id.name == CalProducer then
      var ts := if ev.bore then GetTag(ev, StartTag, s.tsBoreCal) else s.tsBoreCal;
      s.(tsBoreCal := ts, cal := s.cal + [ev])
    else s
  }

  /** One DoReceive: route, then match, then flag a backlog. */
  function Receive(s: SrsState, id: Connection, ev: Event): (r: (SrsState, seq<Wrapped>))
  {
    var routed := Route(s, id, ev);
    var m := Match(routed.bif, routed.cal);
    (routed.(bif := m.bif, cal := m.cal), m.written)
  }

  /** After a receive one queue is empty, what is left are suffixes of the
      queues with the new event appended, the time stamps are those routing
      set, and every written event is a well-formed pair. */
  lemma ReceiveProperties(s: SrsState, id: Connection, ev: Event)
    ensures var r := Receive(s, id, ev).0; r.bif == [] || r.cal == []
    ensures var r, routed := Receive(s, id, ev).0, Route(s, id, ev);
      && r.tsBoreBif == routed.tsBoreBif && r.tsBoreCal == routed.tsBoreCal
      && IsSuffix(r.bif, routed.bif) && IsSuffix(r.cal, routed.cal)
    ensures AllWellWrapped(Receive(s, id, ev).1)
  {
    var routed := Route(s, id, ev);
    MatchShape(routed.bif, routed.cal);
  }

  /** With a queue left empty by the previous receive, an SRS event whose
      trigger number matches the single waiting beam-interface event is
      written with it at once. */
  lemma MatchingPartnerWritten(s: SrsState, id: Connection, ev: Event)
    requires id.name == CalProducer && s.cal == [] && |s.bif| == 1
    requires s.bif[0].triggerN == ev.triggerN
    ensures Receive(s, id, ev).1 == [Wrap(s.bif[0], ev)]
    ensures Receive(s, id, ev).0.bif == [] && Receive(s, id, ev).0.cal == []
  {
    var routed := Route(s, id, ev);
    assert routed.cal == [ev] && routed.bif == s.bif;
    assert routed.bif[1..] == [] && routed.cal[1..] == [];
    assert Match([], []) == Matched([], [], []);
    assert Match(routed.bif, routed.cal) == Matched([], [], [Wrap(s.bif[0], ev)]);
  }

  /** The while loop of DoReceive, on the two queues. */
  method MatchLoop(bif0: seq<Event>, cal0: seq<Event>) returns (m: Matched)
    ensures m == Match(bif0, cal0)
  {
    var bif, cal := bif0, cal0;
    var written := [];
    while bif != [] && cal != []
      invariant Match(bif0, cal0) == Match(bif, cal).(written := written + Match(bif, cal).written)
      decreases |bif| + |cal|
    {
      var evBif, evCal := bif[0], cal[0];
      if evBif.triggerN > evCal.triggerN {
        cal := cal[1..];
        continue;
      } else if evBif.triggerN < evCal.triggerN {
        bif := bif[1..];
        continue;
      }
      var wrap := Wrapped(evBif.triggerN, evBif.tsBegin, evBif.tsEnd, [evBif, evCal]);
      bif, cal := bif[1..], cal[1..];
      written := written + [wrap];
    }
    m := Matched(bif, cal, written);
  }

  // ---------------------------------------------------------------------
  // The collector object
  // ---------------------------------------------------------------------

  class SrsDataCollector {
    var tsBoreBif: Word64
    var tsBoreCal: Word64
    var queBif: seq<Event>
    var queCal: seq<Event>

    function State(): SrsState
      reads this
    {
      SrsState(tsBoreBif, tsBoreCal, queBif, queCal)
    }

    constructor ()
      ensures State() == SrsState(0, 0, [], [])
    {
      tsBoreBif := 0;
      tsBoreCal := 0;
      queBif := [];
      queCal := [];
    }

    /** Only warns about a producer of unexpected name. */
    method DoConnect(id: Connection) returns (unsupported: bool)
      ensures unsupported <==> id.name != SrsProducer && id.name != CalProducer
    {
      unsupported := id.name != SrsProducer && id.name != CalProducer;
    }

    /** Empties both queues; the start time stamps stay. */
    method DoStartRun()
      modifies this
      ensures State() == old(State()).(bif := [], cal := [])
    {
      queBif := [];
      queCal := [];
    }

    /** Routes the event, runs the matching loop, and reports whether a
        queue holds more than 1000 events afterwards. */
    method DoReceive(id: Connection, ev: Event) returns (written: seq<Wrapped>, backlog: bool)
      modifies this
      ensures (State(), written) == Receive(old(State()), id, ev)
      ensures backlog <==> |queBif| > BacklogLimit || |queCal| > BacklogLimit
    {
      ghost var routed := Route(State(), id, ev);
      if id.name == BifProducer {
        if ev.bore {
          tsBoreBif := GetTag(ev, StartTag, tsBoreBif);
        }
        queBif := queBif + [ev];
      } else if id.name == CalProducer {
        if ev.bore {
          tsBoreCal := GetTag(ev, StartTag, tsBoreCal);
        }
        queCal := queCal + [ev];
      }
      assert State() == routed;
      var m := MatchLoop(queBif, queCal);
      queBif, queCal, written := m.bif, m.cal, m.written;
      backlog := |queBif| > BacklogLimit || |queCal| > BacklogLimit;
    }
  }
}
