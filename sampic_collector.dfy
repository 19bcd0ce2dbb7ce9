/** The SAMPIC data collector: one FIFO of events per producer connection,
    and the set of connections that have gone away. Once every known
    connection has gone, the whole group is forgotten. */
module SampicCollector {
  import opened Bytes
  import opened Events

  /** The collector's bookkeeping: a queue per connection (the map is the
      set of known connections) and the inactive connections. */
  datatype Group = Group(queues: map<Connection, seq<Event>>, inactive: set<Connection>)

  const EmptyGroup: Group := Group(map[], {})

  /** Every inactive connection is a known one. */
  predicate GroupValid(g: Group)
  {
    g.inactive <= g.queues.Keys
  }

  predicate AllNonEmpty(queues: map<Connection, seq<Event>>)
  {
    forall k :: k in queues ==> queues[k] != []
  }

  // ---------------------------------------------------------------------
  // Transitions
  // ---------------------------------------------------------------------

  /** A connection that (re)connects gets an empty queue and is active. */
  function Connect(g: Group, id: Connection): (r: Group)
    ensures id in r.queues && r.queues[id] == [] && id !in r.inactive
    ensures r.queues.Keys == g.queues.Keys + {id}
    ensures forall k :: k in g.queues && k != id ==> r.queues[k] == g.queues[k]
    ensures r.inactive == g.inactive - {id}
  {
    Group(g.queues[id := []], g.inactive - {id})
  }

  /** The connection becomes inactive; when as many connections are inactive
      as there are queues, the group is emptied. */
  function Disconnect(g: Group, id: Connection): (r: Group)
    ensures r == EmptyGroup || r == Group(g.queues, g.inactive + {id})
    ensures r == EmptyGroup <==> |g.inactive + {id}| == |g.queues|
  {
    var inactive := g.inactive + {id};
    if |inactive| == |g.queues| then EmptyGroup else Group(g.queues, inactive)
  }

  /** What DoReceive did with an event. */
  datatype Receipt = NotATrigger | Queued | Wrote

  /** An event that is not flagged as a trigger is refused and nothing
      changes. Otherwise it joins the back of its connection's queue (the
      queue is created if missing), and one synchronised event is written
      when no queue is empty. Nothing is ever taken off a queue. */
  function Receive(g: Group, id: Connection, ev: Event): (r: (Group, Receipt))
    ensures !ev.flagTrigger ==> r == (g, NotATrigger)
    ensures ev.flagTrigger ==> r.0.inactive == g.inactive
    ensures ev.flagTrigger ==> r.0.queues.Keys == g.queues.Keys + {id}
    ensures ev.flagTrigger ==> r.0.queues[id] == (if id in g.queues then g.queues[id] else []) + [ev]
    ensures forall k :: k in g.queues && k != id ==> r.0.queues[k] == g.queues[k]
    ensures r.1 == Wrote <==> ev.flagTrigger && AllNonEmpty(r.0.queues)
  {
    if !ev.flagTrigger then (g, NotATrigger)
    else
      var queue := if id in g.queues then g.queues[id] else [];
      var queues := g.queues[id := queue + [ev]];
      (Group(queues, g.inactive), if AllNonEmpty(queues) then Wrote else Queued)
  }

  // ---------------------------------------------------------------------
  // Properties
  // ---------------------------------------------------------------------

  lemma ConnectIdempotent(g: Group, id: Connection)
    ensures Connect(Connect(g, id), id) == Connect(g, id)
  {
    var once := Connect(g, id);
    assert once.queues[id := []] == once.queues;
    assert once.inactive - {id} == once.inactive;
  }

  /** A subset with as many elements as its superset is the superset. */
  lemma SameSizeSubset<T>(a: set<T>, b: set<T>)
    requires a <= b && |a| == |b|
    ensures a == b
  {
    if a != b {
      var x :| x in b && x !in a;
      assert a <= b - {x};
      SubsetSize(a, b - {x});
    }
  }

  lemma {:induction false} SubsetSize<T>(a: set<T>, b: set<T>)
    requires a <= b
    ensures |a| <= |b|
    decreases b
  {
    if a != {} {
      var x :| x in a;
      SubsetSize(a - {x}, b - {x});
    }
  }

  /** For a known connection and a valid group, a disconnect empties the
      group exactly when every known connection is then inactive. */
  lemma DisconnectResetsIffAllInactive(g: Group, id: Connection)
    requires GroupValid(g) && id in g.queues
    ensures Disconnect(g, id) == EmptyGroup <==> g.queues.Keys <= g.inactive + {id}
  {
    var inactive := g.inactive + {id};
    assert inactive <= g.queues.Keys;
    assert |g.queues.Keys| == |g.queues|;
    if g.queues.Keys <= inactive {
      assert inactive == g.queues.Keys;
    }
    if |inactive| == |g.queues| {
      SameSizeSubset(inactive, g.queues.Keys);
    }
  }

  /** A connection that is not known (its queue was never created, or was
      dropped by a reset) still joins the inactive set. In a valid group the
      disconnect then empties the group exactly when all known connections
      but one are inactive, and in that case one known connection is still
      active when the group is forgotten. */
  lemma UnknownDisconnectResets(g: Group, id: Connection)
    requires GroupValid(g) && id !in g.queues
    ensures Disconnect(g, id) == EmptyGroup <==> |g.inactive| + 1 == |g.queues|
    ensures Disconnect(g, id) == EmptyGroup ==> exists k :: k in g.queues && k !in g.inactive
  {
    assert id !in g.inactive;
    assert |g.inactive + {id}| == |g.inactive| + 1;
    assert |g.queues.Keys| == |g.queues|;
    if |g.inactive| + 1 == |g.queues| && g.queues.Keys <= g.inactive {
      SubsetSize(g.queues.Keys, g.inactive);
      assert false;
    }
  }

  lemma ConnectKeepsValid(g: Group, id: Connection)
    requires GroupValid(g)
    ensures GroupValid(Connect(g, id))
  {
  }

  lemma DisconnectKeepsValid(g: Group, id: Connection)
    requires GroupValid(g) && id in g.queues
    ensures GroupValid(Disconnect(g, id))
  {
  }

  lemma ReceiveKeepsValid(g: Group, id: Connection, ev: Event)
    requires GroupValid(g)
    ensures GroupValid(Receive(g, id, ev).0)
  {
  }

  /** Receiving never shortens a queue: every queue's old contents are a
      prefix of its new contents. */
  lemma ReceiveOnlyGrows(g: Group, id: Connection, ev: Event)
    ensures forall k :: k in g.queues ==> k in Receive(g, id, ev).0.queues && g.queues[k] <= Receive(g, id, ev).0.queues[k]
  {
  }

  /** Since the receiving queue is non-empty after the append, a trigger
      event is written exactly when every other queue already held an
      event. */
  lemma WritesIffOthersNonEmpty(g: Group, id: Connection, ev: Event)
    requires ev.flagTrigger
    ensures Receive(g, id, ev).1 == Wrote <==> forall k :: k in g.queues && k != id ==> g.queues[k] != []
  {
    var r := Receive(g, id, ev).0;
    if forall k :: k in g.queues && k != id ==> g.queues[k] != [] {
      forall k | k in r.queues ensures r.queues[k] != [] {
        if k != id {
          assert k in g.queues;
        }
      }
    }
  }

  /** Once no queue is empty, every later trigger event is written, and no
      queue becomes empty again. */
  lemma WritesOnceAllNonEmpty(g: Group, id: Connection, ev: Event)
    requires AllNonEmpty(g.queues) && ev.flagTrigger
    ensures Receive(g, id, ev).1 == Wrote
    ensures AllNonEmpty(Receive(g, id, ev).0.queues)
  {
    WritesIffOthersNonEmpty(g, id, ev);
  }

  // ---------------------------------------------------------------------
  // The collector object
  // ---------------------------------------------------------------------

  /** The queue scan of DoReceive: stops at the first empty queue. */
  method EveryQueueNonEmpty(queues: map<Connection, seq<Event>>) returns (full: bool)
    ensures full == AllNonEmpty(queues)
  {
    var left := queues.Keys;
    while left != {}
      invariant left <= queues.Keys
      invariant forall k :: k in queues && k !in left ==> queues[k] != []
      decreases left
    {
      var k :| k in left;
      if queues[k] == [] {
        return false;
      }
      left := left - {k};
    }
    return true;
  }

  /** The value of a numeric configuration key stored into an unsigned
      32-bit field, 0 when the key is absent. */
  function ConfigValue(conf: map<string, int>, key: string): (v: Word32)
    ensures key !in conf ==> v == 0
    ensures key in conf ==> v % 0x1_0000_0000 == conf[key] % 0x1_0000_0000
  {
    if key in conf then conf[key] % 0x1_0000_0000 else 0
  }

  class SampicDataCollector {
    var queues: map<Connection, seq<Event>>
    var inactive: set<Connection>
    var printHeaders: Word32
    var printEvents: Word32

    function GroupOf(): Group
      reads this
    {
      Group(queues, inactive)
    }

    constructor ()
      ensures GroupOf() == EmptyGroup
      ensures printHeaders == 0 && printEvents == 0
    {
      queues := map[];
      inactive := {};
      printHeaders := 0;
      printEvents := 0;
    }

    method DoConnect(id: Connection)
      modifies this
      ensures GroupOf() == Connect(old(GroupOf()), id)
      ensures printHeaders == old(printHeaders) && printEvents == old(printEvents)
    {
      queues := queues[id := []];
      inactive := inactive - {id};
    }

    method DoDisconnect(id: Connection)
      modifies this
      ensures GroupOf() == Disconnect(old(GroupOf()), id)
      ensures printHeaders == old(printHeaders) && printEvents == old(printEvents)
    {
      inactive := inactive + {id};
      if |inactive| == |queues| {
        inactive := {};
        queues := map[];
      }
    }

    /** Both print flags are cleared, then read from the configuration when
        there is one. */
    method DoConfigure(conf: Option<map<string, int>>)
      modifies this
      ensures GroupOf() == old(GroupOf())
      ensures conf.None? ==> printHeaders == 0 && printEvents == 0
      ensures conf.Some? ==> printHeaders == ConfigValue(conf.value, "SAMPIC_PRINT_HEADERS")
      ensures conf.Some? ==> printEvents == ConfigValue(conf.value, "SAMPIC_PRINT_EVENTS")
    {
      printHeaders := 0;
      printEvents := 0;
      if conf.Some? {
        printHeaders := ConfigValue(conf.value, "SAMPIC_PRINT_HEADERS");
        printEvents := ConfigValue(conf.value, "SAMPIC_PRINT_EVENTS");
      }
    }

    method DoReset()
      modifies this
      ensures GroupOf() == EmptyGroup
      ensures printHeaders == 0 && printEvents == 0
    {
      printHeaders := 0;
      printEvents := 0;
      queues := map[];
      inactive := {};
    }

    method DoReceive(id: Connection, ev: Event) returns (receipt: Receipt)
      modifies this
      ensures (GroupOf(), receipt) == Receive(old(GroupOf()), id, ev)
      ensures printHeaders == old(printHeaders) && printEvents == old(printEvents)
    {
      if !ev.flagTrigger {
        return NotATrigger;
      }
      var queue := if id in queues then queues[id] else [];
      queues := queues[id := queue + [ev]];
      var full := EveryQueueNonEmpty(queues);
      if !full {
        return Queued;
      }
      return Wrote;
    }
  }
}
