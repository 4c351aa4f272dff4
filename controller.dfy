/**
 * Model of src/controller.rs: the three modes that drain the controller's
 * event channel. Collect forwards updated tags whose address is in the
 * allow-list to the database sender; find prints the address of each newly
 * discovered tag; show prints every tag it hears about.
 *
 * The channel is the finite sequence of events still waiting in `receiver`;
 * each mode runs until it is empty. The database sender and standard output
 * are objects that record what reaches them.
 */
module Controller {
  import opened MachineInts
  import opened Ruuvitag

  /** The events the scanner sends to the controller. */
  datatype Event = DeviceDiscovered(tag: RuuviTag) | DeviceUpdated(tag: RuuviTag)

  /** What a mode writes to standard output: `Found RuuviTag: <mac>` or a tag's display. */
  datatype Line = FoundLine(mac: BDAddr) | TagLine(tag: RuuviTag)

  // ---------------------------------------------------------------------------
  // What each mode produces, as functions of the events it reads
  // ---------------------------------------------------------------------------

  /** Collect's rule: an updated tag whose address is in the allow-list. */
  predicate Passes(e: Event, macs: seq<BDAddr>) {
    e.DeviceUpdated? && e.tag.mac in macs
  }

  /** The tags collect hands to the sender, in the order their events arrive. */
  function Forwarded(events: seq<Event>, macs: seq<BDAddr>): (tags: seq<RuuviTag>)
    ensures |tags| <= |events|
    ensures forall t | t in tags :: t.mac in macs
  {
    if events == [] then []
    else
      var last := events[|events| - 1];
      Forwarded(events[..|events| - 1], macs) + (if Passes(last, macs) then [last.tag] else [])
  }

  /** The lines find prints: one per discovered tag. */
  function FindLines(events: seq<Event>): (lines: seq<Line>)
    ensures |lines| <= |events|
    ensures forall l | l in lines :: l.FoundLine?
  {
    if events == [] then []
    else
      var last := events[|events| - 1];
      FindLines(events[..|events| - 1]) + (if last.DeviceDiscovered? then [FoundLine(last.tag.mac)] else [])
  }

  /** The lines show prints: every event's tag, in order. */
  function ShowLines(events: seq<Event>): (lines: seq<Line>)
    ensures |lines| == |events|
    ensures forall i | 0 <= i < |events| :: lines[i] == TagLine(events[i].tag)
  {
    if events == [] then []
    else ShowLines(events[..|events| - 1]) + [TagLine(events[|events| - 1].tag)]
  }

  /** The positions of the discovery events, in order. */
  function Discoveries(events: seq<Event>): (ps: seq<nat>)
    ensures forall k | 0 <= k < |ps| :: ps[k] < |events| && events[ps[k]].DeviceDiscovered?
    ensures forall i | 0 <= i < |events| && events[i].DeviceDiscovered? :: i in ps
    ensures forall j, k | 0 <= j < k < |ps| :: ps[j] < ps[k]
  {
    if events == [] then []
    else
      var init := events[..|events| - 1];
      var ps := Discoveries(init);
      assert forall k | 0 <= k < |ps| :: events[ps[k]] == init[ps[k]];
      ps + (if events[|events| - 1].DeviceDiscovered? then [|events| - 1] else [])
  }

  // ---------------------------------------------------------------------------
  // Properties of the routing
  // ---------------------------------------------------------------------------

  /** Forwarding a stream in two parts forwards each part, in order. */
  lemma {:induction false} ForwardedAppend(a: seq<Event>, b: seq<Event>, macs: seq<BDAddr>)
    ensures Forwarded(a + b, macs) == Forwarded(a, macs) + Forwarded(b, macs)
    decreases |b|
  {
    if b == [] {
      assert a + b == a;
    } else {
      var init := b[..|b| - 1];
      assert (a + b)[..|a + b| - 1] == a + init;
      ForwardedAppend(a, init, macs);
    }
  }

  /**
   * A tag is forwarded exactly when some event is an update of that tag and
   * its address is in the allow-list.
   */
  lemma {:induction false} ForwardedMembership(events: seq<Event>, macs: seq<BDAddr>, t: RuuviTag)
    ensures t in Forwarded(events, macs) <==>
            exists i | 0 <= i < |events| :: events[i] == DeviceUpdated(t) && t.mac in macs
    decreases |events|
  {
    if events != [] {
      var init := events[..|events| - 1];
      ForwardedMembership(init, macs, t);
      if exists i | 0 <= i < |init| :: init[i] == DeviceUpdated(t) && t.mac in macs {
        var i :| 0 <= i < |init| && init[i] == DeviceUpdated(t) && t.mac in macs;
        assert events[i] == init[i];
      }
      if exists i | 0 <= i < |events| :: events[i] == DeviceUpdated(t) && t.mac in macs {
        var i :| 0 <= i < |events| && events[i] == DeviceUpdated(t) && t.mac in macs;
        if i < |init| {
          assert init[i] == events[i];
        }
      }
    }
  }

  /** What is forwarded from a prefix of the stream is a prefix of what the whole stream forwards. */
  lemma ForwardedPrefix(events: seq<Event>, k: nat, macs: seq<BDAddr>)
    requires k <= |events|
    ensures Forwarded(events[..k], macs) <= Forwarded(events, macs)
  {
    assert events == events[..k] + events[k..];
    ForwardedAppend(events[..k], events[k..], macs);
  }

  /** Handling one more event forwards its tag exactly when it passes. */
  lemma ForwardedStep(events: seq<Event>, n: nat, macs: seq<BDAddr>)
    requires n < |events|
    ensures Forwarded(events[..n + 1], macs) ==
            Forwarded(events[..n], macs) + (if Passes(events[n], macs) then [events[n].tag] else [])
  {
    assert events[..n + 1][..n] == events[..n];
  }

  /** With an empty allow-list nothing is forwarded. */
  lemma {:induction false} EmptyAllowListForwardsNothing(events: seq<Event>)
    ensures Forwarded(events, []) == []
    decreases |events|
  {
    if events != [] {
      EmptyAllowListForwardsNothing(events[..|events| - 1]);
    }
  }

  /** Discovery events never reach the sender: dropping them changes nothing. */
  lemma {:induction false} DiscoveredNeverForwarded(events: seq<Event>, t: RuuviTag, macs: seq<BDAddr>)
    ensures Forwarded(events + [DeviceDiscovered(t)], macs) == Forwarded(events, macs)
  {
    assert (events + [DeviceDiscovered(t)])[..|events|] == events;
  }

  /** Find prints the address of a discovered tag exactly when one was discovered. */
  lemma {:induction false} FindLinesMembership(events: seq<Event>, mac: BDAddr)
    ensures FoundLine(mac) in FindLines(events) <==>
            exists i | 0 <= i < |events| :: events[i].DeviceDiscovered? && events[i].tag.mac == mac
    decreases |events|
  {
    if events != [] {
      var init := events[..|events| - 1];
      FindLinesMembership(init, mac);
      if exists i | 0 <= i < |init| :: init[i].DeviceDiscovered? && init[i].tag.mac == mac {
        var i :| 0 <= i < |init| && init[i].DeviceDiscovered? && init[i].tag.mac == mac;
        assert events[i] == init[i];
      }
      if exists i | 0 <= i < |events| :: events[i].DeviceDiscovered? && events[i].tag.mac == mac {
        var i :| 0 <= i < |events| && events[i].DeviceDiscovered? && events[i].tag.mac == mac;
        if i < |init| {
          assert init[i] == events[i];
        }
      }
    }
  }

  /** Find on a stream in two parts prints the lines of each part, in order. */
  lemma {:induction false} FindLinesAppend(a: seq<Event>, b: seq<Event>)
    ensures FindLines(a + b) == FindLines(a) + FindLines(b)
    decreases |b|
  {
    if b == [] {
      assert a + b == a;
    } else {
      var init := b[..|b| - 1];
      assert (a + b)[..|a + b| - 1] == a + init;
      FindLinesAppend(a, init);
    }
  }

  /** Every discovery prints its own line, repeated discoveries included, after those before it. */
  lemma FindPrintsEachDiscovery(events: seq<Event>, t: RuuviTag)
    ensures FindLines(events + [DeviceDiscovered(t)]) == FindLines(events) + [FoundLine(t.mac)]
  {
    assert (events + [DeviceDiscovered(t)])[..|events|] == events;
  }

  /** Find prints exactly one line per discovery event: line k is the address of the k-th discovered tag. */
  lemma {:induction false} FindLinesAreDiscoveries(events: seq<Event>)
    ensures |FindLines(events)| == |Discoveries(events)|
    ensures forall k | 0 <= k < |FindLines(events)| ::
              FindLines(events)[k] == FoundLine(events[Discoveries(events)[k]].tag.mac)
    decreases |events|
  {
    if events != [] {
      var init := events[..|events| - 1];
      FindLinesAreDiscoveries(init);
      var lines, ps, last := FindLines(init), Discoveries(init), events[|events| - 1];
      assert FindLines(events) == lines + (if last.DeviceDiscovered? then [FoundLine(last.tag.mac)] else []);
      assert Discoveries(events) == ps + (if last.DeviceDiscovered? then [|events| - 1] else []);
      forall k | 0 <= k < |FindLines(events)|
        ensures FindLines(events)[k] == FoundLine(events[Discoveries(events)[k]].tag.mac)
      {
        if k < |lines| {
          assert events[ps[k]] == init[ps[k]];
        }
      }
    }
  }

  /** Find prints nothing for updates: every event is one line of show or none of find. */
  lemma {:induction false} FindIgnoresUpdates(events: seq<Event>, t: RuuviTag)
    ensures FindLines(events + [DeviceUpdated(t)]) == FindLines(events)
    ensures |ShowLines(events + [DeviceUpdated(t)])| == |ShowLines(events)| + 1
  {
    assert (events + [DeviceUpdated(t)])[..|events|] == events;
  }

  // ---------------------------------------------------------------------------
  // The objects the modes write to
  // ---------------------------------------------------------------------------

  /**
   * The sending half of the database channel. The receiving half lives in
   * the database thread, which may end at any moment (its runtime's `unwrap`
   * can panic); from then on every `send` fails. What was sent before stays
   * sent, and a receiver that is gone never comes back.
   */
  class TagSender {
    var sent: seq<RuuviTag>
    var receiverAlive: bool

    constructor(receiverAlive: bool)
      ensures sent == [] && this.receiverAlive == receiverAlive
    {
      sent := [];
      this.receiverAlive := receiverAlive;
    }

    method Send(tag: RuuviTag) returns (ok: bool)
      modifies this
      ensures receiverAlive ==> old(receiverAlive)
      ensures ok == receiverAlive
      ensures sent == if ok then old(sent) + [tag] else old(sent)
    {
      if receiverAlive {
        // the database thread may have ended since the last send
        var stillAlive: bool := *;
        receiverAlive := stillAlive;
      }
      ok := receiverAlive;
      if ok {
        sent := sent + [tag];
      }
    }
  }

  /** Standard output: the lines printed so far. */
  class Console {
    var lines: seq<Line>

    constructor()
      ensures lines == []
    {
      lines := [];
    }

    method PrintLine(line: Line)
      modifies this
      ensures lines == old(lines) + [line]
    {
      lines := lines + [line];
    }
  }

  // ---------------------------------------------------------------------------
  // The controller
  // ---------------------------------------------------------------------------

  class Controller {
    /** The events sent to the controller and not yet received. */
    var receiver: seq<Event>

    /** `Controller::new`: the channel holds what the scanner will send. */
    constructor(pending: seq<Event>)
      ensures receiver == pending
    {
      receiver := pending;
    }

    /**
     * `collect`: the updated tags whose address is in `macs` are handed to the
     * sender in arrival order; a failed send is ignored and the loop goes on.
     * The database receives `Forwarded` of the events handled while its
     * thread was alive: all of them if it still is, none if it was gone from
     * the start, and in any case a prefix of the stream.
     */
    method Collect(macs: seq<BDAddr>, sender: TagSender)
      modifies this, sender
      ensures receiver == []
      ensures sender.receiverAlive ==> old(sender.receiverAlive)
      ensures exists k | 0 <= k <= |old(receiver)| :: sender.sent == old(sender.sent) + Forwarded(old(receiver)[..k], macs)
      ensures sender.receiverAlive ==> sender.sent == old(sender.sent) + Forwarded(old(receiver), macs)
      ensures !old(sender.receiverAlive) ==> sender.sent == old(sender.sent)
    {
      ghost var events := receiver;
      ghost var n, k := 0, 0;
      while receiver != []
        invariant 0 <= k <= n <= |events| && receiver == events[n..]
        invariant sender.receiverAlive ==> old(sender.receiverAlive) && k == n
        invariant !old(sender.receiverAlive) ==> k == 0
        invariant sender.sent == old(sender.sent) + Forwarded(events[..k], macs)
        decreases |receiver|
      {
        var event := receiver[0];
        receiver := receiver[1..];
        ForwardedStep(events, n, macs);
        match event {
          case DeviceUpdated(tag) =>
            if tag.mac in macs {
              var _ := sender.Send(tag);
            }
          case _ =>
        }
        if sender.receiverAlive {
          k := n + 1;
        }
        n := n + 1;
      }
      assert events[..n] == events && events[..0] == [];
      assert sender.sent == old(sender.sent) + Forwarded(events[..k], macs);
    }

    /** `find`: one `Found RuuviTag` line per discovered tag, nothing for updates. */
    method Find(console: Console)
      modifies this, console
      ensures receiver == []
      ensures console.lines == old(console.lines) + FindLines(old(receiver))
    {
      ghost var events := receiver;
      ghost var n := 0;
      while receiver != []
        invariant 0 <= n <= |events| && receiver == events[n..]
        invariant console.lines == old(console.lines) + FindLines(events[..n])
        decreases |receiver|
      {
        var event := receiver[0];
        receiver := receiver[1..];
        assert events[..n + 1][..n] == events[..n] && event == events[n];
        match event {
          case DeviceDiscovered(tag) => console.PrintLine(FoundLine(tag.mac));
          case _ =>
        }
        n := n + 1;
      }
      assert events[..n] == events;
    }

    /** `show`: one line per event of either kind. */
    method Show(console: Console)
      modifies this, console
      ensures receiver == []
      ensures console.lines == old(console.lines) + ShowLines(old(receiver))
    {
      ghost var events := receiver;
      ghost var n := 0;
      while receiver != []
        invariant 0 <= n <= |events| && receiver == events[n..]
        invariant console.lines == old(console.lines) + ShowLines(events[..n])
        decreases |receiver|
      {
        var event := receiver[0];
        receiver := receiver[1..];
        assert events[..n + 1][..n] == events[..n] && event == events[n];
        console.PrintLine(TagLine(event.tag));
        n := n + 1;
      }
      assert events[..n] == events;
    }
  }
}
