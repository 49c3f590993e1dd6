/** The client's relay: two bufferevents that carry each other's data, and what their callbacks
    do when data arrives, when it has been flushed, and when an end is closed or fails. */
module Client {
  import opened Octets
  import opened KeyTable
  import opened Bufferevents
  import Cipher

  /** The flags an event callback gets. */
  datatype What = What(reading: bool, writing: bool, eof: bool, error: bool, timeout: bool, connected: bool)

  /** How a connection came to its end: not yet, by the end of one side whose data is or will be
      flushed to the other, or by an error or a timeout that left data behind. */
  datatype Ending = Open | LocalEnded | RemoteEnded | Aborted

  /** An event that was signalled to an end. */
  datatype Heard = Heard(onLocal: bool, what: What)

  /** Whether an event ends the connection, or what is left of it. */
  predicate IsFinal(h: Heard) {
    h.onLocal || (!h.what.connected && (h.what.eof || h.what.error || (h.what.timeout && h.what.reading)))
  }

  function Finals(heard: seq<Heard>): seq<Heard> {
    if heard == [] then []
    else Finals(heard[..|heard| - 1]) + if IsFinal(heard[|heard| - 1]) then [heard[|heard| - 1]] else []
  }

  /** A connection ends by one end or error of one side; a second one aborts what was still being
      flushed, and so does a timeout. */
  function EndingOf(heard: seq<Heard>): Ending {
    var finals := Finals(heard);
    if finals == [] then Open
    else if |finals| == 1 && (finals[0].what.eof || finals[0].what.error) then if finals[0].onLocal then LocalEnded else RemoteEnded
    else Aborted
  }

  /** The first final event ends the connection one way or the other; any later one aborts it. */
  lemma EndingNext(heard: seq<Heard>, h: Heard)
    ensures !IsFinal(h) ==> EndingOf(heard + [h]) == EndingOf(heard)
    ensures IsFinal(h) && EndingOf(heard) != Open ==> EndingOf(heard + [h]) == Aborted
    ensures IsFinal(h) && EndingOf(heard) == Open ==>
              EndingOf(heard + [h]) == if !h.what.eof && !h.what.error then Aborted else if h.onLocal then LocalEnded else RemoteEnded
  {
    assert (heard + [h])[..|heard|] == heard;
  }

  // ----- what the events mean -----

  /** What the network does. */
  datatype NetEvent =
    | Arrives(onLocal: bool, data: seq<byte>)
    | Leaves(onLocal: bool, n: nat)
    | Happens(onLocal: bool, what: What)

  datatype End = End(live: bool, reading: bool, input: seq<byte>, output: seq<byte>, received: seq<byte>, sent: seq<byte>)

  datatype Relay = Relay(local: End, remote: End, heard: seq<Heard>)

  function Side(s: Relay, onLocal: bool): End { if onLocal then s.local else s.remote }

  function WithSides(onLocal: bool, x: End, y: End, heard: seq<Heard>): Relay {
    if onLocal then Relay(x, y, heard) else Relay(y, x, heard)
  }

  /** Data arrives while reading is enabled, no more leaves than there is, the local end has no
      timeout, and a read timeout needs reading to be enabled. */
  predicate Enabled(s: Relay, e: NetEvent) {
    var x := Side(s, e.onLocal);
    x.live &&
    match e
    case Arrives(_, _) => x.reading
    case Leaves(_, n) => n <= |x.output|
    case Happens(onLocal, what) => MaySignal(onLocal, x.reading, what)
  }

  predicate MaySignal(onLocal: bool, reading: bool, what: What) {
    && (onLocal ==> what.eof || what.error)
    && (what.timeout && what.reading ==> reading)
  }

  /** What an enabled event does; `table` is what the client's data goes through. */
  function Next(s: Relay, e: NetEvent, table: seq<byte>): Relay
    requires Enabled(s, e) && IsTable(table)
  {
    var x, y, key := Side(s, e.onLocal), Side(s, !e.onLocal), if e.onLocal then table else Inverse(table);
    match e
    case Arrives(onLocal, data) =>
      WithSides(onLocal, x.(received := x.received + data, input := []), y.(output := y.output + Mapped(key, x.input + data)), s.heard)
    case Leaves(onLocal, n) =>
      // an end that is alone is closed once its output is flushed
      var rest := x.output[n..];
      WithSides(onLocal, x.(sent := x.sent + x.output[..n], output := rest, live := y.live || rest != []), y, s.heard)
    case Happens(onLocal, what) =>
      var heard := s.heard + [Heard(onLocal, what)];
      if onLocal || (!what.connected && (what.eof || what.error)) then Ended(onLocal, x, y, heard, key)
      else if !what.connected && what.timeout && what.reading then WithSides(onLocal, x.(live := false), y.(live := false), heard)
      else s.(heard := heard)
  }

  /** The end x is freed.  What it had received goes to the other one, which is freed, too, unless it
      has something to flush. */
  function Ended(onLocal: bool, x: End, y: End, heard: seq<Heard>, key: seq<byte>): Relay
    requires IsTable(key)
  {
    if !y.live then WithSides(onLocal, x.(live := false), y, heard)
    else
      var out := y.output + Mapped(key, x.input);
      WithSides(onLocal, x.(live := false, input := []), y.(output := out, live := out != [], reading := y.reading && out == []), heard)
  }

  /** What is left of a run when the events that are not enabled are dropped. */
  function NextAll(s: Relay, events: seq<NetEvent>, table: seq<byte>): Relay
    requires IsTable(table)
  {
    if events == [] then s
    else
      var before, last := NextAll(s, events[..|events| - 1], table), events[|events| - 1];
      if Enabled(before, last) then Next(before, last, table) else before
  }

  const CLIENT_CHUNK: nat := 1023

  class Connection {
    const local: Bufferevent
    const remote: Bufferevent
    const password: array<byte>
    /** The events signalled so far. */
    ghost var heard: seq<Heard>

    ghost function Snapshot(bev: Bufferevent): End
      reads bev
    {
      End(bev.live, bev.reading, bev.input, bev.output, bev.received, bev.sent)
    }

    ghost function Now(): Relay
      reads this, local, remote
    {
      Relay(Snapshot(local), Snapshot(remote), heard)
    }

    ghost function HowEnded(): Ending
      reads this
    {
      EndingOf(heard)
    }

    ghost predicate Sides()
      reads this
    {
      local != remote && password.Length == TABLE_SIZE
    }

    /** What `source` has received is, substituted, what `target` has sent or will send, but for
        the input that was not read yet. */
    ghost predicate Flows(source: Bufferevent, target: Bufferevent, table: seq<byte>)
      reads source, target
    {
      && IsTable(table) && |source.input| <= |source.received|
      && var consumed := source.received[..|source.received| - |source.input|];
      && source.received == consumed + source.input
      && target.sent + target.output == Mapped(table, consumed)
    }

    /** All that `source` received is, substituted, what `target` has sent or will send. */
    ghost predicate Carried(source: Bufferevent, target: Bufferevent, table: seq<byte>)
      reads source, target
    {
      IsTable(table) && target.sent + target.output == Mapped(table, source.received)
    }

    /** Both ends are alive and refer to each other. */
    ghost predicate Linked()
      reads this, local, remote, password
    {
      && Sides() && local.live && remote.live && HowEnded() == Open
      && local.ctx == remote && remote.ctx == local && local.reading && remote.reading
      && local.onRead == LocalRead && remote.onRead == RemoteRead && local.onWrite == NoWrite && remote.onWrite == NoWrite
      && local.onEvent == LocalEvent && remote.onEvent == RemoteEvent
      && Flows(local, remote, password[..]) && Flows(remote, local, Inverse(password[..]))
    }

    /** One end only flushes its output; the other has been freed, and nothing refers to it. */
    ghost predicate Flushing(end: Bufferevent)
      reads this, end
    {
      && end.live && end.ctx == null && !end.reading && end.output != []
      && end.onRead == NoRead && end.onWrite == CloseOnFinishedWrite
      && end.onEvent == if end == local then LocalEvent else RemoteEvent
    }

    ghost predicate Valid()
      reads this, local, remote, password
    {
      && Sides()
      && (Linked()
          || (!local.live && HowEnded() == LocalEnded && Flushing(remote) && Carried(local, remote, password[..]))
          || (!remote.live && HowEnded() == RemoteEnded && Flushing(local) && Carried(remote, local, Inverse(password[..])))
          || (!local.live && !remote.live && Over()))
    }

    /** Both ends are freed: nothing of the side that ended was left behind, unless the other
        side failed. */
    ghost predicate Over()
      reads this, local, remote, password
      requires Sides()
    {
      && HowEnded() != Open
      && (HowEnded() == LocalEnded ==> remote.output == [] && Carried(local, remote, password[..]))
      && (HowEnded() == RemoteEnded ==> local.output == [] && Carried(remote, local, Inverse(password[..])))
    }

    /** A context that is registered is null or the other end, which is alive; and a read callback
        is only registered with such a context. */
    lemma ContextsLive(bev: Bufferevent)
      requires Valid() && bev.live && (bev == local || bev == remote)
      ensures bev.ctx == null || (bev.ctx == (if bev == local then remote else local) && bev.ctx.live)
      ensures bev.onRead != NoRead ==> bev.ctx != null
    {
    }

    /** Accepts a local connection and starts one to the server. */
    constructor (password: array<byte>)
      requires password.Length == TABLE_SIZE
      ensures this.password == password && fresh(local) && fresh(remote) && Linked() && Valid() && heard == []
    {
      local := new Bufferevent();
      remote := new Bufferevent();
      this.password := password;
      heard := [];
      new;
      local.SetCallbacks(LocalRead, NoWrite, LocalEvent, remote);
      remote.SetCallbacks(RemoteRead, NoWrite, RemoteEvent, local);
      local.EnableReading();
      remote.EnableReading();
      Cipher.NothingMapped(password[..], []);
      Cipher.NothingMapped(Inverse(password[..]), []);
    }

    // ----- data -----

    method LocalReadCb(bev: Bufferevent, partner: Bufferevent)
      requires bev.live && partner.live && bev != partner && password.Length == TABLE_SIZE
      modifies bev`input, partner`output
      ensures bev.input == []
      ensures partner.output == old(partner.output) + Mapped(password[..], old(bev.input))
    {
      Cipher.Carry(bev, partner, CLIENT_CHUNK, password);
    }

    method RemoteReadCb(bev: Bufferevent, partner: Bufferevent)
      requires bev.live && partner.live && bev != partner && password.Length == TABLE_SIZE
      modifies bev`input, partner`output
      ensures bev.input == []
      ensures partner.output == old(partner.output) + Mapped(Inverse(password[..]), old(bev.input))
    {
      var t := Cipher.InvertTable(password);
      Cipher.Carry(bev, partner, CLIENT_CHUNK, t);
    }

    /** Reading everything completes the flow. */
    lemma AllRead(received: seq<byte>, input: seq<byte>, table: seq<byte>, gone: seq<byte>, output: seq<byte>)
      requires IsTable(table) && |input| <= |received|
      requires var consumed := received[..|received| - |input|]; received == consumed + input && gone + output == Mapped(table, consumed)
      ensures gone + (output + Mapped(table, input)) == Mapped(table, received)
    {
      var consumed := received[..|received| - |input|];
      MappedConcat(table, consumed, input);
      assert gone + (output + Mapped(table, input)) == gone + output + Mapped(table, input);
    }

    // ----- flushed data -----

    method CloseOnFinishedWriteCb(bev: Bufferevent)
      requires bev.live
      modifies bev`live
      ensures bev.live <==> bev.output != []
    {
      if bev.output == [] {
        bev.Free();
      }
    }

    // ----- ends and errors -----

    /** Nothing more has been received or sent. */
    ghost predicate SameTraffic(inLocal: seq<byte>, inRemote: seq<byte>, outLocal: seq<byte>, outRemote: seq<byte>)
      reads local, remote
    {
      local.received == inLocal && remote.received == inRemote && local.sent == outLocal && remote.sent == outRemote
    }

    /** Whatever one side had received goes to the other one's output. */
    method HandOn(bev: Bufferevent, partner: Bufferevent)
      requires Linked() && ((bev == local && partner == remote) || (bev == remote && partner == local))
      modifies bev`input, partner`output
      ensures bev.input == [] && Carried(bev, partner, if bev == local then password[..] else Inverse(password[..]))
      ensures partner.output == old(partner.output) + Mapped(if bev == local then password[..] else Inverse(password[..]), old(bev.input))
    {
      AllRead(bev.received, bev.input, if bev == local then password[..] else Inverse(password[..]), partner.sent, partner.output);
      if bev == local {
        LocalReadCb(bev, partner);
      } else {
        RemoteReadCb(bev, partner);
      }
    }

    /** An end whose peer is gone is closed once its output is flushed. */
    method HalfClose(partner: Bufferevent)
      requires Sides() && partner.live && (partner == local || partner == remote)
      modifies partner`live, partner`reading, partner`onRead, partner`onWrite, partner`onEvent, partner`ctx
      ensures if partner.output != [] then Flushing(partner) else !partner.live && partner.reading == old(partner.reading)
    {
      if partner.output != [] {
        partner.SetCallbacks(NoRead, CloseOnFinishedWrite, if partner == remote then RemoteEvent else LocalEvent, null);
        partner.DisableReading();
      } else {
        partner.Free();
      }
    }

    /** The end of one side: what it had received is handed on, and the other side is closed once
        all of that is flushed. */
    method Finish(bev: Bufferevent, what: What, partner: Bufferevent?)
      requires Valid() && bev.live && (bev == local || bev == remote) && partner == bev.ctx
      requires (what.eof || what.error) && (bev == remote ==> !what.connected)
      modifies this`heard, local, remote
      ensures Valid() && !bev.live && SameTraffic(old(local.received), old(remote.received), old(local.sent), old(remote.sent))
      ensures partner != null ==> (partner.live <==> partner.output != [])
      ensures heard == old(heard) + [Heard(bev == local, what)]
      ensures var onLocal, s := bev == local, old(Now());
              Now() == Ended(onLocal, Side(s, onLocal), Side(s, !onLocal), heard, if onLocal then password[..] else Inverse(password[..]))
    {
      hide EndingOf, Mapped, Inverse, IsTable, Flows, Finals;
      EndingNext(heard, Heard(bev == local, what));
      ghost var isLocal := bev == local;
      if partner != null {
        HandOn(bev, partner);
        HalfClose(partner);
      }
      bev.Free();
      heard := heard + [Heard(isLocal, what)];
    }

    method LocalEventCb(bev: Bufferevent, what: What, ctx: Bufferevent?)
      requires Valid() && bev == local && bev.live && ctx == bev.ctx && (what.eof || what.error || ctx != null)
      modifies this`heard, local, remote
      ensures Valid() && !local.live && SameTraffic(old(local.received), old(remote.received), old(local.sent), old(remote.sent))
      ensures what.eof || what.error ==> PeerFlushes(old(remote.live), ctx, remote)
      ensures !what.eof && !what.error ==> !remote.live
      ensures heard == old(heard) + [Heard(true, what)]
      ensures var s := old(Now());
              Now() == if what.eof || what.error then Ended(true, s.local, s.remote, heard, password[..])
                       else Relay(s.local.(live := false), s.remote.(live := false), heard)
    {
      hide EndingOf, Mapped, Inverse, IsTable;
      if what.eof || what.error {
        Finish(bev, what, ctx);
      } else {
        EndingNext(heard, Heard(true, what));
        bev.Free();
        ctx.Free();
        heard := heard + [Heard(true, what)];
      }
    }

    method RemoteEventCb(bev: Bufferevent, what: What, ctx: Bufferevent?)
      requires Valid() && bev == remote && bev.live && ctx == bev.ctx && MaySignal(false, bev.reading, what)
      modifies this`heard, local, remote
      ensures Valid() && SameTraffic(old(local.received), old(remote.received), old(local.sent), old(remote.sent))
      ensures !what.connected && (what.eof || what.error) ==> !remote.live && PeerFlushes(old(local.live), ctx, local)
      ensures !what.connected && !what.eof && !what.error && what.timeout && what.reading ==> !remote.live && !local.live
      ensures what.connected || (!what.eof && !what.error && !(what.timeout && what.reading)) ==>
                remote.live == old(remote.live) && local.live == old(local.live)
      ensures heard == old(heard) + [Heard(false, what)]
      ensures Now() == Next(old(Now()), Happens(false, what), password[..])
    {
      hide EndingOf, Mapped, Inverse, IsTable;
      EndingNext(heard, Heard(false, what));
      if !what.connected && (what.eof || what.error) {
        Finish(bev, what, ctx);
        return;
      }
      heard := heard + [Heard(false, what)];
      if what.connected {
        return;
      }
      if what.timeout && what.reading {
        bev.Free();
        ctx.Free();
      }
    }

    /** The other end is only freed once nothing is left to flush. */
    ghost predicate PeerFlushes(wasLive: bool, ctx: Bufferevent?, peer: Bufferevent)
      reads peer
    {
      ctx != null ==> ctx == peer && wasLive && (peer.live <==> peer.output != [])
    }

    // ----- the event loop -----

    /** Data arrives on a socket. */
    method Arrive(bev: Bufferevent, data: seq<byte>)
      requires Valid() && (bev == local || bev == remote) && bev.live && bev.reading
      modifies local, remote
      ensures Valid() && bev.received == old(bev.received) + data
      ensures Now() == Next(old(Now()), Arrives(bev == local, data), password[..])
    {
      hide EndingOf, Finals;
      bev.input := bev.input + data;
      bev.received := bev.received + data;
      assert bev.received[..|bev.received| - |bev.input|] == old(bev.received)[..old(|bev.received| - |bev.input|)];
      ghost var isLocal := bev == local;
      var partner := bev.ctx;
      AllRead(bev.received, bev.input, if isLocal then password[..] else Inverse(password[..]), partner.sent, partner.output);
      match bev.onRead
      case LocalRead => LocalReadCb(bev, partner);
      case RemoteRead => RemoteReadCb(bev, partner);
    }

    /** A socket takes the first n bytes of the output. */
    method Flush(bev: Bufferevent, n: nat)
      requires Valid() && (bev == local || bev == remote) && bev.live && n <= |bev.output|
      modifies local, remote
      ensures Valid() && bev.sent == old(bev.sent + bev.output[..n])
      ensures old(Linked()) ==> Linked()
      ensures !bev.live ==> bev.output == []
      ensures Now() == Next(old(Now()), Leaves(bev == local, n), password[..])
    {
      assert bev.output == bev.output[..n] + bev.output[n..];
      assert bev.sent + bev.output == bev.sent + bev.output[..n] + bev.output[n..];
      bev.sent := bev.sent + bev.output[..n];
      bev.output := bev.output[n..];
      if bev.output == [] && bev.onWrite == CloseOnFinishedWrite {
        CloseOnFinishedWriteCb(bev);
      }
    }

    method Signal(bev: Bufferevent, what: What)
      requires Valid() && (bev == local || bev == remote) && bev.live && MaySignal(bev == local, bev.reading, what)
      modifies this`heard, local, remote
      ensures Valid() && SameTraffic(old(local.received), old(remote.received), old(local.sent), old(remote.sent))
      ensures Now() == Next(old(Now()), Happens(bev == local, what), password[..])
      ensures IsFinal(Heard(bev == local, what)) ==> !bev.live
    {
      match bev.onEvent
      case LocalEvent => LocalEventCb(bev, what, bev.ctx);
      case RemoteEvent => RemoteEventCb(bev, what, bev.ctx);
    }

    /** Any run of the event loop: the events that are enabled are carried out one after the other,
        the others cannot happen and are dropped.  When both ends are freed and one end or error of
        one side is all that has ended them, everything that side had received has been sent by the
        other side, substituted. */
    method Run(events: seq<NetEvent>)
      requires Valid()
      modifies this`heard, local, remote
      ensures Valid() && Now() == NextAll(old(Now()), events, password[..])
      ensures local.live && remote.live <==> EndingOf(heard) == Open
      ensures !local.live && !remote.live && EndingOf(heard) == LocalEnded ==> remote.sent == Mapped(password[..], local.received)
      ensures !local.live && !remote.live && EndingOf(heard) == RemoteEnded ==> local.sent == Mapped(Inverse(password[..]), remote.received)
    {
      hide EndingOf, Mapped, Inverse, Finals, Next;
      ghost var start := Now();
      for i := 0 to |events|
        invariant Valid() && Now() == NextAll(start, events[..i], password[..])
      {
        assert events[..i + 1][..i] == events[..i] && events[..i + 1][i] == events[i];
        var bev := if events[i].onLocal then local else remote;
        if bev.live {
          match events[i]
          case Arrives(_, data) =>
            if bev.reading {
              Arrive(bev, data);
            }
          case Leaves(_, n) =>
            if n <= |bev.output| {
              Flush(bev, n);
            }
          case Happens(onLocal, what) =>
            if MaySignal(onLocal, bev.reading, what) {
              Signal(bev, what);
            }
        }
      }
      assert events[..|events|] == events;
      assert remote.output == [] ==> remote.sent + remote.output == remote.sent;
      assert local.output == [] ==> local.sent + local.output == local.sent;
    }
  }
}
