/**
 * `Session.make_connection` of netmiko_project.py: connect with the given
 * device type, reconnect as NX-OS on a Nexus banner, fall back to
 * `cisco_iso_telnet` after a timeout. Only the two netmiko exceptions it
 * names are caught; anything else leaves the method.
 */
module NetmikoSession {
  import opened Wrappers
  import opened PyText
  import opened Transport

  /** How the fallback connect call ends: only an authentication failure is caught. */
  function FallbackEnding(r: Reply): Ending {
    if r == Connected then Quiet else if r == AuthFailure then Reported else Escaped(r)
  }

  /** The state and the ending `make_connection` leaves, for the connect outcomes `replies`. */
  function Connection(s: State, replies: nat -> Reply, showVer: string): (State, Ending) {
    var (t, failure, used) := TryBlock(s, replies, showVer);
    match failure
    case None => (t, Quiet)
    case Some(f) =>
      if f == Timeout then (Dial(t.(deviceType := Telnet), replies(used)), FallbackEnding(replies(used)))
      else if f == AuthFailure then (t, Reported)
      else (t, Escaped(f))
  }

  /** The netmiko session of one device. */
  class Session {
    var deviceType: string
    var link: Link
    var calls: seq<Call>

    function Snapshot(): State
      reads this
    {
      State(deviceType, link, calls)
    }

    /** `Session.__init__`: `net_connect` does not refer to a connection yet. */
    constructor (deviceType: string)
      ensures Snapshot() == State(deviceType, Unset, [])
    {
      this.deviceType := deviceType;
      link := Unset;
      calls := [];
    }

    /** `self.net_connect = netmiko.ConnectHandler(**self.session_details)`. */
    method ConnectHandler(reply: Reply)
      modifies this
      ensures Snapshot() == Dial(old(Snapshot()), reply)
    {
      calls := calls + [Connect(deviceType)];
      if reply == Connected {
        link := Open(deviceType);
      }
    }

    /** `Session.make_connection`, with `replies(k)` the outcome of the k-th connect call. */
    method MakeConnection(replies: nat -> Reply, showVer: string) returns (ending: Ending)
      modifies this
      ensures (Snapshot(), ending) == Connection(old(Snapshot()), replies, showVer)
    {
      var failure: Option<Reply> := None;
      var used := 1;
      ConnectHandler(replies(0));
      if replies(0) != Connected {
        failure := Some(replies(0));
      } else {
        calls := calls + [ShowVer];
        if Contains(showVer, "Nexus") {
          calls := calls + [Disconnect];
          link := Closed(deviceType);
          deviceType := Nxos;
          ConnectHandler(replies(1));
          used := 2;
          if replies(1) != Connected {
            failure := Some(replies(1));
          }
        }
      }
      if failure.None? {
        return Quiet;
      }
      var f := failure.value;
      if f == Timeout {
        deviceType := Telnet;
        ConnectHandler(replies(used));
        ending := FallbackEnding(replies(used));
      } else if f == AuthFailure {
        ending := Reported;
      } else {
        ending := Escaped(f);
      }
    }
  }

  // ---------------------------------------------------------------------
  // Which dialects are tried, in which order

  /** A device that answers without a Nexus banner: one connect, device type kept. */
  lemma PlainDevice(s: State, replies: nat -> Reply, showVer: string)
    requires replies(0) == Connected && !Contains(showVer, "Nexus")
    ensures Connection(s, replies, showVer) ==
              (State(s.deviceType, Open(s.deviceType), s.calls + [Connect(s.deviceType), ShowVer]), Quiet)
  {
    assert s.calls + [Connect(s.deviceType)] + [ShowVer] == s.calls + [Connect(s.deviceType), ShowVer];
  }

  /** A Nexus banner: disconnect, switch to NX-OS, connect once more. */
  lemma NexusReconnects(s: State, replies: nat -> Reply, showVer: string)
    requires replies(0) == Connected && Contains(showVer, "Nexus") && replies(1) == Connected
    ensures Connection(s, replies, showVer) ==
              (State(Nxos, Open(Nxos), s.calls + [Connect(s.deviceType), ShowVer, Disconnect, Connect(Nxos)]), Quiet)
  {
    assert s.calls + [Connect(s.deviceType)] + [ShowVer] + [Disconnect] + [Connect(Nxos)] ==
           s.calls + [Connect(s.deviceType), ShowVer, Disconnect, Connect(Nxos)];
  }

  /** A timeout on the first connect: exactly one fallback, as telnet. */
  lemma TimeoutOnFirstConnect(s: State, replies: nat -> Reply, showVer: string)
    requires replies(0) == Timeout
    ensures Connection(s, replies, showVer) ==
              (State(Telnet, if replies(1) == Connected then Open(Telnet) else s.link,
                     s.calls + [Connect(s.deviceType), Connect(Telnet)]),
               FallbackEnding(replies(1)))
  {
    assert s.calls + [Connect(s.deviceType)] + [Connect(Telnet)] == s.calls + [Connect(s.deviceType), Connect(Telnet)];
  }

  /** A timeout on the NX-OS reconnect: exactly one fallback, as telnet. */
  lemma TimeoutOnReconnect(s: State, replies: nat -> Reply, showVer: string)
    requires replies(0) == Connected && Contains(showVer, "Nexus") && replies(1) == Timeout
    ensures Connection(s, replies, showVer) ==
              (State(Telnet, if replies(2) == Connected then Open(Telnet) else Closed(s.deviceType),
                     s.calls + [Connect(s.deviceType), ShowVer, Disconnect, Connect(Nxos), Connect(Telnet)]),
               FallbackEnding(replies(2)))
  {
    assert s.calls + [Connect(s.deviceType)] + [ShowVer] + [Disconnect] + [Connect(Nxos)] + [Connect(Telnet)] ==
           s.calls + [Connect(s.deviceType), ShowVer, Disconnect, Connect(Nxos), Connect(Telnet)];
  }

  /** An authentication failure on the first connect: reported, no further connect call. */
  lemma AuthFailureStops(s: State, replies: nat -> Reply, showVer: string)
    requires replies(0) == AuthFailure
    ensures Connection(s, replies, showVer) ==
              (State(s.deviceType, s.link, s.calls + [Connect(s.deviceType)]), Reported)
  {
  }

  /** Any other exception on the first connect leaves `make_connection`. */
  lemma OtherErrorEscapes(s: State, replies: nat -> Reply, showVer: string)
    requires replies(0) == OtherError
    ensures Connection(s, replies, showVer).1 == Escaped(OtherError)
    ensures Connection(s, replies, showVer).0.calls == s.calls + [Connect(s.deviceType)]
  {
  }

  /**
   * The dialects of the connect calls `make_connection` makes: one to three,
   * the first the given device type, the last the device type it leaves.
   */
  lemma TriedDialects(s: State, replies: nat -> Reply, showVer: string) returns (tried: seq<string>)
    ensures Dialects(Connection(s, replies, showVer).0.calls) == Dialects(s.calls) + tried
    ensures 1 <= |tried| <= 3 && tried[0] == s.deviceType
    ensures tried[|tried| - 1] == Connection(s, replies, showVer).0.deviceType
  {
    if replies(0) != Connected {
      tried := TriedFirstFails(s, replies, showVer);
    } else if !Contains(showVer, "Nexus") {
      tried := TriedPlain(s, replies, showVer);
    } else {
      tried := TriedNexus(s, replies, showVer);
    }
  }

  lemma TriedFirstFails(s: State, replies: nat -> Reply, showVer: string) returns (tried: seq<string>)
    requires replies(0) != Connected
    ensures Dialects(Connection(s, replies, showVer).0.calls) == Dialects(s.calls) + tried
    ensures 1 <= |tried| <= 3 && tried[0] == s.deviceType
    ensures tried[|tried| - 1] == Connection(s, replies, showVer).0.deviceType
  {
    var d := s.deviceType;
    var t := Connection(s, replies, showVer).0;
    var before := Dialects(s.calls);
    var c1 := s.calls + [Connect(d)];
    DialectsSnoc(s.calls, Connect(d));
    if replies(0) == Timeout {
      TimeoutOnFirstConnect(s, replies, showVer);
      assert t.calls == c1 + [Connect(Telnet)];
      DialectsSnoc(c1, Connect(Telnet));
      tried := [d, Telnet];
      assert before + [d] + [Telnet] == before + tried;
    } else {
      assert t.calls == c1;
      tried := [d];
    }
  }

  lemma TriedPlain(s: State, replies: nat -> Reply, showVer: string) returns (tried: seq<string>)
    requires replies(0) == Connected && !Contains(showVer, "Nexus")
    ensures Dialects(Connection(s, replies, showVer).0.calls) == Dialects(s.calls) + tried
    ensures 1 <= |tried| <= 3 && tried[0] == s.deviceType
    ensures tried[|tried| - 1] == Connection(s, replies, showVer).0.deviceType
  {
    var d := s.deviceType;
    var c1 := s.calls + [Connect(d)];
    PlainDevice(s, replies, showVer);
    assert Connection(s, replies, showVer).0.calls == c1 + [ShowVer];
    DialectsSnoc(s.calls, Connect(d));
    DialectsSnoc(c1, ShowVer);
    tried := [d];
  }

  /** The calls a Nexus banner leads to: the reconnect, and the telnet fallback after a timeout. */
  lemma NexusCalls(s: State, replies: nat -> Reply, showVer: string)
    requires replies(0) == Connected && Contains(showVer, "Nexus")
    ensures Connection(s, replies, showVer).0.calls ==
              s.calls + [Connect(s.deviceType)] + [ShowVer] + [Disconnect] + [Connect(Nxos)] +
              (if replies(1) == Timeout then [Connect(Telnet)] else [])
  {
    if replies(1) == Timeout {
      TimeoutOnReconnect(s, replies, showVer);
      assert s.calls + [Connect(s.deviceType)] + [ShowVer] + [Disconnect] + [Connect(Nxos)] + [Connect(Telnet)] ==
             s.calls + [Connect(s.deviceType), ShowVer, Disconnect, Connect(Nxos), Connect(Telnet)];
    }
  }

  /** Dialects added one at a time are the list of them. */
  lemma TwoTried(before: seq<string>, x: string, y: string)
    ensures before + [x] + [y] == before + [x, y]
  {
  }

  lemma ThreeTried(before: seq<string>, x: string, y: string, z: string)
    ensures before + [x] + [y] + [z] == before + [x, y, z]
  {
  }

  lemma TriedNexus(s: State, replies: nat -> Reply, showVer: string) returns (tried: seq<string>)
    requires replies(0) == Connected && Contains(showVer, "Nexus")
    ensures Dialects(Connection(s, replies, showVer).0.calls) == Dialects(s.calls) + tried
    ensures 1 <= |tried| <= 3 && tried[0] == s.deviceType
    ensures tried[|tried| - 1] == Connection(s, replies, showVer).0.deviceType
  {
    var d := s.deviceType;
    var t := Connection(s, replies, showVer).0;
    var before := Dialects(s.calls);
    var c1 := s.calls + [Connect(d)];
    var c2 := c1 + [ShowVer];
    var c3 := c2 + [Disconnect];
    var c4 := c3 + [Connect(Nxos)];
    DialectsSnoc(s.calls, Connect(d));
    DialectsSnoc(c1, ShowVer);
    DialectsSnoc(c2, Disconnect);
    DialectsSnoc(c3, Connect(Nxos));
    assert Dialects(c4) == before + [d] + [Nxos];
    NexusCalls(s, replies, showVer);
    if replies(1) == Timeout {
      TimeoutOnReconnect(s, replies, showVer);
      DialectsSnoc(c4, Connect(Telnet));
      tried := [d, Nxos, Telnet];
      ThreeTried(before, d, Nxos, Telnet);
    } else {
      assert t == Dial(State(Nxos, Closed(d), c3), replies(1));
      tried := [d, Nxos];
      TwoTried(before, d, Nxos);
    }
  }

  /**
   * Whatever the device does: a quiet return leaves an open link of the
   * device type last tried, and only a timeout during the fallback or an
   * exception netmiko_project.py does not name escapes.
   */
  lemma ConnectionEnding(s: State, replies: nat -> Reply, showVer: string)
    ensures var (t, e) := Connection(s, replies, showVer);
      (e == Quiet ==> t.link == Open(t.deviceType)) &&
      (e.Escaped? ==> e.failure == Timeout || e.failure == OtherError) &&
      (e.Escaped? && e.failure == Timeout ==> t.deviceType == Telnet)
  {
  }
}
