/**
 * What `make_connection` sees of netmiko: each `ConnectHandler(**details)`
 * call connects or raises, `send_command('show ver')` answers a banner, and
 * `disconnect()` closes the link. The outcome of every connect call is read
 * from an oracle, in call order; the banner is a parameter.
 */
module Transport {
  import opened Wrappers
  import opened PyText

  /** How one `ConnectHandler` call ends. */
  datatype Reply =
    | Connected
    | Timeout       // netmiko.NetmikoTimeoutException
    | AuthFailure   // netmiko.NetmikoAuthenticationException
    | OtherError    // any other exception

  /** What `self.net_connect` refers to. */
  datatype Link = Unset | Open(dialect: string) | Closed(dialect: string)

  /** One call made on the device, in the order made. */
  datatype Call = Connect(dialect: string) | ShowVer | Disconnect

  /** How `make_connection` returns: silently, after reporting a failure on the console, or by raising. */
  datatype Ending = Quiet | Reported | Escaped(failure: Reply)

  /** `session_details['device_type']`, `net_connect` and the calls made so far. */
  datatype State = State(deviceType: string, link: Link, calls: seq<Call>)

  const Nxos: string := "cisco_nxos"
  const Telnet: string := "cisco_iso_telnet"

  /** The dialects of the connect calls, in order. */
  function Dialects(calls: seq<Call>): (d: seq<string>)
    ensures |d| <= |calls|
  {
    if calls == [] then []
    else
      var last := calls[|calls| - 1];
      Dialects(calls[..|calls| - 1]) + (if last.Connect? then [last.dialect] else [])
  }

  lemma {:induction false} DialectsAppend(a: seq<Call>, b: seq<Call>)
    ensures Dialects(a + b) == Dialects(a) + Dialects(b)
    decreases |b|
  {
    if b != [] {
      var init := b[..|b| - 1];
      var last := b[|b| - 1];
      DialectsAppend(a, init);
      assert (a + b)[..|a + b| - 1] == a + init;
      assert (a + b)[|a + b| - 1] == last;
      calc {
        Dialects(a + b);
        Dialects(a + init) + (if last.Connect? then [last.dialect] else []);
        Dialects(a) + Dialects(init) + (if last.Connect? then [last.dialect] else []);
        Dialects(a) + Dialects(b);
      }
    } else {
      assert a + b == a;
    }
  }

  /** One more call adds its dialect when it is a connect call. */
  lemma DialectsSnoc(calls: seq<Call>, c: Call)
    ensures Dialects(calls + [c]) == Dialects(calls) + (if c.Connect? then [c.dialect] else [])
  {
    assert (calls + [c])[..|calls|] == calls;
  }

  /** `self.net_connect = ConnectHandler(**self.session_details)`. */
  function Dial(s: State, reply: Reply): State {
    State(s.deviceType, if reply == Connected then Open(s.deviceType) else s.link, s.calls + [Connect(s.deviceType)])
  }

  /**
   * A connect call is logged after the earlier calls, with the current device
   * type, and the link changes only when that call connects.
   */
  lemma DialEffect(s: State, reply: Reply)
    ensures var t := Dial(s, reply);
      Dialects(t.calls) == Dialects(s.calls) + [s.deviceType] &&
      |t.calls| == |s.calls| + 1 && t.calls[..|s.calls|] == s.calls &&
      t.deviceType == s.deviceType &&
      (reply == Connected ==> t.link == Open(s.deviceType)) &&
      (reply != Connected ==> t.link == s.link)
  {
    DialectsSnoc(s.calls, Connect(s.deviceType));
    assert (s.calls + [Connect(s.deviceType)])[..|s.calls|] == s.calls;
  }

  /**
   * The first `try` block, the same in both versions of `make_connection`:
   * connect, ask `show ver`, and on a Nexus banner disconnect and reconnect
   * as NX-OS. Answers the state, the failure that left the block (if any)
   * and the number of connect calls made.
   */
  function TryBlock(s: State, replies: nat -> Reply, showVer: string): (State, Option<Reply>, nat) {
    var first := Dial(s, replies(0));
    if replies(0) != Connected then (first, Some(replies(0)), 1)
    else if !Contains(showVer, "Nexus") then (first.(calls := first.calls + [ShowVer]), None, 1)
    else
      var closed := State(Nxos, Closed(s.deviceType), first.calls + [ShowVer] + [Disconnect]);
      var second := Dial(closed, replies(1));
      (second, if replies(1) == Connected then None else Some(replies(1)), 2)
  }
}
