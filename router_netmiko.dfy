/**
 * The smaller script RouterNetmiko.py: its `Session.make_connection`, whose
 * bare `except:` clauses catch every failure, and `YamlReader.read_loopback`,
 * which rewrites the loaded YAML document's Loopback entry in place.
 */
module RouterNetmiko {
  import opened Wrappers
  import opened PyText
  import opened Ipv4
  import opened Transport
  import NetmikoSession

  /**
   * The state and the ending of this `make_connection`: any failure of the
   * first block leads to one telnet connect, and any failure of that is reported on the console.
   */
  function Connection(s: State, replies: nat -> Reply, showVer: string): (State, Ending) {
    var (t, failure, used) := TryBlock(s, replies, showVer);
    if failure.None? then (t, Quiet)
    else
      var r := replies(used);
      (Dial(t.(deviceType := Telnet), r), if r == Connected then Quiet else Reported)
  }

  /** The netmiko session of one device. */
  class Session {
    var deviceType: string
    var link: Link
    var calls: seq<Call>

    function Snapshot(): State
      reads this
    {
      State(deviceType, link, calls)
    }

    /** `Session.__init__`: `net_connect` does not refer to a connection yet. */
    constructor (deviceType: string)
      ensures Snapshot() == State(deviceType, Unset, [])
    {
      this.deviceType := deviceType;
      link := Unset;
      calls := [];
    }

    /** `self.net_connect = ConnectHandler(**self.session_details)`. */
    method ConnectHandler(reply: Reply)
      modifies this
      ensures Snapshot() == Dial(old(Snapshot()), reply)
    {
      calls := calls + [Connect(deviceType)];
      if reply == Connected {
        link := Open(deviceType);
      }
    }

    /** `Session.make_connection`, with `replies(k)` the outcome of the k-th connect call. */
    method MakeConnection(replies: nat -> Reply, showVer: string) returns (ending: Ending)
      modifies this
      ensures (Snapshot(), ending) == Connection(old(Snapshot()), replies, showVer)
    {
      var failed := false;
      var used := 1;
      ConnectHandler(replies(0));
      if replies(0) != Connected {
        failed := true;
      } else {
        calls := calls + [ShowVer];
        if Contains(showVer, "Nexus") {
          calls := calls + [Disconnect];
          link := Closed(deviceType);
          deviceType := Nxos;
          ConnectHandler(replies(1));
          used := 2;
          failed := replies(1) != Connected;
        }
      }
      if !failed {
        return Quiet;
      }
      deviceType := Telnet;
      ConnectHandler(replies(used));
      ending := if replies(used) == Connected then Quiet else Reported;
    }
  }

  /** Nothing leaves this `make_connection`: every failure ends quietly or is reported. */
  lemma NeverRaises(s: State, replies: nat -> Reply, showVer: string)
    ensures !Connection(s, replies, showVer).1.Escaped?
    ensures Connection(s, replies, showVer).1 == Quiet ==>
              Connection(s, replies, showVer).0.link == Open(Connection(s, replies, showVer).0.deviceType)
  {
  }

  /** Any failure of the first connect, an authentication failure included, leads to one telnet connect. */
  lemma AnyFirstFailureFallsBack(s: State, replies: nat -> Reply, showVer: string)
    requires replies(0) != Connected
    ensures Connection(s, replies, showVer) ==
              (State(Telnet, if replies(1) == Connected then Open(Telnet) else s.link,
                     s.calls + [Connect(s.deviceType), Connect(Telnet)]),
               if replies(1) == Connected then Quiet else Reported)
  {
    assert s.calls + [Connect(s.deviceType)] + [Connect(Telnet)] == s.calls + [Connect(s.deviceType), Connect(Telnet)];
  }

  /**
   * A failure of the NX-OS reconnect, whatever it is, is caught by the same
   * bare `except` and also leads to exactly one telnet connect.
   */
  lemma FailedReconnectFallsBack(s: State, replies: nat -> Reply, showVer: string)
    requires replies(0) == Connected && Contains(showVer, "Nexus") && replies(1) != Connected
    ensures Connection(s, replies, showVer) ==
              (State(Telnet, if replies(2) == Connected then Open(Telnet) else Closed(s.deviceType),
                     s.calls + [Connect(s.deviceType), ShowVer, Disconnect, Connect(Nxos), Connect(Telnet)]),
               if replies(2) == Connected then Quiet else Reported)
  {
    assert s.calls + [Connect(s.deviceType)] + [ShowVer] + [Disconnect] + [Connect(Nxos)] + [Connect(Telnet)] ==
           s.calls + [Connect(s.deviceType), ShowVer, Disconnect, Connect(Nxos), Connect(Telnet)];
  }

  /**
   * The two versions of `make_connection` agree exactly when the first block
   * succeeds, or it times out and the telnet connect succeeds or is refused
   * for its credentials: the cases netmiko_project.py names in its `except` clauses.
   */
  lemma VersionsAgree(s: State, replies: nat -> Reply, showVer: string)
    ensures var (_, failure, used) := TryBlock(s, replies, showVer);
      Connection(s, replies, showVer) == NetmikoSession.Connection(s, replies, showVer) <==>
        failure.None? ||
        (failure == Some(Timeout) && (replies(used) == Connected || replies(used) == AuthFailure))
  {
    var (t, failure, used) := TryBlock(s, replies, showVer);
    if failure.Some? && failure != Some(Timeout) {
      assert |Connection(s, replies, showVer).0.calls| == |t.calls| + 1;
      assert NetmikoSession.Connection(s, replies, showVer).0 == t;
    }
  }

  // ---------------------------------------------------------------------
  // The YAML document

  /** `YamlReader.format_ip_address`: the text before the first "/". */
  function FormatIpAddress(t: string): string {
    Take(t, Find(t, "/"))
  }

  /** The address of a CIDR text is its dotted quad. */
  lemma FormatIpAddressOfCidr(c: Cidr)
    ensures FormatIpAddress(FormatCidr(c)) == FormatAddress(c.address)
  {
    CidrAddressText(c);
  }

  /** Without a "/", `find` gives -1 and the last character is cut off. */
  lemma FormatIpAddressWithoutSlash(t: string)
    requires '/' !in t && t != []
    ensures FormatIpAddress(t) == t[..|t| - 1]
  {
    ContainsChar(t, '/');
    TakeUntil(t, "/");
  }

  /** A YAML document: top-level keys to mappings of text values. */
  type Document = map<string, map<string, string>>

  /**
   * `read_loopback`: the Loopback mapping with "mask" set from the original
   * "ip" and "ip" cut to its address; a missing key raises KeyError and an
   * unreadable "ip" ValueError.
   */
  function LoopbackOf(doc: Document): Result<map<string, string>> {
    if "Loopback" !in doc then Raised(KeyError)
    else
      var entry := doc["Loopback"];
      if "ip" !in entry then Raised(KeyError)
      else
        var mask :- SubnetMask(entry["ip"]);
        Ok(entry["mask" := mask]["ip" := FormatIpAddress(entry["ip"])])
  }

  /** `YamlReader`: the loaded document, shared with whoever holds the returned mapping. */
  class YamlReader {
    var document: Document

    /** `YamlReader.__init__`, with the parsed YAML as a parameter. */
    constructor (document: Document)
      ensures this.document == document
    {
      this.document := document;
    }

    /**
     * `YamlReader.read_loopback`: the returned dict is the document's own
     * Loopback mapping, so the document holds the rewritten entry afterwards.
     */
    method ReadLoopback() returns (r: Result<map<string, string>>)
      modifies this
      ensures r == LoopbackOf(old(document))
      ensures r.Ok? ==> document == old(document)["Loopback" := r.value]
      ensures r.Raised? ==> document == old(document)
    {
      if "Loopback" !in document {
        return Raised(KeyError);
      }
      var entry := document["Loopback"];
      if "ip" !in entry {
        return Raised(KeyError);
      }
      var mask := SubnetMask(entry["ip"]);
      if mask.Raised? {
        return Raised(mask.error);
      }
      entry := entry["mask" := mask.value];
      document := document["Loopback" := entry];
      entry := entry["ip" := FormatIpAddress(entry["ip"])];
      document := document["Loopback" := entry];
      return Ok(entry);
    }
  }

  /** The failures of `read_loopback`, and nothing else fails. */
  lemma LoopbackErrors(doc: Document)
    ensures LoopbackOf(doc).Raised? <==>
              "Loopback" !in doc || "ip" !in doc["Loopback"] || ParseCidr(doc["Loopback"]["ip"]).None?
    ensures LoopbackOf(doc).Raised? ==>
              LoopbackOf(doc).error == (if "Loopback" !in doc || "ip" !in doc["Loopback"] then KeyError else ValueError)
  {
  }

  /**
   * For a CIDR text: the mask is the top prefix bits, the ip is the dotted
   * quad, and every other key keeps its value.
   */
  lemma LoopbackOfCidr(doc: Document, c: Cidr)
    requires "Loopback" in doc && "ip" in doc["Loopback"] && doc["Loopback"]["ip"] == FormatCidr(c)
    ensures LoopbackOf(doc).Ok?
    ensures LoopbackOf(doc).value.Keys == doc["Loopback"].Keys + {"mask"}
    ensures LoopbackOf(doc).value["mask"] == FormatAddress(Mask(c.prefix)) && Mask(c.prefix) == TopBits(c.prefix)
    ensures LoopbackOf(doc).value["ip"] == FormatAddress(c.address)
    ensures forall k :: k in doc["Loopback"] && k != "mask" && k != "ip" ==>
              LoopbackOf(doc).value[k] == doc["Loopback"][k]
  {
    var entry := doc["Loopback"];
    SubnetMaskOfPrefix(c.address, c.prefix);
    FormatIpAddressOfCidr(c);
    MaskIsTopBits(c.prefix);
    EntryUpdates(entry, FormatAddress(Mask(c.prefix)), FormatAddress(c.address));
  }

  /** Setting "mask" and then "ip" adds "mask" as a key and leaves every other key alone. */
  lemma EntryUpdates(entry: map<string, string>, m: string, a: string)
    requires "ip" in entry
    ensures entry["mask" := m]["ip" := a].Keys == entry.Keys + {"mask"}
    ensures entry["mask" := m]["ip" := a]["mask"] == m
    ensures entry["mask" := m]["ip" := a]["ip"] == a
    ensures forall k :: k in entry && k != "mask" && k != "ip" ==> entry["mask" := m]["ip" := a][k] == entry[k]
  {
    assert "mask" != "ip" by { assert |"mask"| != |"ip"|; }
  }

  /**
   * A bare dotted quad reads as a /32: the mask is all ones, and "ip" loses
   * its last character because `find("/")` gives -1.
   */
  lemma LoopbackOfBareAddress(doc: Document, x: Addr)
    requires "Loopback" in doc && "ip" in doc["Loopback"] && doc["Loopback"]["ip"] == FormatAddress(x)
    ensures var a := FormatAddress(x);
      LoopbackOf(doc) == Ok(doc["Loopback"]["mask" := FormatAddress(Size - 1)]["ip" := a[..|a| - 1]])
  {
    var a := FormatAddress(x);
    AddressHasNo(x, '/');
    AddressRoundTrip(x);
    SubnetMaskWithoutSlash(a);
    FormatIpAddressWithoutSlash(a);
  }

  /**
   * Reading twice is not reading once: the first read leaves a bare address
   * in the document, so a second read gives the host mask and cuts the
   * address's last character off.
   */
  lemma SecondRead(doc: Document, c: Cidr)
    requires "Loopback" in doc && "ip" in doc["Loopback"] && doc["Loopback"]["ip"] == FormatCidr(c)
    ensures LoopbackOf(doc).Ok?
    ensures var once := doc["Loopback" := LoopbackOf(doc).value];
      var a := FormatAddress(c.address);
      LoopbackOf(once).Ok? &&
      LoopbackOf(once).value["mask"] == FormatAddress(Size - 1) &&
      LoopbackOf(once).value["ip"] == a[..|a| - 1]
  {
    LoopbackOfCidr(doc, c);
    var once := doc["Loopback" := LoopbackOf(doc).value];
    LoopbackOfBareAddress(once, c.address);
    var a := FormatAddress(c.address);
    EntryUpdates(once["Loopback"], FormatAddress(Size - 1), a[..|a| - 1]);
  }
}
