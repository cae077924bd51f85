/**
 * The address ledger: the TinyDB table of reserved networks, read as an
 * ordered list of CIDR texts. `Interface.check_ip_format` asks whether a new
 * address is free, `Interface.edit_db` appends a record or releases the
 * record whose network holds an address.
 */
module AddressLedger {
  import opened Wrappers
  import opened PyText
  import opened Ipv4

  /** `ip_to_check[:ip_to_check.find("/")]`: the candidate's text before its first slash. */
  function AddressPart(candidate: string): string {
    Take(candidate, Find(candidate, "/"))
  }

  /** `ipv4_address in (host, net.broadcast_address)` for some host of `n`. */
  predicate Conflicts(x: Addr, n: Cidr) {
    x in Hosts(n) || x == Broadcast(n)
  }

  /** A record that parses as a strict network and does not reserve `x`. */
  predicate Clear(rec: string, x: Addr) {
    ParseNetwork(rec).Some? && !Conflicts(x, ParseNetwork(rec).value)
  }

  /**
   * What `check_ip_format` answers: the address part parses, and every record
   * parses and reserves neither it as a host nor as a broadcast address. A
   * ValueError from either parse is caught and answered with false.
   */
  predicate Available(records: seq<string>, candidate: string) {
    ParseAddress(AddressPart(candidate)).Some? &&
    forall k :: 0 <= k < |records| ==> Clear(records[k], ParseAddress(AddressPart(candidate)).value)
  }

  /** The record parses and its network holds `x` (`IPv4Address in IPv4Network`). */
  predicate Holds(rec: string, x: Addr) {
    ParseNetwork(rec).Some? && InNetwork(x, ParseNetwork(rec).value)
  }

  /** The record parses and its network does not hold `x`. */
  predicate Misses(rec: string, x: Addr) {
    ParseNetwork(rec).Some? && !InNetwork(x, ParseNetwork(rec).value)
  }

  /** How the release loop of `edit_db` ends. */
  datatype Hit = NoMatch | Match(index: nat) | Fault

  function Shift(h: Hit): Hit {
    if h.Match? then Match(h.index + 1) else h
  }

  /**
   * The release loop: for each record in order, parse the address, parse the
   * record, stop at the first record whose network holds the address. Either
   * parse may raise ValueError (Fault); an empty ledger parses nothing.
   * ScanMatchMeans and ScanNoMatchMeans below state what each outcome means.
   */
  function Scan(address: string, records: seq<string>): (h: Hit)
    ensures h.Match? ==> h.index < |records|
    decreases |records|
  {
    if records == [] then NoMatch
    else
      match ParseAddress(address)
      case None => Fault
      case Some(x) =>
        match ParseNetwork(records[0])
        case None => Fault
        case Some(n) =>
          if InNetwork(x, n) then Match(0) else Shift(Scan(address, records[1..]))
  }

  /** TinyDB's `remove(where('ip_address') == t)`: every record equal to `t` goes. */
  function Without(records: seq<string>, t: string): (r: seq<string>)
    ensures |r| <= |records|
    ensures t !in r
  {
    if records == [] then []
    else (if records[0] == t then [] else [records[0]]) + Without(records[1..], t)
  }

  /** The other records all stay, each as often as before. */
  lemma {:induction false} WithoutKeepsOthers(records: seq<string>, t: string, s: string)
    requires s != t
    ensures multiset(Without(records, t))[s] == multiset(records)[s]
    decreases |records|
  {
    if records != [] {
      WithoutKeepsOthers(records[1..], t, s);
      assert records == [records[0]] + records[1..];
    }
  }

  /** The records that stay keep their order: the removal only leaves records out. */
  lemma {:induction false} WithoutSubsequence(records: seq<string>, t: string)
    ensures IsSubsequence(Without(records, t), records)
    decreases |records|
  {
    if records == [] {
    } else {
      var rest := records[1..];
      WithoutSubsequence(rest, t);
      assert records == [records[0]] + rest;
      if records[0] == t {
        assert Without(records, t) == Without(rest, t);
        SubsequenceConsRight(records[0], Without(rest, t), rest);
      } else {
        assert Without(records, t) == [records[0]] + Without(rest, t);
        SubsequenceConsBoth(records[0], Without(rest, t), rest);
      }
    }
  }

  /**
   * What `edit_db(address, add_to_db=False)` answers and leaves in the table:
   * a ValueError and no change, "" and no change, or the text of the first
   * record whose network holds the address with every copy of it removed.
   */
  function Release(address: string, records: seq<string>): (Result<string>, seq<string>) {
    match Scan(address, records)
    case Fault => (Raised(ValueError), records)
    case NoMatch => (Ok(""), records)
    case Match(k) => (Ok(records[k]), Without(records, records[k]))
  }

  /** One more record that misses `x` extends a run of misses. */
  lemma MissesExtend(records: seq<string>, x: Addr, i: nat)
    requires i < |records| && Misses(records[i], x)
    requires forall j :: 0 <= j < i ==> Misses(records[j], x)
    ensures forall j :: 0 <= j < i + 1 ==> Misses(records[j], x)
  {
  }

  /** The table of reserved networks, as TinyDB keeps it: records in insertion order. */
  class Ledger {
    var records: seq<string>

    constructor (initial: seq<string>)
      ensures records == initial
    {
      records := initial;
    }

    /** `Interface.check_ip_format`: is the candidate's address free? */
    method CheckIpFormat(candidate: string) returns (ok: bool)
      ensures ok == Available(records, candidate)
    {
      var text := Take(candidate, Find(candidate, "/"));
      var parsed := ParseAddress(text);
      if parsed.None? {
        return false;
      }
      var x := parsed.value;
      var i := 0;
      while i < |records|
        invariant 0 <= i <= |records|
        invariant forall k :: 0 <= k < i ==> Clear(records[k], x)
      {
        var net := ParseNetwork(records[i]);
        if net.None? {
          return false;
        }
        var hit := Reserves(net.value, x);
        if hit {
          return false;
        }
        i := i + 1;
      }
      return true;
    }

    /**
     * The inner loop of `check_ip_format`: does some host of `n`, or its
     * broadcast address, equal `x`?
     */
    static method Reserves(n: Cidr, x: Addr) returns (hit: bool)
      ensures hit == Conflicts(x, n)
    {
      var lo, hi := HostLo(n), HostHi(n);
      var h := lo;
      while h <= hi
        invariant lo <= h <= hi + 1
        invariant !(lo <= x < h)
        invariant h > lo ==> x != Broadcast(n)
      {
        if x == h || x == Broadcast(n) {
          InRange(lo, hi, x);
          return true;
        }
        h := h + 1;
      }
      InRange(lo, hi, x);
      return false;
    }

    /** `edit_db(ip_address, add_to_db=True)`: `DB_FILE.insert`. */
    method Insert(ip: string)
      modifies this
      ensures records == old(records) + [ip]
    {
      records := records + [ip];
    }

    /**
     * `edit_db(ip_address, add_to_db=False)`: find the first record whose
     * network holds the address and remove every record with that text;
     * answer the removed text, or "" when no record holds the address.
     */
    method Remove(address: string) returns (r: Result<string>)
      modifies this
      ensures (r, records) == Release(address, old(records))
    {
      var removed, found := "", false;
      ghost var pa := ParseAddress(address);
      var i := 0;
      while i < |records|
        invariant 0 <= i <= |records| && records == old(records) && !found
        invariant i > 0 ==> pa.Some?
        invariant i > 0 ==> forall j :: 0 <= j < i ==> Misses(records[j], pa.value)
      {
        var x := ParseAddress(address);
        if x.None? {
          ScanBadAddress(address, records);
          assert Release(address, records) == (Raised(ValueError), records);
          return Raised(ValueError);
        }
        var net := ParseNetwork(records[i]);
        if net.None? {
          ScanFaultAt(address, records, i);
          assert Release(address, records) == (Raised(ValueError), records);
          return Raised(ValueError);
        }
        if InNetwork(x.value, net.value) {
          ScanMatchAt(address, records, i);
          removed, found := records[i], true;
          break;
        }
        MissesExtend(records, x.value, i);
        i := i + 1;
      }
      if found {
        assert Release(address, records) == (Ok(removed), Without(records, removed));
        records := Without(records, removed);
      } else if records != [] {
        ScanMissesAll(address, records);
        assert Release(address, records) == (Ok(""), records);
      }
      return Ok(removed);
    }
  }

  // ---------------------------------------------------------------------
  // How the release loop ends, case by case

  /** An address that does not parse raises on the first record. */
  lemma ScanBadAddress(address: string, records: seq<string>)
    requires records != [] && ParseAddress(address).None?
    ensures Scan(address, records) == Fault
  {
  }

  /** A first record that misses the address hands the scan on to the rest. */
  lemma ScanPast(address: string, records: seq<string>)
    requires records != [] && ParseAddress(address).Some?
    requires Misses(records[0], ParseAddress(address).value)
    ensures Scan(address, records) == Shift(Scan(address, records[1..]))
  {
  }

  /** What the first record decides: a match, a fault, or passing the scan on. */
  lemma ScanHead(address: string, records: seq<string>)
    requires records != []
    ensures Scan(address, records) == Match(0) <==>
              ParseAddress(address).Some? && Holds(records[0], ParseAddress(address).value)
    ensures !Scan(address, records).Fault? && Scan(address, records) != Match(0) ==>
              ParseAddress(address).Some? && Misses(records[0], ParseAddress(address).value) &&
              Scan(address, records) == Shift(Scan(address, records[1..]))
  {
  }

  /** Missing the address in the first `k` records is missing it in the first and the next `k - 1`. */
  lemma MissesShift(records: seq<string>, x: Addr, k: nat)
    requires 0 < k <= |records|
    ensures (forall j :: 0 <= j < k ==> Misses(records[j], x)) <==>
            Misses(records[0], x) && forall j :: 0 <= j < k - 1 ==> Misses(records[1..][j], x)
  {
    var rest := records[1..];
    if Misses(records[0], x) && forall j :: 0 <= j < k - 1 ==> Misses(rest[j], x) {
      forall j | 0 < j < k
        ensures Misses(records[j], x)
      {
        assert records[j] == rest[j - 1];
      }
    }
  }

  /** The first record that holds the address, after records that miss it, is the match. */
  lemma {:induction false} ScanMatchAt(address: string, records: seq<string>, k: nat)
    requires k < |records| && ParseAddress(address).Some?
    requires forall j :: 0 <= j < k ==> Misses(records[j], ParseAddress(address).value)
    requires Holds(records[k], ParseAddress(address).value)
    ensures Scan(address, records) == Match(k)
    decreases k
  {
    if k == 0 {
      ScanHead(address, records);
    } else {
      MissesShift(records, ParseAddress(address).value, k);
      ScanMatchAt(address, records[1..], k - 1);
      ScanPast(address, records);
    }
  }

  /** A record that does not parse, after records that miss the address, raises. */
  lemma {:induction false} ScanFaultAt(address: string, records: seq<string>, k: nat)
    requires k < |records| && ParseAddress(address).Some?
    requires forall j :: 0 <= j < k ==> Misses(records[j], ParseAddress(address).value)
    requires ParseNetwork(records[k]).None?
    ensures Scan(address, records) == Fault
    decreases k
  {
    if k > 0 {
      MissesShift(records, ParseAddress(address).value, k);
      ScanFaultAt(address, records[1..], k - 1);
      ScanPast(address, records);
    }
  }

  /** Records that all miss the address leave nothing to remove. */
  lemma {:induction false} ScanMissesAll(address: string, records: seq<string>)
    requires ParseAddress(address).Some?
    requires forall j :: 0 <= j < |records| ==> Misses(records[j], ParseAddress(address).value)
    ensures Scan(address, records) == NoMatch
    decreases |records|
  {
    if records != [] {
      MissesShift(records, ParseAddress(address).value, |records|);
      ScanMissesAll(address, records[1..]);
      ScanPast(address, records);
    }
  }

  /** A match is the first record that holds the address, after records that all miss it. */
  lemma {:induction false} ScanMatchMeans(address: string, records: seq<string>, k: nat)
    requires Scan(address, records) == Match(k)
    ensures ParseAddress(address).Some?
    ensures Holds(records[k], ParseAddress(address).value)
    ensures forall j :: 0 <= j < k ==> Misses(records[j], ParseAddress(address).value)
    decreases |records|
  {
    ScanHead(address, records);
    if k > 0 {
      ScanMatchMeans(address, records[1..], k - 1);
      MissesShift(records, ParseAddress(address).value, k);
    }
  }

  /** No match: every record parses and misses the address (or there are none). */
  lemma {:induction false} ScanNoMatchMeans(address: string, records: seq<string>)
    requires Scan(address, records) == NoMatch && records != []
    ensures ParseAddress(address).Some?
    ensures forall j :: 0 <= j < |records| ==> Misses(records[j], ParseAddress(address).value)
    decreases |records|
  {
    ScanHead(address, records);
    if records[1..] != [] {
      ScanNoMatchMeans(address, records[1..]);
    }
    MissesShift(records, ParseAddress(address).value, |records|);
  }

  // ---------------------------------------------------------------------
  // What the conflict rule means

  /**
   * An address conflicts with a reserved network when it lies after the
   * network address up to the broadcast address; for /31 and /32 the network
   * address itself conflicts too.
   */
  lemma ConflictRule(x: Addr, n: Cidr)
    ensures n.prefix <= 30 ==> (Conflicts(x, n) <==> Base(n) < x <= Broadcast(n))
    ensures n.prefix >= 31 ==> (Conflicts(x, n) <==> Base(n) <= x <= Broadcast(n))
  {
    BlockFacts(n.prefix);
    InRange(HostLo(n), HostHi(n), x);
  }

  /** Every conflicting address lies in the network, so a release finds its record. */
  lemma ConflictsInside(x: Addr, n: Cidr)
    requires Conflicts(x, n)
    ensures InNetwork(x, n)
  {
    ConflictRule(x, n);
    InNetworkRange(x, n);
  }

  /** The text of a network without host bits parses back strictly. */
  lemma NetworkRoundTrip(c: Cidr)
    requires c.address == Base(c)
    ensures ParseNetwork(FormatCidr(c)) == Some(c)
  {
    CidrRoundTrip(c);
  }

  /** The address part of `a/p` is the address, whatever `p`. */
  lemma AddressPartOfCidr(c: Cidr)
    ensures ParseAddress(AddressPart(FormatCidr(c))) == Some(c.address)
  {
    CidrAddressText(c);
    AddressRoundTrip(c.address);
  }

  /**
   * The reserved network's own address is not checked for prefixes up to /30:
   * a ledger holding `n/p` still accepts `n/p` itself.
   */
  lemma OwnNetworkAddressAccepted(c: Cidr)
    requires c.address == Base(c) && c.prefix <= 30
    ensures Available([FormatCidr(c)], FormatCidr(c))
  {
    NetworkRoundTrip(c);
    AddressPartOfCidr(c);
    ConflictRule(c.address, c);
  }

  /** Only the address before the slash is checked: the candidate's prefix is ignored. */
  lemma PrefixIgnored(records: seq<string>, a: Addr, p: Prefix, q: Prefix)
    ensures Available(records, FormatCidr(Cidr(a, p))) == Available(records, FormatCidr(Cidr(a, q)))
  {
    AddressPartOfCidr(Cidr(a, p));
    AddressPartOfCidr(Cidr(a, q));
  }

  /** A candidate without a slash loses its last character before it is parsed. */
  lemma AddressPartWithoutSlash(candidate: string)
    requires '/' !in candidate && candidate != []
    ensures AddressPart(candidate) == candidate[..|candidate| - 1]
  {
    ContainsChar(candidate, '/');
    TakeUntil(candidate, "/");
  }

  /** A host or the broadcast address of any reserved network is refused. */
  lemma ReservedRefused(records: seq<string>, k: nat, c: Cidr)
    requires k < |records| && ParseNetwork(records[k]).Some?
    requires Conflicts(c.address, ParseNetwork(records[k]).value)
    ensures !Available(records, FormatCidr(c))
  {
    AddressPartOfCidr(c);
  }

  /** Any record that is not a strict network makes every check fail. */
  lemma MalformedRecordRefuses(records: seq<string>, k: nat, candidate: string)
    requires k < |records| && ParseNetwork(records[k]).None?
    ensures !Available(records, candidate)
  {
    if ParseAddress(AddressPart(candidate)).Some? {
      assert !Clear(records[k], ParseAddress(AddressPart(candidate)).value);
    }
  }

  /** With no records, exactly the candidates whose address part parses are free. */
  lemma EmptyLedgerAccepts(c: Cidr)
    ensures Available([], FormatCidr(c))
  {
    AddressPartOfCidr(c);
  }

  // ---------------------------------------------------------------------
  // What a release removes

  /** A text that occurs once is removed from its place and nowhere else. */
  lemma {:induction false} WithoutUnique(records: seq<string>, k: nat)
    requires k < |records|
    requires forall j :: 0 <= j < |records| && j != k ==> records[j] != records[k]
    ensures Without(records, records[k]) == records[..k] + records[k + 1..]
    decreases k
  {
    var t := records[k];
    if k > 0 {
      var rest := records[1..];
      assert forall j :: 0 <= j < |rest| && j != k - 1 ==> rest[j] != rest[k - 1] by {
        forall j | 0 <= j < |rest| && j != k - 1
          ensures rest[j] != rest[k - 1]
        {
          assert rest[j] == records[j + 1];
        }
      }
      WithoutUnique(rest, k - 1);
      assert records[..k] == [records[0]] + rest[..k - 1];
      assert records[k + 1..] == rest[k..];
    } else {
      WithoutAbsent(records[1..], t);
    }
  }

  /** Removing a text that does not occur changes nothing. */
  lemma {:induction false} WithoutAbsent(records: seq<string>, t: string)
    requires t !in records
    ensures Without(records, t) == records
    decreases |records|
  {
    if records != [] {
      WithoutAbsent(records[1..], t);
    }
  }

  /** Removing the last record, when its text occurs nowhere else, restores the rest. */
  lemma WithoutLast(records: seq<string>, ip: string)
    requires ip !in records
    ensures Without(records + [ip], ip) == records
  {
    var s := records + [ip];
    forall j | 0 <= j < |s| && j != |records|
      ensures s[j] != s[|records|]
    {
      assert s[j] == records[j];
    }
    WithoutUnique(s, |records|);
    assert s[..|records|] == records;
  }

  /**
   * Releasing an address held by record `k`, the first to hold it, removes
   * that record and keeps the others in order, when its text is not repeated.
   */
  lemma ReleaseFirstHolder(address: string, records: seq<string>, k: nat)
    requires k < |records| && ParseAddress(address).Some?
    requires forall j :: 0 <= j < k ==> Misses(records[j], ParseAddress(address).value)
    requires Holds(records[k], ParseAddress(address).value)
    requires forall j :: 0 <= j < |records| && j != k ==> records[j] != records[k]
    ensures Release(address, records) == (Ok(records[k]), records[..k] + records[k + 1..])
  {
    ScanMatchAt(address, records, k);
    WithoutUnique(records, k);
  }

  /**
   * Whatever a release answers, the table it leaves is the old one with some
   * records left out and the rest in their old order; only copies of the
   * released text go, every other text stays as often as before.
   */
  lemma ReleaseKeepsOrder(address: string, records: seq<string>)
    ensures IsSubsequence(Release(address, records).1, records)
    ensures forall s :: Release(address, records).0 != Ok(s) ==>
      multiset(Release(address, records).1)[s] == multiset(records)[s]
  {
    match Scan(address, records)
    case Fault =>
      SubsequenceRefl(records);
    case NoMatch =>
      SubsequenceRefl(records);
    case Match(k) =>
      WithoutSubsequence(records, records[k]);
      forall s | Release(address, records).0 != Ok(s)
        ensures multiset(Release(address, records).1)[s] == multiset(records)[s]
      {
        if s != records[k] {
          WithoutKeepsOthers(records, records[k], s);
        }
      }
  }

  /** Releasing an address no record holds answers "" and changes nothing. */
  lemma ReleaseUnheld(address: string, records: seq<string>)
    requires ParseAddress(address).Some?
    requires forall j :: 0 <= j < |records| ==> Misses(records[j], ParseAddress(address).value)
    ensures Release(address, records) == (Ok(""), records)
  {
    ScanMissesAll(address, records);
  }

  /**
   * Inserting a network and releasing one of its addresses restores the
   * ledger, when no earlier record holds the address and the text is new.
   */
  lemma InsertThenRelease(records: seq<string>, ip: string, n: Cidr, x: Addr)
    requires ParseNetwork(ip) == Some(n) && InNetwork(x, n) && ip !in records
    requires forall j :: 0 <= j < |records| ==> Misses(records[j], x)
    ensures Release(FormatAddress(x), records + [ip]) == (Ok(ip), records)
  {
    AddressRoundTrip(x);
    ScanAppended(FormatAddress(x), records, ip);
    WithoutLast(records, ip);
  }

  /** After records that all miss, an appended record that holds the address is the match. */
  lemma ScanAppended(address: string, records: seq<string>, ip: string)
    requires ParseAddress(address).Some? && Holds(ip, ParseAddress(address).value)
    requires forall j :: 0 <= j < |records| ==> Misses(records[j], ParseAddress(address).value)
    ensures Scan(address, records + [ip]) == Match(|records|)
  {
    var s := records + [ip];
    assert forall j :: 0 <= j < |records| ==> s[j] == records[j];
    ScanMatchAt(address, s, |records|);
  }
}
