/**
 * The text handling around a device's running configuration: cutting the
 * stanza of one interface out of `show run interface X`, reading the host
 * name out of `show run`, and building the commands and the ledger release
 * that delete an interface (`Interface.delete`, `Physical.delete_physical`).
 * Device output is a parameter; sending commands is recorded, not performed.
 */
module InterfaceConfig {
  import opened Wrappers
  import opened PyText
  import opened DottedQuads
  import opened AddressLedger
  import opened InterfaceCatalog

  /**
   * `details[details.find("interface"):]`: the text from the first
   * "interface" on, and only the last character when there is none.
   */
  function InterfaceStanza(details: string): (r: string)
    ensures |r| <= |details| && r == details[|details| - |r|..]
    ensures Contains(details, "interface") ==> OccursAt(r, "interface", 0)
    ensures forall j :: 0 <= j < |details| - |r| ==> !OccursAt(details, "interface", j)
    ensures !Contains(details, "interface") && details != [] ==> |r| == 1
  {
    DropFrom(details, "interface");
    Drop(details, Find(details, "interface"))
  }

  /** `Session.get_hostname`: the text after "hostname " up to the end of its line. */
  function Hostname(config: string): string {
    var name := Drop(config, Find(config, "hostname") + 9);
    Take(name, Find(name, "\n"))
  }

  /** `details[:details.find("\n")]`: the first line, or all but the last character. */
  function FirstLine(details: string): string {
    Take(details, Find(details, "\n"))
  }

  /** What one delete sends to the device and which address it releases from the ledger. */
  datatype Plan = Plan(commands: seq<string>, release: string)

  /**
   * `Interface.delete`: release the first dotted-quad literal of the text and
   * send `no <first line>`; with no literal, `[0]` raises IndexError first.
   */
  function DeletePlan(details: string): (r: Result<Plan>)
    ensures r.Raised? <==> !HasLiteral(details)
    ensures r.Raised? ==> r.error == IndexError
    ensures r.Ok? ==> r.value.commands == ["no " + FirstLine(details)]
    ensures r.Ok? ==> exists i: nat, j: nat :: FirstLiteral(details, i, j) && r.value.release == details[i..j]
  {
    NoAddressesIffNoLiteral(details);
    var found := AllIpAddresses(details);
    if found == [] then Raised(IndexError)
    else
      FirstAddress(details);
      Ok(Plan(["no " + FirstLine(details)], found[0]))
  }

  /** `Physical.check_in_use`: true (free) when the configuration holds no dotted-quad literal. */
  function CheckInUse(details: string): (free: bool)
    ensures free <==> !HasLiteral(details)
  {
    NoAddressesIffNoLiteral(details);
    |AllIpAddresses(details)| == 0
  }

  /** The fixed commands that strip a Serial interface. */
  function SerialTeardown(name: string): seq<string> {
    ["interface " + name, "no desc", "no ip address", "shutdown"]
  }

  /**
   * The Serial branch of `delete_physical`: the teardown commands, and the
   * first literal from "ip address" on in the stanza.
   */
  function SerialPlan(name: string, stanza: string): (r: Result<Plan>)
    ensures r.Raised? <==> !HasLiteral(Drop(stanza, Find(stanza, "ip address")))
    ensures r.Raised? ==> r.error == IndexError
    ensures r.Ok? ==> r.value.commands == SerialTeardown(name)
    ensures r.Ok? ==> var tail := Drop(stanza, Find(stanza, "ip address"));
      exists i: nat, j: nat :: FirstLiteral(tail, i, j) && r.value.release == tail[i..j]
  {
    var tail := Drop(stanza, Find(stanza, "ip address"));
    NoAddressesIffNoLiteral(tail);
    var found := AllIpAddresses(tail);
    if found == [] then Raised(IndexError)
    else
      FirstAddress(tail);
      Ok(Plan(SerialTeardown(name), found[0]))
  }

  /**
   * `Physical.delete_physical` as written: the non-Serial branch hands the
   * interface NAME to `delete` instead of its configuration.
   */
  function DeletePhysicalAsWritten(name: string, details: string): Result<Plan> {
    var stanza := InterfaceStanza(details);
    if Contains(name, "Serial") then SerialPlan(name, stanza) else DeletePlan(name)
  }

  /** `Physical.delete_physical` with the stanza handed to `delete`, as intended. */
  function DeletePhysical(name: string, details: string): Result<Plan> {
    var stanza := InterfaceStanza(details);
    if Contains(name, "Serial") then SerialPlan(name, stanza) else DeletePlan(stanza)
  }

  /**
   * `Interface.delete` on the chosen stanza: the release address is looked up
   * first, then the command is sent and the address is released.
   */
  method Delete(ledger: Ledger, details: string) returns (sent: seq<string>, released: Result<string>)
    modifies ledger
    ensures DeletePlan(details).Raised? ==>
              sent == [] && released == Raised(IndexError) && ledger.records == old(ledger.records)
    ensures DeletePlan(details).Ok? ==>
              sent == DeletePlan(details).value.commands &&
              (released, ledger.records) == Release(DeletePlan(details).value.release, old(ledger.records))
  {
    var found := AllIpAddresses(details);
    if found == [] {
      return [], Raised(IndexError);
    }
    var address := found[0];
    sent := ["no " + FirstLine(details)];
    released := ledger.Remove(address);
  }

  /** `Physical.delete_physical`, Serial branch as written, other branch as intended. */
  method DeletePhysicalInterface(ledger: Ledger, name: string, details: string)
    returns (sent: seq<string>, released: Result<string>)
    modifies ledger
    ensures DeletePhysical(name, details).Raised? ==>
              sent == [] && released == Raised(IndexError) && ledger.records == old(ledger.records)
    ensures DeletePhysical(name, details).Ok? ==>
              sent == DeletePhysical(name, details).value.commands &&
              (released, ledger.records) == Release(DeletePhysical(name, details).value.release, old(ledger.records))
  {
    var stanza := InterfaceStanza(details);
    if Contains(name, "Serial") {
      var tail := Drop(stanza, Find(stanza, "ip address"));
      var found := AllIpAddresses(tail);
      if found == [] {
        return [], Raised(IndexError);
      }
      sent := SerialTeardown(name);
      released := ledger.Remove(found[0]);
    } else {
      sent, released := Delete(ledger, stanza);
    }
  }

  // ---------------------------------------------------------------------
  // What the slices pick out

  /** With no "hostname" before it, `find` stops at the one right after `pre`. */
  lemma HostnameFoundAfter(pre: string, h: string, rest: string)
    requires !Contains(pre + "hostnam", "hostname")
    ensures Find(pre + "hostname " + h + "\n" + rest, "hostname") == |pre|
  {
    var c := pre + "hostname " + h + "\n" + rest;
    var k := |pre|;
    assert c[k..k + 8] == "hostname";
    assert OccursAt(c, "hostname", k);
    forall j | 0 <= j < k
      ensures !OccursAt(c, "hostname", j)
    {
      if OccursAt(c, "hostname", j) {
        assert c[j..j + 8] == (pre + "hostnam")[j..j + 8];
        ContainsAt(pre + "hostnam", "hostname", j);
        assert false;
      }
    }
  }

  /** When the text after the first "hostname " is a line `h`, the host name is `h`. */
  lemma HostnameIsLine(c: string, h: string, rest: string)
    requires Drop(c, Find(c, "hostname") + 9) == h + ['\n'] + rest && '\n' !in h
    ensures Hostname(c) == h
  {
    FindAfterPrefix(h, '\n', rest);
    assert Take(h + ['\n'] + rest, |h|) == h;
  }

  /**
   * With "hostname " at the start of a line and no earlier "hostname", the
   * host name is the rest of that line.
   */
  lemma HostnameOfLine(pre: string, h: string, rest: string)
    requires !Contains(pre + "hostnam", "hostname") && '\n' !in h
    ensures Hostname(pre + "hostname " + h + "\n" + rest) == h
  {
    HostnameFoundAfter(pre, h, rest);
    LineAfterHostname(pre, h, rest);
    HostnameIsLine(pre + "hostname " + h + "\n" + rest, h, rest);
  }

  /** What follows "hostname " is the line holding the name and the rest of the text. */
  lemma LineAfterHostname(pre: string, h: string, rest: string)
    ensures Drop(pre + "hostname " + h + "\n" + rest, |pre| + 9) == h + ['\n'] + rest
  {
    assert pre + "hostname " + h + "\n" + rest == (pre + "hostname ") + (h + ['\n'] + rest);
  }

  /** Without "hostname", `find` gives -1 and the name is read from position 8 on. */
  lemma HostnameMissing(config: string)
    requires !Contains(config, "hostname") && |config| >= 8
    ensures Hostname(config) == FirstLine(config[8..])
  {
  }

  /** The first line of a text with a newline is the text before it. */
  lemma FirstLineOf(line: string, rest: string)
    requires '\n' !in line
    ensures FirstLine(line + "\n" + rest) == line
  {
    FindAfterPrefix(line, '\n', rest);
  }

  /** A text without a newline loses its last character. */
  lemma FirstLineWithoutNewline(details: string)
    requires '\n' !in details && details != []
    ensures FirstLine(details) == details[..|details| - 1]
  {
    ContainsChar(details, '\n');
    TakeUntil(details, "\n");
  }

  /** Deleting a stanza that starts with `interface X` sends `no interface X`. */
  lemma DeleteCommandOfStanza(name: string, body: string)
    requires '\n' !in name && HasLiteral("interface " + name + "\n" + body)
    ensures DeletePlan("interface " + name + "\n" + body).Ok?
    ensures DeletePlan("interface " + name + "\n" + body).value.commands == ["no interface " + name]
  {
    var line := "interface " + name;
    assert '\n' !in line;
    FirstLineOf(line, body);
    assert "no " + line == "no interface " + name;
  }

  // ---------------------------------------------------------------------
  // delete_physical: the name handed to delete

  /**
   * Every interface the Physical menu offers has no dot, so the as-written
   * non-Serial branch finds no address in the name and raises IndexError,
   * whatever the device's configuration says.
   */
  lemma AsWrittenNonSerialFails(names: seq<string>, name: string, details: string)
    requires name in OfType("Physical", names) && !Contains(name, "Serial")
    ensures DeletePhysicalAsWritten(name, details) == Raised(IndexError)
  {
    PhysicalNames(names, name);
    ContainsChar(name, '.');
    NoDotNoAddress(name);
  }

  /**
   * As intended, a non-Serial interface whose stanza holds an address is
   * deleted: `no` and the stanza's first line is sent and the first address
   * literal of the stanza is released.
   */
  lemma CorrectedNonSerialDeletes(name: string, details: string)
    requires !Contains(name, "Serial") && HasLiteral(InterfaceStanza(details))
    ensures DeletePhysical(name, details).Ok?
    ensures DeletePhysical(name, details).value.commands == ["no " + FirstLine(InterfaceStanza(details))]
    ensures var stanza := InterfaceStanza(details);
      exists i: nat, j: nat :: FirstLiteral(stanza, i, j) && DeletePhysical(name, details).value.release == stanza[i..j]
  {
  }

  /** The two versions differ only in the non-Serial branch. */
  lemma SerialBranchUnchanged(name: string, details: string)
    requires Contains(name, "Serial")
    ensures DeletePhysical(name, details) == DeletePhysicalAsWritten(name, details)
    ensures DeletePhysical(name, details).Ok? ==> DeletePhysical(name, details).value.commands == SerialTeardown(name)
  {
  }
}
