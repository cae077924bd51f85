/**
 * The interface catalog: `Interface.get_all_interfaces_of_type` filters the
 * interface names the device reports (`show interfaces`), and
 * `Interface.check_name` asks whether a name is already taken. Only the
 * `interface` field of each reported entry takes part, so an entry is its name.
 */
module InterfaceCatalog {
  import opened PyText

  /** The three name texts the Physical type looks for, in the order of its passes. */
  const PhysicalKinds: seq<string> := ["Ethernet", "Serial", "BRI"]

  /** One pass picks `name` when it contains `text`, and no dot when `dotless` is set. */
  predicate Picks(name: string, text: string, dotless: bool) {
    Contains(name, text) && (dotless ==> !Contains(name, "."))
  }

  /** One pass over the device list: the picked names, in device order. */
  function Pass(names: seq<string>, text: string, dotless: bool): seq<string>
    decreases |names|
  {
    if names == [] then []
    else
      var last := names[|names| - 1];
      Pass(names[..|names| - 1], text, dotless) + (if Picks(last, text, dotless) then [last] else [])
  }

  /** One Physical pass per text of `kinds`, results one after another. */
  function Passes(kinds: seq<string>, names: seq<string>): seq<string>
    decreases |kinds|
  {
    if kinds == [] then []
    else Passes(kinds[..|kinds| - 1], names) + Pass(names, kinds[|kinds| - 1], true)
  }

  /** What `get_all_interfaces_of_type` returns for `interface_type == kind`. */
  function OfType(kind: string, names: seq<string>): seq<string> {
    if kind == "Physical" then Passes(PhysicalKinds, names)
    else if kind == "Vlan" then Pass(names, ".", false)
    else Pass(names, kind, false)
  }

  /** A pass over one more name adds that name when the pass picks it. */
  lemma PassStep(names: seq<string>, i: nat, text: string, dotless: bool)
    requires i < |names|
    ensures Pass(names[..i + 1], text, dotless) ==
            Pass(names[..i], text, dotless) + (if Picks(names[i], text, dotless) then [names[i]] else [])
  {
    assert names[..i + 1][..i] == names[..i];
  }

  /** `Interface.get_all_interfaces_of_type`, loop by loop. */
  method InterfacesOfType(kind: string, names: seq<string>) returns (r: seq<string>)
    ensures r == OfType(kind, names)
  {
    r := [];
    if kind == "Physical" {
      var k := 0;
      while k < |PhysicalKinds|
        invariant 0 <= k <= |PhysicalKinds|
        invariant r == Passes(PhysicalKinds[..k], names)
      {
        var text := PhysicalKinds[k];
        var i := 0;
        while i < |names|
          invariant 0 <= i <= |names|
          invariant r == Passes(PhysicalKinds[..k], names) + Pass(names[..i], text, true)
        {
          PassStep(names, i, text, true);
          if Contains(names[i], text) && !Contains(names[i], ".") {
            r := r + [names[i]];
          }
          i := i + 1;
        }
        assert names[..i] == names;
        assert PhysicalKinds[..k + 1][..k] == PhysicalKinds[..k];
        k := k + 1;
      }
      assert PhysicalKinds[..k] == PhysicalKinds;
    } else if kind == "Vlan" {
      var i := 0;
      while i < |names|
        invariant 0 <= i <= |names|
        invariant r == Pass(names[..i], ".", false)
      {
        PassStep(names, i, ".", false);
        if Contains(names[i], ".") {
          r := r + [names[i]];
        }
        i := i + 1;
      }
      assert names[..i] == names;
    } else {
      var i := 0;
      while i < |names|
        invariant 0 <= i <= |names|
        invariant r == Pass(names[..i], kind, false)
      {
        PassStep(names, i, kind, false);
        if Contains(names[i], kind) {
          r := r + [names[i]];
        }
        i := i + 1;
      }
      assert names[..i] == names;
    }
  }

  /**
   * `Interface.check_name`: true when no interface of the type has exactly
   * this name. There is no trimming and no case folding.
   */
  method CheckName(kind: string, names: seq<string>, candidate: string) returns (free: bool)
    ensures free <==> candidate !in OfType(kind, names)
  {
    var taken := InterfacesOfType(kind, names);
    var i := 0;
    while i < |taken|
      invariant 0 <= i <= |taken|
      invariant candidate !in taken[..i]
    {
      if taken[i] == candidate {
        return false;
      }
      assert taken[..i + 1] == taken[..i] + [taken[i]];
      i := i + 1;
    }
    assert taken[..i] == taken;
    return true;
  }

  // ---------------------------------------------------------------------
  // What a pass keeps

  /** A pass keeps device order: its result is a subsequence of the device list. */
  lemma {:induction false} PassSubsequence(names: seq<string>, text: string, dotless: bool)
    ensures IsSubsequence(Pass(names, text, dotless), names)
    decreases |names|
  {
    if names != [] {
      var init, last := names[..|names| - 1], names[|names| - 1];
      PassSubsequence(init, text, dotless);
      var p := Pass(init, text, dotless);
      if Picks(last, text, dotless) {
        var a := p + [last];
        assert Pass(names, text, dotless) == a;
        assert a[..|a| - 1] == p && a[|a| - 1] == last;
      } else {
        assert Pass(names, text, dotless) == p;
        assert IsSubsequence(p, names[..|names| - 1]);
      }
    }
  }

  /** A name is in a pass exactly when it is in the device list and the pass picks it. */
  lemma {:induction false} PassMembers(names: seq<string>, text: string, dotless: bool, n: string)
    ensures n in Pass(names, text, dotless) <==> n in names && Picks(n, text, dotless)
    decreases |names|
  {
    if names != [] {
      var init := names[..|names| - 1];
      PassMembers(init, text, dotless, n);
      assert names == init + [names[|names| - 1]];
    }
  }

  /** A pass lists a picked name as often as the device does, and others never. */
  lemma {:induction false} PassCount(names: seq<string>, text: string, dotless: bool, n: string)
    ensures multiset(Pass(names, text, dotless))[n] == if Picks(n, text, dotless) then multiset(names)[n] else 0
    decreases |names|
  {
    if names != [] {
      var init := names[..|names| - 1];
      PassCount(init, text, dotless, n);
      assert names == init + [names[|names| - 1]];
    }
  }

  // ---------------------------------------------------------------------
  // The three kinds of request

  /** Vlan: exactly the names with a dot, in device order. */
  lemma VlanNames(names: seq<string>)
    ensures IsSubsequence(OfType("Vlan", names), names)
    ensures forall n :: n in OfType("Vlan", names) <==> n in names && '.' in n
  {
    PassSubsequence(names, ".", false);
    forall n
      ensures n in OfType("Vlan", names) <==> n in names && '.' in n
    {
      PassMembers(names, ".", false, n);
      ContainsChar(n, '.');
    }
  }

  /** Any other type: exactly the names that contain the type's text, in device order. */
  lemma OtherNames(kind: string, names: seq<string>)
    requires kind != "Physical" && kind != "Vlan"
    ensures IsSubsequence(OfType(kind, names), names)
    ensures forall n :: n in OfType(kind, names) <==> n in names && Contains(n, kind)
  {
    PassSubsequence(names, kind, false);
    forall n
      ensures n in OfType(kind, names) <==> n in names && Contains(n, kind)
    {
      PassMembers(names, kind, false, n);
    }
  }

  /** The Physical list, written out as its three passes. */
  lemma PhysicalPasses(names: seq<string>)
    ensures OfType("Physical", names) ==
              Pass(names, "Ethernet", true) + Pass(names, "Serial", true) + Pass(names, "BRI", true)
  {
    var e, sr, b := Pass(names, "Ethernet", true), Pass(names, "Serial", true), Pass(names, "BRI", true);
    assert PhysicalKinds[..2] == ["Ethernet", "Serial"];
    assert ["Ethernet", "Serial"][..1] == ["Ethernet"];
    assert ["Ethernet"][..0] == [];
    assert Passes(["Ethernet"], names) == [] + e == e;
    assert Passes(["Ethernet", "Serial"], names) == e + sr;
  }

  /**
   * Physical: a name without a dot is listed once per text of Ethernet,
   * Serial and BRI it contains, as often as the device lists it; a name with
   * a dot never. Each of the three groups keeps device order.
   */
  lemma PhysicalNames(names: seq<string>, n: string)
    ensures multiset(OfType("Physical", names))[n] ==
              if Contains(n, ".") then 0
              else multiset(names)[n] *
                     ((if Contains(n, "Ethernet") then 1 else 0) +
                      (if Contains(n, "Serial") then 1 else 0) +
                      (if Contains(n, "BRI") then 1 else 0))
    ensures forall t :: t in PhysicalKinds ==> IsSubsequence(Pass(names, t, true), names)
  {
    PhysicalPasses(names);
    PassCount(names, "Ethernet", true, n);
    PassCount(names, "Serial", true, n);
    PassCount(names, "BRI", true, n);
    forall t | t in PhysicalKinds
      ensures IsSubsequence(Pass(names, t, true), names)
    {
      PassSubsequence(names, t, true);
    }
  }

  /** A name is taken exactly when the type's list holds it character for character. */
  lemma NameTakenExactly(kind: string, names: seq<string>, candidate: string)
    requires kind != "Physical" && kind != "Vlan"
    ensures candidate !in OfType(kind, names) <==> candidate !in names || !Contains(candidate, kind)
  {
    PassMembers(names, kind, false, candidate);
  }
}
