// Configurations: the descriptor walks, interface switching and endpoint allocation of
// firmware/.../services/usb/udc/udc.c, with the allocation of udd_ep_alloc and udd_ep_free.

/** Configuration descriptors as bytes, and as the list that a walk over them sees. */
module Descriptors {

  type byte = x: int | 0 <= x < 256

  const USB_DT_INTERFACE := 4
  const USB_DT_ENDPOINT := 5

  /** What a walk sees: interface and endpoint descriptors; endpoints by their place in the table. */
  datatype Desc = Iface(num: nat, alt: nat) | Ep(index: nat) | Other

  /** The entry of the endpoint table for an endpoint address: number and direction. */
  function EpIndex(address: byte): nat {
    2 * (address % 16) + if address >= 128 then 1 else 0
  }

  /** Endpoint addresses have the same entry exactly when number and direction are the same. */
  lemma EpIndexTells(a: byte, b: byte)
    ensures EpIndex(a) == EpIndex(b) <==> a % 16 == b % 16 && (a >= 128 <==> b >= 128)
  {
  }

  /** From pos on, descriptor follows descriptor up to the end: every length is positive and fits. */
  ghost predicate WalkOk(bytes: seq<byte>, pos: nat)
    decreases |bytes| - pos
  {
    pos == |bytes| ||
    (&& pos + 1 < |bytes|
     && 2 <= bytes[pos] && pos + bytes[pos] <= |bytes|
     && (bytes[pos + 1] == USB_DT_INTERFACE ==> 9 <= bytes[pos])
     && (bytes[pos + 1] == USB_DT_ENDPOINT ==> 7 <= bytes[pos])
     && WalkOk(bytes, pos + bytes[pos]))
  }

  ghost function DescAt(bytes: seq<byte>, pos: nat): Desc
    requires WalkOk(bytes, pos) && pos < |bytes|
  {
    if bytes[pos + 1] == USB_DT_INTERFACE then Iface(bytes[pos + 2], bytes[pos + 3])
    else if bytes[pos + 1] == USB_DT_ENDPOINT then Ep(EpIndex(bytes[pos + 2]))
    else Other
  }

  ghost function Parse(bytes: seq<byte>, pos: nat): seq<Desc>
    requires WalkOk(bytes, pos)
    decreases |bytes| - pos
  {
    if pos == |bytes| then [] else [DescAt(bytes, pos)] + Parse(bytes, pos + bytes[pos])
  }

  /** The list from the first descriptor of interface num with setting alt on. */
  ghost function Seek(ds: seq<Desc>, num: nat, alt: nat): seq<Desc> {
    if ds == [] || ds[0] == Iface(num, alt) then ds else Seek(ds[1..], num, alt)
  }

  /** The endpoints before the next interface descriptor. */
  ghost function Block(ds: seq<Desc>): seq<nat> {
    if ds == [] || ds[0].Iface? then []
    else (if ds[0].Ep? then [ds[0].index] else []) + Block(ds[1..])
  }
}

module UsbConfig {
  import opened Descriptors

  const USB_DEVICE_MAX_EP := 2

  /**
   * A configuration: its descriptors, its number of interfaces, and for an interface and a
   * setting the endpoints on which the class driver starts a transfer when it is enabled.
   */
  datatype Config = Config(bytes: seq<byte>, numInterfaces: nat, starts: map<(nat, nat), seq<nat>>)

  /** The endpoints listed behind the descriptor at pos, before the next interface. */
  ghost function Behind(bytes: seq<byte>, pos: nat): seq<nat>
    requires WalkOk(bytes, pos) && pos < |bytes|
  {
    Block(Parse(bytes, pos + bytes[pos]))
  }

  /** There is a descriptor for interface i with setting s. */
  ghost predicate Has(c: Config, i: nat, s: nat)
    requires WalkOk(c.bytes, 0)
  {
    Seek(Parse(c.bytes, 0), i, s) != []
  }

  /** The endpoints of interface i with setting s. */
  ghost function EpsOf(c: Config, i: nat, s: nat): seq<nat>
    requires WalkOk(c.bytes, 0)
  {
    var found := Seek(Parse(c.bytes, 0), i, s);
    if found == [] then [] else Block(found[1..])
  }

  /** The endpoints of the interfaces that are on, each with its setting. */
  ghost function EpsOfAll(c: Config, on: map<nat, nat>): set<nat>
    requires WalkOk(c.bytes, 0)
  {
    set i, e | i in on && e in EpsOf(c, i, on[i]) :: e
  }

  function StartsOf(c: Config, i: nat, s: nat): seq<nat> {
    if (i, s) in c.starts then c.starts[(i, s)] else []
  }

  ghost predicate NoDuplicates(s: seq<nat>) {
    forall j, k :: 0 <= j < k < |s| ==> s[j] != s[k]
  }

  /** A descriptor that the walks can follow and whose interfaces do not share endpoints. */
  ghost predicate WellFormed(c: Config) {
    && WalkOk(c.bytes, 0)
    && (forall i :: 0 <= i < c.numInterfaces ==> Has(c, i, 0))
    && (forall i, s: nat :: 0 <= i < c.numInterfaces ==>
        NoDuplicates(EpsOf(c, i, s)) && NoDuplicates(StartsOf(c, i, s)))
    && (forall i, s: nat, e :: 0 <= i < c.numInterfaces && e in StartsOf(c, i, s) ==> e in EpsOf(c, i, s))
    && (forall i, j, s: nat, t: nat, e :: 0 <= i < j < c.numInterfaces && e in EpsOf(c, i, s) ==> e !in EpsOf(c, j, t))
  }

  /**
   * Switching an interface off frees what its class driver reports: every endpoint of the
   * setting in use, if the driver reports that, and otherwise those of setting 0.
   */
  ghost predicate Released(c: Config, reportsCurrent: bool)
    requires WalkOk(c.bytes, 0)
  {
    reportsCurrent || forall i: nat, s: nat, e :: i < c.numInterfaces && e in EpsOf(c, i, s) ==> e in EpsOf(c, i, 0)
  }

  /** What the class driver of interface i answers when it is asked for its setting. */
  function Reported(setting: map<nat, nat>, reportsCurrent: bool, i: nat): nat {
    if reportsCurrent && i in setting then setting[i] else 0
  }

  /** The class drivers of a configuration report settings that exist. */
  ghost predicate AllExist(c: Config, setting: map<nat, nat>, reportsCurrent: bool)
    requires WalkOk(c.bytes, 0)
  {
    forall i :: 0 <= i < c.numInterfaces ==> Has(c, i, Reported(setting, reportsCurrent, i))
  }

  /** Interfaces that are on are in the configuration, and drivers that report the setting in use do so. */
  ghost predicate Tracks(c: Config, setting: map<nat, nat>, reportsCurrent: bool, on: map<nat, nat>) {
    forall i :: i in on ==> i < c.numInterfaces && (reportsCurrent ==> Reported(setting, reportsCurrent, i) == on[i])
  }

  /** The elements of a sequence. */
  ghost function Elems(s: seq<nat>): set<nat> {
    set e | e in s
  }

  class Udc {
    const configs: seq<Config>
    /** The class drivers report the setting in use; those of this firmware report 0 always. */
    const reportsCurrent: bool
    var numConfiguration: nat
    var ptrConf: nat
    var ptrIface: nat
    var address: nat
    /** The endpoint table: which entries are allocated, and which of those have a job. */
    var enabled: set<nat>
    var busy: set<nat>
    /** The setting with which each class driver was enabled last. */
    var setting: map<nat, nat>
    /** The interfaces that are switched on, with their settings. */
    ghost var on: map<nat, nat>

    constructor (configs: seq<Config>, reportsCurrent: bool)
      requires forall k :: 0 <= k < |configs| ==> WellFormed(configs[k])
      ensures Valid() && numConfiguration == 0 && enabled == {} && address == 0
      ensures this.configs == configs && this.reportsCurrent == reportsCurrent
    {
      this.configs, this.reportsCurrent := configs, reportsCurrent;
      numConfiguration, ptrConf, ptrIface, address := 0, 0, 0, 0;
      enabled, busy, setting, on := {}, {}, map[], map[];
    }

    ghost predicate Sane()
      reads this
    {
      && (forall k :: 0 <= k < |configs| ==> WellFormed(configs[k]))
      && numConfiguration <= |configs| && (numConfiguration > 0 ==> ptrConf == numConfiguration - 1)
      && busy <= enabled
    }

    /** The configuration in use. */
    ghost function Current(): Config
      requires Sane() && numConfiguration > 0
      reads this
    {
      configs[ptrConf]
    }

    function GetSetting(iface: nat): nat
      reads this
    {
      Reported(setting, reportsCurrent, iface)
    }

    ghost predicate Reportable()
      requires Sane()
      reads this
    {
      numConfiguration > 0 ==> AllExist(Current(), setting, reportsCurrent)
    }

    /** Every interface can be switched off completely. */
    ghost predicate AllReleased()
      requires Sane()
      reads this
    {
      forall k :: 0 <= k < |configs| ==> Released(configs[k], reportsCurrent)
    }

    /** Exactly the endpoints of the interfaces that are on are allocated. */
    ghost predicate Valid()
      reads this
    {
      && Sane() && Reportable()
      && (numConfiguration == 0 ==> enabled == {} && on == map[])
      && (numConfiguration > 0 ==> Tracks(Current(), setting, reportsCurrent, on) && enabled == EpsOfAll(Current(), on))
    }

    /** Finds the first descriptor of an interface and setting; ptrIface points at it. */
    method UpdateIfaceDesc(iface: nat, setting: nat) returns (found: bool)
      requires Sane()
      modifies this`ptrIface
      ensures numConfiguration == 0 ==> !found
      ensures numConfiguration > 0 ==>
        var c := Current();
        var rest := Seek(Parse(c.bytes, 0), iface, setting);
        && (found <==> iface < c.numInterfaces && rest != [])
        && (found ==> ptrIface < |c.bytes| && WalkOk(c.bytes, ptrIface) && Parse(c.bytes, ptrIface) == rest)
    {
      if numConfiguration == 0 {
        return false;
      }
      var conf := configs[ptrConf];
      if iface >= conf.numInterfaces {
        return false;
      }
      ptrIface := 0;
      while ptrIface < |conf.bytes|
        invariant ptrIface <= |conf.bytes| && WalkOk(conf.bytes, ptrIface)
        invariant Seek(Parse(conf.bytes, ptrIface), iface, setting) == Seek(Parse(conf.bytes, 0), iface, setting)
        decreases |conf.bytes| - ptrIface
      {
        if conf.bytes[ptrIface + 1] == USB_DT_INTERFACE {
          if conf.bytes[ptrIface + 2] == iface && conf.bytes[ptrIface + 3] == setting {
            return true;
          }
        }
        ptrIface := ptrIface + conf.bytes[ptrIface];
      }
      return false;
    }

    /** The next endpoint descriptor of the interface that the descriptor at pos belongs to. */
    method NextEndpoint(pos: nat) returns (found: bool, next: nat)
      requires Sane() && numConfiguration > 0
      requires pos < |Current().bytes| && WalkOk(Current().bytes, pos)
      ensures var bytes := Current().bytes;
        if found then
          && pos < next && next + 6 < |bytes| && WalkOk(bytes, next) && DescAt(bytes, next).Ep?
          && DescAt(bytes, next).index == EpIndex(bytes[next + 2])
          && Behind(bytes, pos) == [EpIndex(bytes[next + 2])] + Behind(bytes, next)
        else Behind(bytes, pos) == []
    {
      var conf := configs[ptrConf];
      next := pos + conf.bytes[pos];
      while next < |conf.bytes|
        invariant pos < next <= |conf.bytes| && WalkOk(conf.bytes, next)
        invariant Block(Parse(conf.bytes, next)) == Behind(conf.bytes, pos)
        decreases |conf.bytes| - next
      {
        if conf.bytes[next + 1] == USB_DT_INTERFACE {
          break;
        }
        if conf.bytes[next + 1] == USB_DT_ENDPOINT {
          return true, next;
        }
        next := next + conf.bytes[next];
      }
      return false, 0;
    }

    /** Frees an endpoint, which ends its job. */
    method EpFree(index: nat)
      modifies this`enabled, this`busy
      ensures enabled == old(enabled) - {index} && busy == old(busy) - {index}
    {
      busy := busy - {index};
      enabled := enabled - {index};
    }

    /** Allocates an endpoint unless it is allocated already. */
    method EpAlloc(index: nat) returns (ok: bool)
      modifies this`enabled
      ensures ok <==> index !in old(enabled)
      ensures enabled == old(enabled) + {index}
    {
      if index in enabled {
        return false;
      }
      enabled := enabled + {index};
      return true;
    }

    /** Starts a transfer on an endpoint unless it is not allocated or has one already. */
    method EpRun(index: nat) returns (ok: bool)
      requires busy <= enabled
      modifies this`busy
      ensures ok <==> index in enabled && index !in old(busy)
      ensures busy == (if ok then old(busy) + {index} else old(busy)) && busy <= enabled
    {
      if index !in enabled || index in busy {
        return false;
      }
      busy := busy + {index};
      return true;
    }

    /** Switches an interface off: frees the endpoints of the setting that its class driver reports. */
    method IfaceDisable(iface: nat) returns (done: bool)
      requires Sane() && Reportable()
      modifies this`ptrIface, this`enabled, this`busy
      ensures Sane() && Reportable()
      ensures done <==> numConfiguration > 0 && iface < Current().numInterfaces
      ensures !done ==> enabled == old(enabled) && busy == old(busy)
      ensures done ==>
        var eps := Elems(EpsOf(Current(), iface, GetSetting(iface)));
        enabled == old(enabled) - eps && busy == old(busy) - eps
    {
      hide WalkOk, Parse, Seek, WellFormed, Behind, EpsOf, Elems;
      if numConfiguration > 0 {
        Followable(Current());
        if iface < Current().numInterfaces {
          InterfacePresent(Current(), iface);
        }
      }
      var found := UpdateIfaceDesc(iface, 0);
      if !found {
        return false;
      }
      found := UpdateIfaceDesc(iface, GetSetting(iface));
      if !found {
        return false;
      }
      FreeListed(iface, GetSetting(iface));
      return true;
    }

    /** Frees the endpoints listed behind the interface descriptor that has been found. */
    method FreeListed(ghost iface: nat, ghost s: nat)
      requires Sane() && numConfiguration > 0 && ptrIface < |Current().bytes| && WalkOk(Current().bytes, ptrIface)
      requires WalkOk(Current().bytes, 0)
        && Parse(Current().bytes, ptrIface) == Seek(Parse(Current().bytes, 0), iface, s)
      modifies this`enabled, this`busy
      ensures Sane()
      ensures var eps := Elems(EpsOf(Current(), iface, s));
        enabled == old(enabled) - eps && busy == old(busy) - eps
    {
      hide WalkOk, Parse, Seek, WellFormed, Behind, EpsOf, Elems;
      var conf := configs[ptrConf];
      var pos := ptrIface;
      ghost var eps, freed: seq<nat> := EpsOf(conf, iface, s), [];
      FoundAt(conf, iface, s, pos);
      NoElems();
      while true
        invariant Sane() && pos < |conf.bytes| && WalkOk(conf.bytes, pos)
        invariant eps == freed + Behind(conf.bytes, pos)
        invariant enabled == old(enabled) - Elems(freed) && busy == old(busy) - Elems(freed)
        decreases |conf.bytes| - pos
      {
        var more, next := NextEndpoint(pos);
        if !more {
          assert freed == eps;
          break;
        }
        EpFree(EpIndex(conf.bytes[next + 2]));
        OneMore(freed, EpIndex(conf.bytes[next + 2]));
        freed := freed + [EpIndex(conf.bytes[next + 2])];
        pos := next;
      }
    }

    /** The class driver remembers the setting and starts its transfers. */
    method UdiEnable(iface: nat, s: nat) returns (ok: bool)
      requires Sane() && numConfiguration > 0 && iface < Current().numInterfaces
      requires forall e :: e in StartsOf(Current(), iface, s) ==> e in enabled && e !in busy
      modifies this`busy, this`setting
      ensures ok && Sane() && busy == old(busy) + Elems(StartsOf(Current(), iface, s))
      ensures setting == old(setting)[iface := s]
    {
      setting := setting[iface := s];
      var starts := StartsOf(configs[ptrConf], iface, s);
      assert NoDuplicates(starts);
      for k := 0 to |starts|
        invariant busy <= enabled && busy == old(busy) + Elems(starts[..k]) && setting == old(setting)[iface := s]
      {
        assert starts[k] in starts;
        var started := EpRun(starts[k]);
        assert Elems(starts[..k + 1]) == Elems(starts[..k]) + {starts[k]};
        if !started {
          return false;
        }
      }
      assert starts[..|starts|] == starts;
      return true;
    }

    /** Allocates the endpoints listed behind the interface descriptor that has been found, until one is taken. */
    method AllocListed(ghost iface: nat, ghost s: nat) returns (ok: bool)
      requires Sane() && numConfiguration > 0 && ptrIface < |Current().bytes| && WalkOk(Current().bytes, ptrIface)
      requires WalkOk(Current().bytes, 0)
        && Parse(Current().bytes, ptrIface) == Seek(Parse(Current().bytes, 0), iface, s)
      requires NoDuplicates(EpsOf(Current(), iface, s))
      modifies this`enabled
      ensures Sane() && old(enabled) <= enabled <= old(enabled) + Elems(EpsOf(Current(), iface, s))
      ensures ok <==> Elems(EpsOf(Current(), iface, s)) !! old(enabled)
      ensures ok ==> enabled == old(enabled) + Elems(EpsOf(Current(), iface, s))
    {
      hide WalkOk, Parse, Seek, WellFormed, Behind, EpsOf, Elems, NoDuplicates;
      var conf := configs[ptrConf];
      var pos := ptrIface;
      ghost var eps, taken: seq<nat> := EpsOf(conf, iface, s), [];
      FoundAt(conf, iface, s, pos);
      NoElems();
      while true
        invariant Sane() && pos < |conf.bytes| && WalkOk(conf.bytes, pos)
        invariant eps == taken + Behind(conf.bytes, pos)
        invariant enabled == old(enabled) + Elems(taken) && Elems(taken) !! old(enabled)
        decreases |conf.bytes| - pos
      {
        ElemsOfParts(taken, Behind(conf.bytes, pos), eps);
        var more, next := NextEndpoint(pos);
        if !more {
          assert taken == eps;
          break;
        }
        ghost var index: nat := EpIndex(conf.bytes[next + 2]);
        NotYetTaken(taken, index, Behind(conf.bytes, next), eps);
        OneMore(taken, index);
        ElemsOfParts(taken, [index] + Behind(conf.bytes, next), eps);
        ElemsOfParts([index], Behind(conf.bytes, next), [index] + Behind(conf.bytes, next));
        OneMore([], index);
        assert [] + [index] == [index];
        var gotIt := EpAlloc(EpIndex(conf.bytes[next + 2]));
        if !gotIt {
          return false;
        }
        taken := taken + [index];
        pos := next;
      }
      ok := true;
    }

    /** Switches an interface on with a setting: allocates its endpoints, then its class driver starts. */
    method IfaceEnable(iface: nat, s: nat) returns (ok: bool)
      requires Sane() && numConfiguration > 0
      modifies this`ptrIface, this`enabled, this`busy, this`setting
      ensures Sane()
      ensures ok <==>
        iface < Current().numInterfaces && Has(Current(), iface, s) && Elems(EpsOf(Current(), iface, s)) !! old(enabled)
      ensures old(enabled) <= enabled <= old(enabled) + Elems(EpsOf(Current(), iface, s))
      ensures ok ==> enabled == old(enabled) + Elems(EpsOf(Current(), iface, s))
      ensures iface < Current().numInterfaces && !Has(Current(), iface, s) ==> enabled == old(enabled)
      ensures busy == if ok then old(busy) + Elems(StartsOf(Current(), iface, s)) else old(busy)
      ensures setting == if ok then old(setting)[iface := s] else old(setting)
    {
      hide WalkOk, Parse, Seek, WellFormed, Behind, EpsOf, Elems, NoDuplicates;
      Followable(Current());
      if iface < Current().numInterfaces {
        SettingPresent(Current(), iface, s);
      }
      var found := UpdateIfaceDesc(iface, s);
      if !found {
        return false;
      }
      ok := AllocListed(iface, s);
      if !ok {
        return;
      }
      ok := UdiEnable(iface, s);
    }

    /** Unconfigures the device: every interface is switched off. */
    method Reset()
      requires Sane() && Reportable()
      modifies this`numConfiguration, this`ptrIface, this`enabled, this`busy, this`on
      ensures Sane() && numConfiguration == 0 && on == map[]
      ensures enabled == old(enabled)
        - if old(numConfiguration) > 0 then
            Freed(old(Current()), setting, reportsCurrent, old(Current()).numInterfaces)
          else {}
      ensures old(Valid()) && (AllReleased() || old(numConfiguration) == 0) ==> Valid() && enabled == {} && busy == {}
    {
      hide WalkOk, WellFormed, EpsOf, Elems, EpsOfAll, Has;
      if numConfiguration > 0 {
        ghost var c, valid := Current(), Valid() && AllReleased();
        Followable(c);
        for iface := 0 to configs[ptrConf].numInterfaces
          invariant Sane() && Reportable() && numConfiguration == old(numConfiguration)
          invariant enabled == old(enabled) - Freed(c, setting, reportsCurrent, iface)
          invariant valid ==> Tracks(c, setting, reportsCurrent, on) && enabled == EpsOfAll(c, on)
          invariant forall i :: i in on && valid ==> iface <= i < c.numInterfaces
        {
          var done := IfaceDisable(iface);
          if valid {
            Releases(c, on, iface, GetSetting(iface), reportsCurrent);
            SwitchedOff(c, on, iface, GetSetting(iface));
          }
          on := on - {iface};
        }
        if valid {
          assert on == map[];
          NothingOn(c);
        }
      }
      on := map[];
      numConfiguration := 0;
    }

    /** SET_CONFIGURATION. */
    method SetConfiguration(wValue: nat, wLength: nat) returns (ok: bool)
      requires Valid() && (AllReleased() || numConfiguration == 0)
      modifies this`numConfiguration, this`ptrConf, this`ptrIface, this`enabled, this`busy, this`setting, this`on
      ensures Valid()
      ensures ok <==> wLength == 0 && address != 0 && wValue % 0x100 <= |configs|
      ensures !ok ==>
        numConfiguration == old(numConfiguration) && enabled == old(enabled) && busy == old(busy) && on == old(on)
      ensures ok ==>
        && numConfiguration == wValue % 0x100
        && (numConfiguration == 0 ==> enabled == {} && on == map[])
        && (numConfiguration > 0 ==>
              && on == AllZero(Current().numInterfaces) && enabled == EpsOfAll(Current(), on)
              && busy == Started(Current(), Current().numInterfaces))
    {
      hide WalkOk, WellFormed, EpsOf, Elems, EpsOfAll, Has, Released;
      if wLength != 0 {
        return false;
      }
      if address == 0 {
        return false;
      }
      if wValue % 0x100 > |configs| {
        return false;
      }
      Reset();
      numConfiguration := wValue % 0x100;
      if numConfiguration == 0 {
        return true;
      }
      ptrConf := numConfiguration - 1;
      ok := EnableAll();
    }

    /** Switches every interface of the new configuration on, with setting 0. */
    method EnableAll() returns (ok: bool)
      requires Sane() && numConfiguration > 0 && enabled == {} && busy == {} && on == map[]
      modifies this`ptrIface, this`enabled, this`busy, this`setting, this`on
      ensures ok && Valid()
      ensures on == AllZero(Current().numInterfaces) && enabled == EpsOfAll(Current(), on)
      ensures busy == Started(Current(), Current().numInterfaces)
    {
      hide WalkOk, WellFormed, EpsOf, Elems, EpsOfAll, Has, Released, Tracks, AllExist, Defaults;
      ghost var c := Current();
      Followable(c);
      NothingOn(c);
      NoDefaults(setting, reportsCurrent);
      for iface := 0 to configs[ptrConf].numInterfaces
        invariant Sane()
        invariant on == AllZero(iface) && enabled == EpsOfAll(c, on)
        invariant Defaults(setting, reportsCurrent, iface)
        invariant busy == Started(c, iface)
      {
        InterfacePresent(c, iface);
        AllZeroMembers(iface);
        StillOff(c, on, iface, 0);
        OneMoreDefault(setting, reportsCurrent, iface);
        var enabledIt := IfaceEnable(iface, 0);
        if !enabledIt {
          return false;
        }
        SwitchedOn(c, on, iface, 0);
        on := on[iface := 0];
      }
      DefaultsTracked(c, setting, reportsCurrent);
      return true;
    }

    /** SET_INTERFACE: switches the interface off, and on again with the setting if there is one. */
    method SetInterface(iface: nat, s: nat, wLength: nat) returns (ok: bool)
      requires Sane() && Reportable()
      modifies this`ptrIface, this`enabled, this`busy, this`setting, this`on
      ensures Sane() && Reportable() && (old(Valid()) && AllReleased() ==> Valid())
      ensures var done := wLength == 0 && numConfiguration > 0 && iface < Current().numInterfaces;
        && (done ==>
              var left := old(enabled - Elems(EpsOf(Current(), iface, GetSetting(iface))));
              var eps := Elems(EpsOf(Current(), iface, s));
              && (ok <==> Has(Current(), iface, s) && eps !! left)
              && left <= enabled <= left + eps && (ok ==> enabled == left + eps)
              && (!Has(Current(), iface, s) ==> enabled == left)
              && (old(Valid()) && AllReleased() ==> (ok <==> Has(Current(), iface, s))))
        && (!done ==> !ok && enabled == old(enabled))
        && on == (if ok then old(on)[iface := s] else if done then old(on) - {iface} else old(on))
        && setting == (if ok then old(setting)[iface := s] else old(setting))
    {
      hide WalkOk, WellFormed, EpsOf, Elems, EpsOfAll, Has, Released;
      if wLength != 0 {
        return false;
      }
      if numConfiguration == 0 {
        return false;
      }
      ghost var c, valid := Current(), Valid() && AllReleased();
      Followable(c);
      var done := IfaceDisable(iface);
      if !done {
        return false;
      }
      if valid {
        Releases(c, on, iface, GetSetting(iface), reportsCurrent);
        SwitchedOff(c, on, iface, GetSetting(iface));
        StillOff(c, on - {iface}, iface, s);
        SwitchedOn(c, on - {iface}, iface, s);
        assert (on - {iface})[iface := s] == on[iface := s];
      }
      NoneOfMissing(c, iface, s);
      SettingKept(c, setting, reportsCurrent, on, iface, s);
      ok := IfaceEnable(iface, s);
      on := if ok then on[iface := s] else on - {iface};
    }

    /** Jobs come and go on allocated endpoints between requests. */
    method Traffic(jobs: set<nat>)
      requires Valid() && jobs <= enabled
      modifies this`busy
      ensures Valid() && busy == jobs
    {
      busy := jobs;
    }

    /** Aborts the jobs of the endpoint numbers below the highest one, in both directions. */
    method AbortLoop()
      requires Valid()
      modifies this`busy
      ensures Valid()
      ensures busy == set e | e in old(busy) && !(2 <= e < 4)
    {
      hide WellFormed, EpsOfAll;
      var i := 1;
      while i < USB_DEVICE_MAX_EP
        invariant 1 <= i <= USB_DEVICE_MAX_EP
        invariant busy == set e | e in old(busy) && !(2 <= e < 2 * i)
      {
        busy := busy - {2 * i};
        busy := busy - {2 * i + 1};
        i := i + 1;
      }
    }

    /** A bus reset: the loop leaves the jobs of the highest endpoint number to the unconfiguring. */
    method BusReset()
      requires Valid() && AllReleased()
      modifies this`numConfiguration, this`ptrIface, this`enabled, this`busy, this`on, this`address
      ensures Valid() && numConfiguration == 0 && enabled == {} && busy == {} && address == 0
    {
      AbortLoop();
      Reset();
      address := 0;
    }

    /** The handshake of SET_ADDRESS is over. */
    method SetAddress(value: nat)
      requires Valid()
      modifies this`address
      ensures Valid() && address == value % 0x80
    {
      address := value % 0x80;
    }
  }

  /** The first n interfaces, each with setting 0. */
  ghost function AllZero(n: nat): map<nat, nat> {
    if n == 0 then map[] else AllZero(n - 1)[n - 1 := 0]
  }

  lemma {:induction false} AllZeroMembers(n: nat)
    ensures forall i: nat :: i in AllZero(n) <==> i < n
    ensures forall i: nat :: i in AllZero(n) ==> AllZero(n)[i] == 0
  {
    if n > 0 {
      AllZeroMembers(n - 1);
    }
  }

  /** The endpoints on which the class drivers of the first n interfaces start transfers. */
  ghost function Started(c: Config, n: nat): set<nat> {
    if n == 0 then {} else Started(c, n - 1) + Elems(StartsOf(c, n - 1, 0))
  }

  /** What switching the first n interfaces off frees. */
  ghost function Freed(c: Config, setting: map<nat, nat>, reportsCurrent: bool, n: nat): set<nat>
    requires WalkOk(c.bytes, 0)
  {
    if n == 0 then {}
    else Freed(c, setting, reportsCurrent, n - 1) + Elems(EpsOf(c, n - 1, Reported(setting, reportsCurrent, n - 1)))
  }

  lemma NothingOn(c: Config)
    requires WalkOk(c.bytes, 0)
    ensures EpsOfAll(c, map[]) == {}
  {
  }

  lemma SwitchedOn(c: Config, on: map<nat, nat>, i: nat, s: nat)
    requires WalkOk(c.bytes, 0) && i !in on
    ensures EpsOfAll(c, on[i := s]) == EpsOfAll(c, on) + Elems(EpsOf(c, i, s))
  {
    hide WalkOk, EpsOf;
    var all := on[i := s];
    forall e | e in EpsOfAll(c, on) + Elems(EpsOf(c, i, s))
      ensures e in EpsOfAll(c, all)
    {
      if e in EpsOfAll(c, on) {
        var k :| k in on && e in EpsOf(c, k, on[k]);
        assert all[k] == on[k];
      } else {
        assert e in EpsOf(c, i, all[i]);
      }
    }
  }

  /** What is freed is enough for the setting in use, and belongs to no other interface. */
  lemma SwitchedOff(c: Config, on: map<nat, nat>, i: nat, reported: nat)
    requires WellFormed(c) && i < c.numInterfaces && forall k :: k in on ==> k < c.numInterfaces
    requires i in on ==> forall e :: e in EpsOf(c, i, on[i]) ==> e in EpsOf(c, i, reported)
    ensures EpsOfAll(c, on - {i}) == EpsOfAll(c, on) - Elems(EpsOf(c, i, reported))
  {
    hide WalkOk, EpsOf;
    forall e | e in EpsOfAll(c, on - {i})
      ensures e in EpsOfAll(c, on) && e !in EpsOf(c, i, reported)
    {
      var k :| k in on - {i} && e in EpsOf(c, k, (on - {i})[k]);
      assert e in EpsOf(c, k, on[k]);
    }
    forall e | e in EpsOfAll(c, on) && e !in EpsOf(c, i, reported)
      ensures e in EpsOfAll(c, on - {i})
    {
      var k :| k in on && e in EpsOf(c, k, on[k]);
      assert (on - {i})[k] == on[k];
    }
  }

  lemma Releases(c: Config, on: map<nat, nat>, i: nat, reported: nat, reportsCurrent: bool)
    requires WellFormed(c) && i < c.numInterfaces && Released(c, reportsCurrent)
    requires if reportsCurrent then i in on ==> reported == on[i] else reported == 0
    ensures i in on ==> forall e :: e in EpsOf(c, i, on[i]) ==> e in EpsOf(c, i, reported)
  {
  }

  /** The endpoints of an interface that is off are free, whatever its setting. */
  lemma StillOff(c: Config, on: map<nat, nat>, i: nat, s: nat)
    requires WellFormed(c) && i < c.numInterfaces && i !in on && forall k :: k in on ==> k < c.numInterfaces
    ensures Elems(EpsOf(c, i, s)) !! EpsOfAll(c, on)
  {
    hide WalkOk, EpsOf;
  }

  lemma Followable(c: Config)
    requires WellFormed(c)
    ensures WalkOk(c.bytes, 0)
  {
  }

  lemma InterfacePresent(c: Config, i: nat)
    requires WellFormed(c) && i < c.numInterfaces
    ensures WalkOk(c.bytes, 0) && Has(c, i, 0)
  {
  }

  lemma SettingPresent(c: Config, i: nat, s: nat)
    requires WellFormed(c) && i < c.numInterfaces
    ensures WalkOk(c.bytes, 0) && NoDuplicates(EpsOf(c, i, s)) && NoDuplicates(StartsOf(c, i, s))
    ensures forall e :: e in StartsOf(c, i, s) ==> e in Elems(EpsOf(c, i, s)) && e in EpsOf(c, i, s)
  {
  }

  /** The class drivers of the first n interfaces report setting 0. */
  ghost predicate Defaults(setting: map<nat, nat>, reportsCurrent: bool, n: nat) {
    forall i :: 0 <= i < n ==> Reported(setting, reportsCurrent, i) == 0
  }

  lemma NoDefaults(setting: map<nat, nat>, reportsCurrent: bool)
    ensures Defaults(setting, reportsCurrent, 0)
  {
  }

  lemma OneMoreDefault(setting: map<nat, nat>, reportsCurrent: bool, n: nat)
    requires Defaults(setting, reportsCurrent, n)
    ensures Defaults(setting[n := 0], reportsCurrent, n + 1)
  {
    var after := setting[n := 0];
    forall i | 0 <= i < n + 1
      ensures Reported(after, reportsCurrent, i) == 0
    {
      assert i < n ==> Reported(setting, reportsCurrent, i) == 0;
    }
  }

  lemma DefaultsTracked(c: Config, setting: map<nat, nat>, reportsCurrent: bool)
    requires WellFormed(c) && Defaults(setting, reportsCurrent, c.numInterfaces)
    ensures AllExist(c, setting, reportsCurrent) && Tracks(c, setting, reportsCurrent, AllZero(c.numInterfaces))
  {
    hide WalkOk, EpsOf;
    AllZeroMembers(c.numInterfaces);
  }

  lemma SettingKept(c: Config, setting: map<nat, nat>, reportsCurrent: bool, on: map<nat, nat>, i: nat, s: nat)
    requires WalkOk(c.bytes, 0) && i < c.numInterfaces && AllExist(c, setting, reportsCurrent)
    ensures Has(c, i, s) ==> AllExist(c, setting[i := s], reportsCurrent)
    ensures Tracks(c, setting, reportsCurrent, on) ==>
      && Tracks(c, setting, reportsCurrent, on - {i})
      && Tracks(c, setting[i := s], reportsCurrent, on[i := s])
  {
    hide WalkOk, Has;
    var after := setting[i := s];
    forall k | 0 <= k < c.numInterfaces
      ensures Has(c, i, s) ==> Has(c, k, Reported(after, reportsCurrent, k))
    {
      assert Has(c, k, Reported(setting, reportsCurrent, k));
    }
  }

  lemma NoneOfMissing(c: Config, i: nat, s: nat)
    requires WalkOk(c.bytes, 0)
    ensures !Has(c, i, s) ==> EpsOf(c, i, s) == [] && Elems(EpsOf(c, i, s)) == {}
  {
  }

  lemma FoundAt(c: Config, i: nat, s: nat, pos: nat)
    requires WalkOk(c.bytes, 0) && pos < |c.bytes| && WalkOk(c.bytes, pos)
    requires Parse(c.bytes, pos) == Seek(Parse(c.bytes, 0), i, s)
    ensures EpsOf(c, i, s) == [] + Behind(c.bytes, pos)
  {
  }

  lemma ElemsOfParts(a: seq<nat>, b: seq<nat>, all: seq<nat>)
    requires all == a + b
    ensures Elems(all) == Elems(a) + Elems(b)
  {
  }

  lemma NoElems()
    ensures Elems([]) == {}
  {
  }

  lemma OneMore(s: seq<nat>, e: nat)
    ensures Elems(s + [e]) == Elems(s) + {e}
    ensures forall x :: x in Elems(s) <==> x in s
  {
  }

  lemma NotYetTaken(taken: seq<nat>, index: nat, rest: seq<nat>, eps: seq<nat>)
    requires eps == taken + ([index] + rest) && NoDuplicates(eps)
    ensures index in eps && index !in taken
  {
    assert eps[|taken|] == index;
    forall k | 0 <= k < |taken|
      ensures taken[k] != index
    {
      assert eps[k] == taken[k];
    }
  }

  /** The endpoints in the descriptors of a configuration. */
  ghost function Listed(ds: seq<Desc>): set<nat> {
    set d | d in ds && d.Ep? :: d.index
  }

  lemma {:induction false} SeekListed(ds: seq<Desc>, i: nat, s: nat)
    ensures Listed(Seek(ds, i, s)) <= Listed(ds)
  {
    if ds != [] && ds[0] != Iface(i, s) {
      SeekListed(ds[1..], i, s);
    }
  }

  lemma {:induction false} BlockListed(ds: seq<Desc>)
    ensures Elems(Block(ds)) <= Listed(ds)
  {
    if ds != [] && !ds[0].Iface? {
      BlockListed(ds[1..]);
      ElemsOfParts(if ds[0].Ep? then [ds[0].index] else [], Block(ds[1..]), Block(ds));
      assert ds[0] in ds;
    }
  }

  /**
   * The allocated endpoints are always some of the configuration's, and they are those of its
   * default settings exactly when each interface has the endpoints of setting 0.
   */
  lemma DefaultsAllocatedExactlyWhen(c: Config, on: map<nat, nat>)
    requires WellFormed(c) && forall i :: i in on ==> i < c.numInterfaces
    ensures EpsOfAll(c, on) <= Listed(Parse(c.bytes, 0))
    ensures EpsOfAll(c, on) == EpsOfAll(c, AllZero(c.numInterfaces))
       <==> forall i :: 0 <= i < c.numInterfaces ==> HasDefaults(c, on, i)
  {
    hide WalkOk, Seek, Parse, EpsOf;
    var all := AllZero(c.numInterfaces);
    AllZeroMembers(c.numInterfaces);
    ListedOnly(c, on);
    if i: nat :| i < c.numInterfaces && !HasDefaults(c, on, i) {
      SettingDecides(c, on, i);
      SettingDecides(c, all, i);
    } else {
      forall e | e in EpsOfAll(c, on)
        ensures e in EpsOfAll(c, all)
      {
        var i :| i in on && e in EpsOf(c, i, on[i]);
        assert HasDefaults(c, on, i) && e in OwnEps(c, on, i);
        assert e in EpsOf(c, i, all[i]);
      }
      forall e | e in EpsOfAll(c, all)
        ensures e in EpsOfAll(c, on)
      {
        var i :| i in all && e in EpsOf(c, i, all[i]);
        assert HasDefaults(c, on, i) && e in OwnEps(c, on, i);
      }
    }
  }

  /** Interface i has the endpoints of setting 0, be it because it has none to have. */
  ghost predicate HasDefaults(c: Config, on: map<nat, nat>, i: nat)
    requires WalkOk(c.bytes, 0)
  {
    OwnEps(c, on, i) == Elems(EpsOf(c, i, 0))
  }

  ghost function OwnEps(c: Config, on: map<nat, nat>, i: nat): set<nat>
    requires WalkOk(c.bytes, 0)
  {
    if i in on then Elems(EpsOf(c, i, on[i])) else {}
  }

  lemma ListedOnly(c: Config, on: map<nat, nat>)
    requires WalkOk(c.bytes, 0)
    ensures EpsOfAll(c, on) <= Listed(Parse(c.bytes, 0))
  {
    hide WalkOk, Parse, EpsOf;
    forall e | e in EpsOfAll(c, on)
      ensures e in Listed(Parse(c.bytes, 0))
    {
      var i :| i in on && e in EpsOf(c, i, on[i]);
      EpsListed(c, i, on[i]);
    }
  }

  lemma EpsListed(c: Config, i: nat, s: nat)
    requires WalkOk(c.bytes, 0)
    ensures Elems(EpsOf(c, i, s)) <= Listed(Parse(c.bytes, 0))
  {
    hide WalkOk, Parse;
    var found := Seek(Parse(c.bytes, 0), i, s);
    SeekListed(Parse(c.bytes, 0), i, s);
    if found != [] {
      BlockListed(found[1..]);
      assert Listed(found[1..]) <= Listed(found);
    }
  }

  /** Of the endpoints that an interface can have, those of its setting are allocated and no others. */
  lemma SettingDecides(c: Config, on: map<nat, nat>, i: nat)
    requires WellFormed(c) && i < c.numInterfaces && forall k :: k in on ==> k < c.numInterfaces
    ensures forall e, s: nat :: e in EpsOf(c, i, s) ==> (e in EpsOfAll(c, on) <==> e in OwnEps(c, on, i))
    ensures forall e :: e in OwnEps(c, on, i) ==> e in EpsOfAll(c, on)
    ensures OwnEps(c, on, i) == {} || (i in on && OwnEps(c, on, i) == Elems(EpsOf(c, i, on[i])))
  {
    hide WalkOk, Seek, Parse, EpsOf;
  }

  // ----- whole runs -----

  datatype Event =
    | EvSetConfiguration(wValue: nat, wLength: nat)
    | EvSetInterface(iface: nat, s: nat, wLength: nat)
    | EvSetAddress(value: nat)
    | EvBusReset
    | EvTraffic(jobs: set<nat>)

  /** What requests are supposed to do: the configuration, the address, and the interfaces that are on. */
  datatype Usb = Usb(configuration: nat, address: nat, on: map<nat, nat>)

  ghost function NextUsb(configs: seq<Config>, u: Usb, e: Event): Usb
    requires forall k :: 0 <= k < |configs| ==> WellFormed(configs[k])
  {
    match e
    case EvSetConfiguration(wValue, wLength) =>
      var n := wValue % 0x100;
      if wLength != 0 || u.address == 0 || n > |configs| then u
      else Usb(n, u.address, if n == 0 then map[] else AllZero(configs[n - 1].numInterfaces))
    case EvSetInterface(iface, s, wLength) =>
      if wLength != 0 || u.configuration == 0 || u.configuration > |configs|
         || iface >= configs[u.configuration - 1].numInterfaces then u
      else
        assert WellFormed(configs[u.configuration - 1]);
        u.(on := if Has(configs[u.configuration - 1], iface, s) then u.on[iface := s] else u.on - {iface})
    case EvSetAddress(value) => u.(address := value % 0x80)
    case EvBusReset => Usb(0, 0, map[])
    case EvTraffic(_) => u
  }

  ghost function FinalUsb(configs: seq<Config>, u: Usb, events: seq<Event>): Usb
    requires forall k :: 0 <= k < |configs| ==> WellFormed(configs[k])
    decreases events
  {
    if events == [] then u else FinalUsb(configs, NextUsb(configs, u, events[0]), events[1..])
  }

  method Apply(udc: Udc, e: Event)
    requires udc.Valid() && udc.AllReleased()
    modifies udc
    ensures udc.Valid()
    ensures Usb(udc.numConfiguration, udc.address, udc.on)
         == NextUsb(udc.configs, old(Usb(udc.numConfiguration, udc.address, udc.on)), e)
  {
    hide WellFormed, EpsOfAll, AllZero, Started, Has, Released;
    match e {
      case EvSetConfiguration(wValue, wLength) => {
        var ok := udc.SetConfiguration(wValue, wLength);
      }
      case EvSetInterface(iface, s, wLength) => {
        var ok := udc.SetInterface(iface, s, wLength);
      }
      case EvSetAddress(value) => { udc.SetAddress(value); }
      case EvBusReset => { udc.BusReset(); }
      case EvTraffic(jobs) => { udc.Traffic(jobs * udc.enabled); }
    }
  }

  /**
   * Any sequence of requests, transfers and bus resets: the interfaces that are on are those
   * that the requests ask for, and exactly their endpoints are allocated.
   */
  method Replay(udc: Udc, events: seq<Event>)
    requires udc.Valid() && udc.AllReleased()
    modifies udc
    ensures udc.Valid()
    ensures Usb(udc.numConfiguration, udc.address, udc.on)
         == FinalUsb(udc.configs, old(Usb(udc.numConfiguration, udc.address, udc.on)), events)
    ensures udc.numConfiguration == 0 ==> udc.enabled == {}
    ensures udc.numConfiguration > 0 ==> udc.enabled == EpsOfAll(udc.Current(), udc.on)
  {
    hide NextUsb, WellFormed, EpsOfAll, Released;
    var k := 0;
    while k < |events|
      invariant 0 <= k <= |events| && udc.Valid()
      invariant FinalUsb(udc.configs, Usb(udc.numConfiguration, udc.address, udc.on), events[k..])
             == FinalUsb(udc.configs, old(Usb(udc.numConfiguration, udc.address, udc.on)), events)
    {
      assert events[k..][0] == events[k] && events[k..][1..] == events[k + 1..];
      Apply(udc, events[k]);
      k := k + 1;
    }
  }

  lemma {:induction false} NotFreed(c: Config, setting: map<nat, nat>, n: nat, i: nat, s: nat, e: nat)
    requires WellFormed(c) && n <= c.numInterfaces && i < c.numInterfaces
    requires e in EpsOf(c, i, s) && e !in EpsOf(c, i, 0)
    ensures e !in Freed(c, setting, false, n)
  {
    hide WalkOk, EpsOf;
    if n > 0 {
      NotFreed(c, setting, n - 1, i, s, e);
    }
  }

  /**
   * The condition is needed: with drivers that report 0 always, an endpoint that a setting has
   * and setting 0 lacks is never freed. The setting can be selected once, and not again, and
   * after the device has been unconfigured the endpoint is still allocated.
   */
  method AlternateLeaks(configs: seq<Config>, k: nat, i: nat, s: nat, e: nat)
    returns (udc: Udc, first: bool, second: bool)
    requires forall j :: 0 <= j < |configs| ==> WellFormed(configs[j])
    requires k < |configs| && k + 1 <= 0xFF && i < configs[k].numInterfaces
    requires assert WellFormed(configs[k]); e in EpsOf(configs[k], i, s) && e !in EpsOf(configs[k], i, 0)
    ensures fresh(udc) && first && !second && udc.numConfiguration == 0 && e in udc.enabled
  {
    hide WalkOk, WellFormed, EpsOf, EpsOfAll, AllZero, Has, AllExist, Tracks, Started, Released, Freed;
    var c := configs[k];
    udc := new Udc(configs, false);
    udc.SetAddress(1);
    var ok := udc.SetConfiguration(k + 1, 0);
    Followable(c);
    InterfacePresent(c, i);
    NoneOfMissing(c, i, s);
    AllZeroMembers(c.numInterfaces);
    SwitchedOff(c, udc.on, i, 0);
    StillOff(c, udc.on - {i}, i, s);
    first := udc.SetInterface(i, s, 0);
    ghost var left, eps := udc.enabled - Elems(EpsOf(c, i, 0)), Elems(EpsOf(c, i, s));
    assert e in eps * left;
    assert !(eps !! left);
    second := udc.SetInterface(i, s, 0);
    NotFreed(c, udc.setting, c.numInterfaces, i, s, e);
    udc.Reset();
  }

  // ----- this firmware's own configuration -----

  const CONF_DESC: seq<byte> := [9, 2, 41, 0, 1, 1, 0, 0x80, 50]
  const IFACE_DESC: seq<byte> := [9, 4, 0, 0, 2, 3, 0, 0, 0]
  const HID_DESC: seq<byte> := [9, 0x21, 0x11, 1, 0, 1, 0x22, 34, 0]
  const EP_IN_DESC: seq<byte> := [7, 5, 0x81, 3, 64, 0, 4]
  const EP_OUT_DESC: seq<byte> := [7, 5, 0x02, 3, 64, 0, 4]

  /** One HID interface with IN endpoint 1 and OUT endpoint 2, on which its driver keeps a transfer going. */
  const HID_CONFIG :=
    Config(CONF_DESC + (IFACE_DESC + (HID_DESC + (EP_IN_DESC + (EP_OUT_DESC + [])))), 1, map[(0, 0) := [4]])

  /** One step of a walk. */
  lemma WalkNext(b: seq<byte>, pos: nat)
    requires WalkOk(b, pos) && pos < |b|
    ensures pos + 1 < |b| && 2 <= b[pos] && pos + b[pos] <= |b| && WalkOk(b, pos + b[pos])
    ensures Parse(b, pos) == [DescAt(b, pos)] + Parse(b, pos + b[pos])
  {
  }

  /** It depends only on the bytes from there on. */
  lemma StepShifted(a: seq<byte>, b: seq<byte>, pos: nat)
    requires WalkOk(b, pos) && pos < |b| && WalkOk(a + b, |a| + (pos + b[pos]))
    ensures WalkOk(a + b, |a| + pos) && (a + b)[|a| + pos] == b[pos] && DescAt(a + b, |a| + pos) == DescAt(b, pos)
  {
  }

  /** A walk over the second part of two is a walk over that part alone. */
  lemma {:induction false} WalkShifted(a: seq<byte>, b: seq<byte>, pos: nat)
    requires WalkOk(b, pos) && pos <= |b|
    ensures WalkOk(a + b, |a| + pos) && Parse(a + b, |a| + pos) == Parse(b, pos)
    decreases |b| - pos
  {
    if pos == |b| {
      assert |a| + pos == |a + b|;
    } else {
      hide WalkOk, Parse, DescAt;
      WalkNext(b, pos);
      WalkShifted(a, b, pos + b[pos]);
      StepShifted(a, b, pos);
      WalkNext(a + b, |a| + pos);
      assert |a| + pos + b[pos] == |a| + (pos + b[pos]);
    }
  }

  /** One descriptor in front of others. */
  lemma WalkPrepended(d: seq<byte>, rest: seq<byte>)
    requires |d| >= 2 && d[0] == |d| && WalkOk(rest, 0) && WalkOk(d, 0)
    ensures WalkOk(d + rest, 0) && Parse(d + rest, 0) == [DescAt(d, 0)] + Parse(rest, 0)
  {
    WalkShifted(d, rest, 0);
    var c := d + rest;
    assert c[0] == d[0] && c[1] == d[1];
    assert |d| > 3 ==> c[2] == d[2] && c[3] == d[3];
  }

  lemma HidWalk()
    ensures WalkOk(HID_CONFIG.bytes, 0)
    ensures Parse(HID_CONFIG.bytes, 0) == [Other] + ([Iface(0, 0)] + ([Other] + ([Ep(3)] + ([Ep(4)] + []))))
  {
    assert WalkOk([], 0);
    assert WalkOk(EP_OUT_DESC, 7) && WalkOk(EP_IN_DESC, 7);
    assert WalkOk(HID_DESC, 9) && WalkOk(IFACE_DESC, 9) && WalkOk(CONF_DESC, 9);
    WalkPrepended(EP_OUT_DESC, []);
    WalkPrepended(EP_IN_DESC, EP_OUT_DESC + []);
    WalkPrepended(HID_DESC, EP_IN_DESC + (EP_OUT_DESC + []));
    WalkPrepended(IFACE_DESC, HID_DESC + (EP_IN_DESC + (EP_OUT_DESC + [])));
    WalkPrepended(CONF_DESC, IFACE_DESC + (HID_DESC + (EP_IN_DESC + (EP_OUT_DESC + []))));
  }

  lemma SeekStep(d: Desc, rest: seq<Desc>, num: nat, alt: nat)
    ensures Seek([d] + rest, num, alt) == if d == Iface(num, alt) then [d] + rest else Seek(rest, num, alt)
  {
  }

  lemma BlockStep(d: Desc, rest: seq<Desc>)
    ensures Block([d] + rest) == if d.Iface? then [] else (if d.Ep? then [d.index] else []) + Block(rest)
  {
  }

  /** Looking for any interface and setting in this firmware's descriptors. */
  lemma HidSeek(num: nat, alt: nat)
    ensures WalkOk(HID_CONFIG.bytes, 0)
    ensures Seek(Parse(HID_CONFIG.bytes, 0), num, alt)
         == if num == 0 && alt == 0 then [Iface(0, 0)] + ([Other] + ([Ep(3)] + ([Ep(4)] + []))) else []
  {
    HidWalk();
    SeekStep(Ep(4), [], num, alt);
    SeekStep(Ep(3), [Ep(4)] + [], num, alt);
    SeekStep(Other, [Ep(3)] + ([Ep(4)] + []), num, alt);
    SeekStep(Iface(0, 0), [Other] + ([Ep(3)] + ([Ep(4)] + [])), num, alt);
    SeekStep(Other, [Iface(0, 0)] + ([Other] + ([Ep(3)] + ([Ep(4)] + []))), num, alt);
  }

  lemma HidEndpoints(num: nat, alt: nat)
    ensures WalkOk(HID_CONFIG.bytes, 0) && (Has(HID_CONFIG, num, alt) <==> num == 0 && alt == 0)
    ensures EpsOf(HID_CONFIG, num, alt) == if num == 0 && alt == 0 then [3, 4] else []
  {
    hide WalkOk, Parse, Seek, Block;
    HidSeek(num, alt);
    var block := [Other] + ([Ep(3)] + ([Ep(4)] + []));
    assert ([Iface(0, 0)] + block)[1..] == block;
    BlockStep(Other, [Ep(3)] + ([Ep(4)] + []));
    BlockStep(Ep(3), [Ep(4)] + []);
    BlockStep(Ep(4), []);
    EmptyBlock();
  }

  /** This firmware's configuration is one to which all of the above applies, with drivers that report 0. */
  lemma HidConfigIsWellFormed()
    ensures WellFormed(HID_CONFIG) && Released(HID_CONFIG, false)
    ensures EpsOf(HID_CONFIG, 0, 0) == [3, 4] && StartsOf(HID_CONFIG, 0, 0) == [4]
  {
    hide WalkOk, Parse, Seek, EpsOf, Has;
    var c := HID_CONFIG;
    HidEndpoints(0, 0);
    assert NoDuplicates([3, 4]) && NoDuplicates([4]) && NoDuplicates([]);
    assert forall i: nat, s: nat :: StartsOf(c, i, s) == if i == 0 && s == 0 then [4] else [];
    forall i: nat, s: nat
      ensures EpsOf(c, i, s) == if i == 0 && s == 0 then [3, 4] else []
    {
      HidEndpoints(i, s);
    }
  }

  const IFACE_EMPTY_DESC: seq<byte> := [9, 4, 0, 0, 0, 3, 0, 0, 0]
  const IFACE_ALT_DESC: seq<byte> := [9, 4, 0, 1, 1, 3, 0, 0, 0]

  /** One interface whose setting 0 has no endpoints and whose setting 1 has IN endpoint 1. */
  const ALTERNATE_CONFIG :=
    Config(CONF_DESC + (IFACE_EMPTY_DESC + (IFACE_ALT_DESC + (EP_IN_DESC + []))), 1, map[])

  lemma AlternateWalk()
    ensures WalkOk(ALTERNATE_CONFIG.bytes, 0)
    ensures Parse(ALTERNATE_CONFIG.bytes, 0) == [Other] + ([Iface(0, 0)] + ([Iface(0, 1)] + ([Ep(3)] + [])))
  {
    assert WalkOk([], 0);
    assert WalkOk(EP_IN_DESC, 7) && WalkOk(IFACE_ALT_DESC, 9) && WalkOk(IFACE_EMPTY_DESC, 9) && WalkOk(CONF_DESC, 9);
    WalkPrepended(EP_IN_DESC, []);
    WalkPrepended(IFACE_ALT_DESC, EP_IN_DESC + []);
    WalkPrepended(IFACE_EMPTY_DESC, IFACE_ALT_DESC + (EP_IN_DESC + []));
    WalkPrepended(CONF_DESC, IFACE_EMPTY_DESC + (IFACE_ALT_DESC + (EP_IN_DESC + [])));
  }

  lemma AlternateSeek(num: nat, alt: nat)
    ensures WalkOk(ALTERNATE_CONFIG.bytes, 0)
    ensures Seek(Parse(ALTERNATE_CONFIG.bytes, 0), num, alt)
         == if num == 0 && alt == 0 then [Iface(0, 0)] + ([Iface(0, 1)] + ([Ep(3)] + []))
            else if num == 0 && alt == 1 then [Iface(0, 1)] + ([Ep(3)] + []) else []
  {
    AlternateWalk();
    SeekStep(Ep(3), [], num, alt);
    SeekStep(Iface(0, 1), [Ep(3)] + [], num, alt);
    SeekStep(Iface(0, 0), [Iface(0, 1)] + ([Ep(3)] + []), num, alt);
    SeekStep(Other, [Iface(0, 0)] + ([Iface(0, 1)] + ([Ep(3)] + [])), num, alt);
  }

  lemma AlternateEndpoints(num: nat, alt: nat)
    ensures WalkOk(ALTERNATE_CONFIG.bytes, 0) && (Has(ALTERNATE_CONFIG, num, alt) <==> num == 0 && alt <= 1)
    ensures EpsOf(ALTERNATE_CONFIG, num, alt) == if num == 0 && alt == 1 then [3] else []
  {
    hide WalkOk, Parse, Seek, Block;
    AlternateSeek(num, alt);
    var block := [Ep(3)] + [];
    assert ([Iface(0, 1)] + block)[1..] == block;
    assert ([Iface(0, 0)] + ([Iface(0, 1)] + block))[1..] == [Iface(0, 1)] + block;
    BlockStep(Iface(0, 1), block);
    BlockStep(Ep(3), []);
    EmptyBlock();
  }

  /** There are descriptors that walks can follow and that leak: AlternateLeaks applies to this one. */
  lemma AlternateConfigIsNotReleased()
    ensures WellFormed(ALTERNATE_CONFIG) && !Released(ALTERNATE_CONFIG, false)
    ensures EpsOf(ALTERNATE_CONFIG, 0, 1) == [3] && EpsOf(ALTERNATE_CONFIG, 0, 0) == []
  {
    hide WalkOk, Parse, Seek, EpsOf, Has;
    var c := ALTERNATE_CONFIG;
    AlternateEndpoints(0, 0);
    AlternateEndpoints(0, 1);
    assert NoDuplicates([3]) && NoDuplicates([]);
    assert forall i: nat, s: nat :: StartsOf(c, i, s) == [];
    forall i: nat, s: nat
      ensures EpsOf(c, i, s) == if i == 0 && s == 1 then [3] else []
    {
      AlternateEndpoints(i, s);
    }
    assert 3 in EpsOf(c, 0, 1) && 3 !in EpsOf(c, 0, 0);
  }

  lemma EmptyBlock()
    ensures Block([]) == []
  {
  }
}
