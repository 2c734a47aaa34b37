/** The three indexes kept by address: socket handles, links, and devices. */
module AddressIndexes {
  import opened Bytes

  datatype Address = Address(ip: string, port: nat)

  // ----- keys -----

  function Digit(d: nat): char
    requires d < 10
  {
    ['0', '1', '2', '3', '4', '5', '6', '7', '8', '9'][d]
  }

  function Decimal(n: nat): (s: string)
    ensures s != [] && forall k | 0 <= k < |s| :: '0' <= s[k] <= '9'
  {
    if n < 10 then [Digit(n)] else Decimal(n / 10) + [Digit(n % 10)]
  }

  function RemoveComma(s: string): (r: string) {
    if s == [] then [] else (if s[0] == ',' then [] else [s[0]]) + RemoveComma(s[1..])
  }

  /** The key of the handle map: the stream's text with its commas removed. */
  function ColonKey(a: Address): string {
    RemoveComma(a.ip + ":" + Decimal(a.port))
  }

  /** The key of the link map and of the device map. */
  function DashKey(a: Address): string {
    a.ip + "-" + Decimal(a.port)
  }

  /** The number that a text of decimal digits stands for. */
  function NumberOf(s: string): int {
    if s == "" then 0 else 10 * NumberOf(s[..|s| - 1]) + (s[|s| - 1] as int - '0' as int)
  }

  /** The decimal text of a number: its digits stand for it, without a leading zero. */
  lemma {:induction false} DecimalExactly(n: nat)
    ensures NumberOf(Decimal(n)) == n && (forall k | 0 <= k < |Decimal(n)| :: '0' <= Decimal(n)[k] <= '9')
    ensures n != 0 ==> Decimal(n)[0] != '0'
  {
    var s := Decimal(n);
    DigitIs(n % 10);
    if n < 10 {
      assert s[..0] == "";
    } else {
      DecimalExactly(n / 10);
      assert s[..|s| - 1] == Decimal(n / 10);
      assert s[0] == Decimal(n / 10)[0];
    }
  }

  lemma DigitIs(d: nat)
    requires d < 10
    ensures Digit(d) as int == '0' as int + d
  {
  }

  lemma DecimalInjective(m: nat, n: nat)
    requires Decimal(m) == Decimal(n)
    ensures m == n
  {
    DecimalExactly(m);
    DecimalExactly(n);
  }

  /** In text, mark, number, the mark is the last character that is no digit. */
  lemma LastMark(x: string, mark: char, n: nat)
    ensures var s := x + [mark] + Decimal(n);
            s[|x|] == mark && (forall k | |x| < k < |s| :: '0' <= s[k] <= '9') && s[..|x|] == x
                && s[|x| + 1..] == Decimal(n)
  {
    var s := x + [mark] + Decimal(n);
    assert forall k | |x| < k < |s| :: s[k] == Decimal(n)[k - |x| - 1];
  }

  /** Text, a mark, and a number can be told apart. */
  lemma LastMarkSplits(x: string, y: string, mark: char, m: nat, n: nat)
    requires !('0' <= mark <= '9')
    requires x + [mark] + Decimal(m) == y + [mark] + Decimal(n)
    ensures x == y && m == n
  {
    LastMark(x, mark, m);
    LastMark(y, mark, n);
    assert |x| == |y|;
    DecimalInjective(m, n);
  }

  lemma {:induction false} RemoveCommaAppend(s: string, t: string)
    ensures RemoveComma(s + t) == RemoveComma(s) + RemoveComma(t)
  {
    if s == [] {
      assert s + t == t;
    } else {
      assert (s + t)[1..] == s[1..] + t;
      RemoveCommaAppend(s[1..], t);
    }
  }

  lemma {:induction false} RemoveCommaNone(s: string)
    requires ',' !in s
    ensures RemoveComma(s) == s
  {
    if s != [] {
      RemoveCommaNone(s[1..]);
    }
  }

  lemma DashKeyInjective(a: Address, b: Address)
    ensures DashKey(a) == DashKey(b) <==> a == b
  {
    if DashKey(a) == DashKey(b) {
      LastMarkSplits(a.ip, b.ip, '-', a.port, b.port);
    }
  }

  lemma ColonKeySplit(a: Address)
    ensures ColonKey(a) == RemoveComma(a.ip) + [':'] + Decimal(a.port)
  {
    RemoveCommaAppend(a.ip + ":", Decimal(a.port));
    RemoveCommaAppend(a.ip, ":");
    assert RemoveComma(":") == ":" by { RemoveCommaNone(":"); }
    RemoveCommaNone(Decimal(a.port));
  }

  /** Two addresses share a handle key exactly when they differ in nothing but commas of the ip. */
  lemma ColonKeyInjective(a: Address, b: Address)
    ensures ColonKey(a) == ColonKey(b) <==> RemoveComma(a.ip) == RemoveComma(b.ip) && a.port == b.port
  {
    ColonKeySplit(a);
    ColonKeySplit(b);
    if ColonKey(a) == ColonKey(b) {
      LastMarkSplits(RemoveComma(a.ip), RemoveComma(b.ip), ':', a.port, b.port);
    }
  }

  /** Removing commas works on each character by itself: a comma goes, anything else stays. */
  lemma RemoveCommaExactly(s: string, t: string, c: char)
    ensures RemoveComma("") == "" && RemoveComma([c]) == (if c == ',' then "" else [c])
    ensures RemoveComma(s + t) == RemoveComma(s) + RemoveComma(t)
  {
    RemoveCommaAppend(s, t);
    assert [c][1..] == "";
  }

  /** The two keys, character by character: the ip, the mark, and the port in decimal. */
  lemma KeyForms(a: Address)
    ensures var n := |a.ip|;
            && |DashKey(a)| > n && DashKey(a)[..n] == a.ip && DashKey(a)[n] == '-'
            && NumberOf(DashKey(a)[n + 1..]) == a.port && DashKey(a)[n + 1..] == Decimal(a.port)
    ensures var n := |RemoveComma(a.ip)|;
            && |ColonKey(a)| > n && ColonKey(a)[..n] == RemoveComma(a.ip) && ColonKey(a)[n] == ':'
            && NumberOf(ColonKey(a)[n + 1..]) == a.port && ColonKey(a)[n + 1..] == Decimal(a.port)
  {
    DecimalExactly(a.port);
    ColonKeySplit(a);
    hide Decimal, RemoveComma;
  }

  predicate CommaFree(a: Address) {
    ',' !in a.ip
  }

  lemma ColonKeyInjectiveCommaFree(a: Address, b: Address)
    requires CommaFree(a) && CommaFree(b)
    ensures ColonKey(a) == ColonKey(b) <==> a == b
  {
    ColonKeyInjective(a, b);
    RemoveCommaNone(a.ip);
    RemoveCommaNone(b.ip);
  }

  // ----- the three maps -----

  type Handle = nat         // a socket handle, 0 for none
  type Service = nat        // a link object

  datatype HostEntry = HostEntry(address: Address, handle: Handle)

  datatype Device = Device(uuid: string, logined: bool, loginType: int, expire: bool)

  const NEW_DEVICE := Device("", false, 0, false)

  /** One report to the application that a logged-in client is gone. */
  datatype Notice = Notice(address: Address, uuid: string, loginType: int)

  datatype Indexes = Indexes(
    handles: map<string, HostEntry>,
    links: map<string, Service>,
    devices: map<string, Device>,
    notices: seq<Notice>)

  const NO_INDEXES := Indexes(map[], map[], map[], [])

  function SameUuid(devices: map<string, Device>, uuid: string): set<string> {
    set k | k in devices && devices[k].uuid == uuid
  }

  lemma SameUuidHas(devices: map<string, Device>, uuid: string)
    ensures SameUuid(devices, uuid) <= devices.Keys
    ensures forall k | k in devices :: k in SameUuid(devices, uuid) <==> devices[k].uuid == uuid
  {
  }

  lemma CountStep(same: set<string>, rest: set<string>, k: string)
    requires k in rest
    ensures |same - (rest - {k})| == |same - rest| + if k in same then 1 else 0
  {
    assert same - (rest - {k}) == if k in same then (same - rest) + {k} else same - rest;
  }

  /** What is reported when the device of `a` goes: nothing unless it is logged in and the only one
      with its uuid. */
  function Report(devices: map<string, Device>, a: Address): seq<Notice>
    requires DashKey(a) in devices
  {
    var d := devices[DashKey(a)];
    if d.logined && |SameUuid(devices, d.uuid)| < 2 then [Notice(a, d.uuid, d.loginType)] else []
  }

  function Connect(x: Indexes, a: Address, handle: Handle, service: Service): Indexes {
    if handle == 0 || a.port == 0 then x
    else
      var k := DashKey(a);
      x.(handles := x.handles[ColonKey(a) := HostEntry(a, handle)],
         devices := if k in x.devices then x.devices else x.devices[k := NEW_DEVICE],
         links := if k in x.links then x.links else x.links[k := service])
  }

  function Disconnect(x: Indexes, a: Address): Indexes {
    var k := DashKey(a);
    x.(notices := if k in x.devices then x.notices + Report(x.devices, a) else x.notices,
       devices := x.devices - {k},
       handles := x.handles - {ColonKey(a)},
       links := x.links - {k})
  }

  function Stop(x: Indexes, a: Address): Indexes {
    var k := DashKey(a);
    if k !in x.devices then x
    else
      x.(notices := x.notices + Report(x.devices, a),
         devices := x.devices[k := x.devices[k].(logined := false, expire := true)],
         handles := x.handles - {ColonKey(a)},
         links := x.links - {k})
  }

  class HostAddressMap {
    var entries: map<string, HostEntry>

    constructor ()
      ensures entries == map[]
    {
      entries := map[];
    }

    /** The handle to send through, 0 when there is none or it is not valid. */
    function GetHostAddress(key: string): Handle
      reads this
    {
      if key in entries && entries[key].handle != 0 && entries[key].address.port != 0 then entries[key].handle else 0
    }

    method SetHostAddress(a: Address, handle: Handle) returns (done: bool)
      modifies this
      ensures done <==> handle != 0 && a.port != 0
      ensures entries == if done then old(entries)[ColonKey(a) := HostEntry(a, handle)] else old(entries)
    {
      var pAddress := HostEntry(a, handle);
      if pAddress.handle == 0 || pAddress.address.port == 0 {
        return false;
      }
      var key := ColonKey(a);
      RemoveHostAddress(key);
      if key !in entries {
        entries := entries[key := pAddress];
      }
      return true;
    }

    /** Closing the socket behind the handle, which the source asks for here, does nothing. */
    method RemoveHostAddress(key: string)
      modifies this
      ensures entries == old(entries) - {key}
    {
      if key in entries {
        entries := entries - {key};
      }
    }
  }

  class DeviceManager {
    var devices: map<string, Device>
    var notices: seq<Notice>

    constructor ()
      ensures devices == map[] && notices == []
    {
      devices, notices := map[], [];
    }

    method CountByUuid(uuid: string) returns (count: nat)
      ensures count == |SameUuid(devices, uuid)|
    {
      hide SameUuid;
      count := 0;
      var rest := devices.Keys;
      ghost var same := SameUuid(devices, uuid);
      SameUuidHas(devices, uuid);
      while rest != {}
        invariant rest <= devices.Keys
        invariant count == |same - rest|
        decreases |rest|
      {
        var k :| k in rest;
        CountStep(same, rest, k);
        if devices[k].uuid == uuid {
          count := count + 1;
        }
        rest := rest - {k};
      }
      assert same - {} == same;
    }

    method OnConnect(a: Address)
      modifies this
      ensures devices == if DashKey(a) in old(devices) then old(devices) else old(devices)[DashKey(a) := NEW_DEVICE]
      ensures notices == old(notices)
    {
      var key := DashKey(a);
      var device := if key in devices then devices[key] else NEW_DEVICE;
      devices := devices[key := device];
    }

    method OnDisconnect(a: Address)
      modifies this
      ensures devices == old(devices) - {DashKey(a)}
      ensures notices == old(notices) + if DashKey(a) in old(devices) then Report(old(devices), a) else []
    {
      var key := DashKey(a);
      if key in devices {
        var device := devices[key];
        var count := CountByUuid(device.uuid);
        if device.logined && count < 2 {
          notices := notices + [Notice(a, device.uuid, device.loginType)];
        }
        devices := devices - {key};
      }
    }

    /** The manager's own half of a stop; the service manager does the rest. */
    method Retire(a: Address) returns (found: bool)
      modifies this
      ensures found <==> DashKey(a) in old(devices)
      ensures devices == if found
                         then old(devices)[DashKey(a) := old(devices)[DashKey(a)].(logined := false, expire := true)]
                         else old(devices)
      ensures notices == old(notices) + if found then Report(old(devices), a) else []
    {
      var key := DashKey(a);
      found := key in devices;
      if found {
        var device := devices[key];
        var count := CountByUuid(device.uuid);
        if device.logined && count < 2 {
          notices := notices + [Notice(a, device.uuid, device.loginType)];
        }
        devices := devices[key := device.(logined := false, expire := true)];
      }
    }
  }

  class TCPServiceManager {
    const hosts: HostAddressMap
    const manager: DeviceManager
    var links: map<string, Service>

    constructor ()
      ensures fresh(hosts) && fresh(manager) && View() == NO_INDEXES
    {
      hosts := new HostAddressMap();
      manager := new DeviceManager();
      links := map[];
    }

    function View(): Indexes
      reads this, hosts, manager
    {
      Indexes(hosts.entries, links, manager.devices, manager.notices)
    }

    method SaveLinkAndCallBack(a: Address, service: Service, handle: Handle)
      modifies this, hosts, manager
      ensures View() == Connect(old(View()), a, handle, service)
    {
      var done := hosts.SetHostAddress(a, handle);
      if !done {
        return;
      }
      manager.OnConnect(a);
      var key := DashKey(a);
      if key !in links {
        links := links[key := service];
      }
    }

    method DeleteLinkAndCallBack(a: Address)
      modifies this, hosts, manager
      ensures View() == Disconnect(old(View()), a)
    {
      manager.OnDisconnect(a);
      hosts.RemoveHostAddress(ColonKey(a));
      var key := DashKey(a);
      links := links - {key};
    }

    method RemoveTcpService(a: Address)
      modifies this, hosts
      ensures hosts.entries == old(hosts.entries) - {ColonKey(a)} && links == old(links) - {DashKey(a)}
    {
      hosts.RemoveHostAddress(ColonKey(a));
      var key := DashKey(a);
      if key !in links {
        return;
      }
      links := links - {key};
    }

    /** StopTcpServer: only an address with a device is stopped; the device stays until the socket closes. */
    method StopTcpServer(a: Address)
      modifies this, hosts, manager
      ensures View() == Stop(old(View()), a)
    {
      var found := manager.Retire(a);
      if found {
        RemoveTcpService(a);
      }
    }
  }

  // ----- runs -----

  /** Steps on TCP addresses. Login and Logout are what CDevice does while it sends responses. */
  datatype Op =
    | DoConnect(a: Address, handle: Handle, service: Service)
    | DoDisconnect(a: Address)
    | DoStop(a: Address)
    | Login(a: Address, uuid: string, loginType: int)
    | Logout(a: Address)

  function Apply(x: Indexes, op: Op): Indexes {
    match op
    case DoConnect(a, h, s) => Connect(x, a, h, s)
    case DoDisconnect(a) => Disconnect(x, a)
    case DoStop(a) => Stop(x, a)
    case Login(a, u, t) =>
      var k := DashKey(a);
      if k in x.devices
      then x.(devices := x.devices[k := x.devices[k].(uuid := u, logined := true, loginType := t)]) else x
    case Logout(a) =>
      var k := DashKey(a);
      if k in x.devices then x.(devices := x.devices[k := x.devices[k].(logined := false)]) else x
  }

  function After(ops: seq<Op>): Indexes {
    if ops == [] then NO_INDEXES else Apply(After(ops[..|ops| - 1]), ops[|ops| - 1])
  }

  /** The addresses connected and neither stopped nor disconnected since, with their handles. */
  function Linked(ops: seq<Op>): map<Address, Handle> {
    if ops == [] then map[]
    else
      var before := Linked(ops[..|ops| - 1]);
      match ops[|ops| - 1]
      case DoConnect(a, h, _) => if h == 0 || a.port == 0 then before else before[a := h]
      case DoDisconnect(a) => before - {a}
      case DoStop(a) => before - {a}
      case _ => before
  }

  /** The addresses connected and not disconnected since. */
  function Known(ops: seq<Op>): set<Address> {
    if ops == [] then {}
    else
      var before := Known(ops[..|ops| - 1]);
      match ops[|ops| - 1]
      case DoConnect(a, h, _) => if h == 0 || a.port == 0 then before else before + {a}
      case DoDisconnect(a) => before - {a}
      case _ => before
  }

  predicate AllCommaFree(ops: seq<Op>) {
    forall op | op in ops :: CommaFree(op.a)
  }

  function ColonKeys(s: set<Address>): set<string> {
    set a | a in s :: ColonKey(a)
  }

  function DashKeys(s: set<Address>): set<string> {
    set a | a in s :: DashKey(a)
  }

  lemma DashKeysChange(s: set<Address>, b: Address)
    ensures DashKeys(s + {b}) == DashKeys(s) + {DashKey(b)}
    ensures DashKeys(s - {b}) == DashKeys(s) - {DashKey(b)}
    ensures DashKey(b) in DashKeys(s) <==> b in s
  {
    forall a | a in s
      ensures DashKey(a) == DashKey(b) <==> a == b
    {
      DashKeyInjective(a, b);
    }
    hide DashKey;
  }

  lemma ColonKeysChange(s: set<Address>, b: Address)
    requires CommaFree(b) && forall a | a in s :: CommaFree(a)
    ensures ColonKeys(s + {b}) == ColonKeys(s) + {ColonKey(b)}
    ensures ColonKeys(s - {b}) == ColonKeys(s) - {ColonKey(b)}
    ensures ColonKey(b) in ColonKeys(s) <==> b in s
  {
    forall a | a in s
      ensures ColonKey(a) == ColonKey(b) <==> a == b
    {
      ColonKeyInjectiveCommaFree(a, b);
    }
    hide ColonKey, CommaFree;
  }

  /** Links and devices over every run: they are kept under the keys of the addresses that the history
      says, and every linked address is known. */
  lemma {:induction false} LinksFollowHistory(ops: seq<Op>)
    ensures After(ops).links.Keys == DashKeys(Linked(ops).Keys)
    ensures After(ops).devices.Keys == DashKeys(Known(ops))
    ensures Linked(ops).Keys <= Known(ops)
    decreases |ops|
  {
    hide ColonKey, DashKey, Report, DashKeys;
    if ops == [] {
      assert Linked(ops).Keys == {};
      NoKeys();
    } else {
      var init, op := ops[..|ops| - 1], ops[|ops| - 1];
      LinksFollowHistory(init);
      LinkedAfter(ops, init, op);
      DashKeysChange(Linked(init).Keys, op.a);
      DashKeysChange(Known(init), op.a);
    }
  }

  lemma LinkedAfter(ops: seq<Op>, init: seq<Op>, op: Op)
    requires |ops| > 0 && init == ops[..|ops| - 1] && op == ops[|ops| - 1]
    ensures Linked(ops).Keys ==
            if op.DoConnect? && op.handle != 0 && op.a.port != 0 then Linked(init).Keys + {op.a}
            else if op.DoDisconnect? || op.DoStop? then Linked(init).Keys - {op.a}
            else Linked(init).Keys
  {
  }

  lemma NoKeys()
    ensures ColonKeys({}) == {} && DashKeys({}) == {}
  {
  }

  /** The handle map holds the handle of the last connect of every linked address. */
  ghost predicate HandlesAgree(handles: map<string, HostEntry>, linked: map<Address, Handle>) {
    && handles.Keys == ColonKeys(linked.Keys)
    && (forall a | a in linked :: CommaFree(a) && linked[a] != 0 && a.port != 0)
    && (forall a | a in linked :: EntryOf(handles, a, linked[a]))
  }

  predicate EntryOf(handles: map<string, HostEntry>, a: Address, handle: Handle) {
    ColonKey(a) in handles && handles[ColonKey(a)] == HostEntry(a, handle)
  }

  /** Handles over every run on comma-free addresses. */
  lemma {:induction false} HandlesFollowHistory(ops: seq<Op>)
    requires AllCommaFree(ops)
    ensures HandlesAgree(After(ops).handles, Linked(ops))
    decreases |ops|
  {
    hide ColonKey, DashKey, CommaFree, Report, ColonKeys, DashKeys, HandlesAgree;
    if ops == [] {
      NoHandles();
    } else {
      var init, op := ops[..|ops| - 1], ops[|ops| - 1];
      HandlesFollowHistory(init);
      LinksFollowHistory(init);
      DashKeysChange(Known(init), op.a);
      HandlesStep(After(init).handles, Linked(init), op.a);
      if op.DoConnect? && op.handle != 0 && op.a.port != 0 {
        HandlesConnect(After(init).handles, Linked(init), op.a, op.handle);
      }
    }
  }

  lemma NoHandles()
    ensures HandlesAgree(map[], map[])
  {
    NoKeys();
  }

  lemma HandlesConnect(handles: map<string, HostEntry>, linked: map<Address, Handle>, a: Address, handle: Handle)
    requires HandlesAgree(handles, linked) && CommaFree(a) && handle != 0 && a.port != 0
    ensures HandlesAgree(handles[ColonKey(a) := HostEntry(a, handle)], linked[a := handle])
  {
    hide ColonKey, CommaFree, ColonKeys;
    var after := linked[a := handle];
    ColonKeysChange(linked.Keys, a);
    assert after.Keys == linked.Keys + {a};
    forall b | b in after
      ensures EntryOf(handles[ColonKey(a) := HostEntry(a, handle)], b, after[b])
    {
      ColonKeyInjectiveCommaFree(b, a);
      assert b != a ==> EntryOf(handles, b, linked[b]);
    }
  }

  lemma HandlesStep(handles: map<string, HostEntry>, linked: map<Address, Handle>, a: Address)
    requires HandlesAgree(handles, linked) && CommaFree(a)
    ensures HandlesAgree(handles - {ColonKey(a)}, linked - {a})
    ensures a !in linked ==> linked - {a} == linked
  {
    hide ColonKey, CommaFree, ColonKeys;
    var after := linked - {a};
    ColonKeysChange(linked.Keys, a);
    assert after.Keys == linked.Keys - {a};
    forall b | b in after
      ensures EntryOf(handles - {ColonKey(a)}, b, after[b])
    {
      ColonKeyInjectiveCommaFree(b, a);
      assert EntryOf(handles, b, linked[b]);
    }
  }

  /** For one address: it has a link exactly when it is linked, a device exactly when it is known, and so a
      device whenever it has a link. */
  lemma LinkAndDevice(ops: seq<Op>, a: Address)
    ensures var x := After(ops);
            && (DashKey(a) in x.links <==> a in Linked(ops))
            && (DashKey(a) in x.devices <==> a in Known(ops))
            && (DashKey(a) in x.links ==> DashKey(a) in x.devices)
  {
    hide DashKey;
    LinksFollowHistory(ops);
    DashKeysChange(Linked(ops).Keys, a);
    DashKeysChange(Known(ops), a);
  }

  /** For one address a handle goes with a link, and a send finds the handle of the last connect, or none
      once the address is stopped or disconnected. */
  lemma IndexesAgree(ops: seq<Op>, a: Address, hosts: HostAddressMap)
    requires AllCommaFree(ops) && CommaFree(a) && hosts.entries == After(ops).handles
    ensures var x := After(ops);
            && (ColonKey(a) in x.handles <==> DashKey(a) in x.links)
            && hosts.GetHostAddress(ColonKey(a)) == (if a in Linked(ops) then Linked(ops)[a] else 0)
            && (hosts.GetHostAddress(ColonKey(a)) != 0 <==> DashKey(a) in x.links)
  {
    hide DashKey, ColonKey, CommaFree;
    HandlesFollowHistory(ops);
    LinkAndDevice(ops, a);
    ColonKeysChange(Linked(ops).Keys, a);
    assert a in Linked(ops) ==> EntryOf(After(ops).handles, a, Linked(ops)[a]);
  }

  /** The link of an address, read off the history alone: the service of its first connect since it was last
      stopped or disconnected. */
  function LinkOf(ops: seq<Op>, a: Address): Option<Service> {
    if ops == [] then None
    else
      var before, op := LinkOf(ops[..|ops| - 1], a), ops[|ops| - 1];
      if op.a != a then before
      else
        match op
        case DoConnect(_, h, s) => if h == 0 || a.port == 0 || before.Some? then before else Some(s)
        case DoDisconnect(_) => None
        case DoStop(_) => None
        case _ => before
  }

  /** Over every run each address has exactly that link. */
  lemma {:induction false} LinkFollowsHistory(ops: seq<Op>, a: Address)
    ensures (if DashKey(a) in After(ops).links then Some(After(ops).links[DashKey(a)]) else None) == LinkOf(ops, a)
    decreases |ops|
  {
    hide ColonKey, DashKey, Report;
    if ops != [] {
      var init, op := ops[..|ops| - 1], ops[|ops| - 1];
      LinkFollowsHistory(init, a);
      LinkAndDevice(init, a);
      DashKeyInjective(a, op.a);
    }
  }

  /** The device of an address, read off the history alone. */
  function DeviceOf(ops: seq<Op>, a: Address): Option<Device> {
    if ops == [] then None
    else
      var before, op := DeviceOf(ops[..|ops| - 1], a), ops[|ops| - 1];
      if op.a != a then before
      else
        match op
        case DoConnect(_, h, _) => if h == 0 || a.port == 0 || before.Some? then before else Some(Device("", false,
            0, false))
        case DoDisconnect(_) => None
        case DoStop(_) => if before.None? then None else Some(Device(before.value.uuid, false,
            before.value.loginType, true))
        case Login(_, u, t) => if before.None? then None else Some(Device(u, true, t, before.value.expire))
        case Logout(_) =>
          if before.None? then None else Some(Device(before.value.uuid, false, before.value.loginType,
              before.value.expire))
  }

  /** Over every run each address has exactly that device. */
  lemma {:induction false} DeviceFollowsHistory(ops: seq<Op>, a: Address)
    ensures (if DashKey(a) in After(ops).devices then Some(After(ops).devices[DashKey(a)])
            else None) == DeviceOf(ops, a)
    decreases |ops|
  {
    hide ColonKey, DashKey, Report;
    if ops != [] {
      var init, op := ops[..|ops| - 1], ops[|ops| - 1];
      DeviceFollowsHistory(init, a);
      DashKeyInjective(a, op.a);
    }
  }

  /** Without stops devices and links are kept under the same keys. */
  lemma NoStopsNoStrays(ops: seq<Op>)
    requires forall op | op in ops :: !op.DoStop?
    ensures After(ops).devices.Keys == After(ops).links.Keys
  {
    LinksFollowHistory(ops);
    KnownIsLinked(ops);
  }

  lemma {:induction false} KnownIsLinked(ops: seq<Op>)
    requires forall op | op in ops :: !op.DoStop?
    ensures Known(ops) == Linked(ops).Keys
    decreases |ops|
  {
    if ops != [] {
      KnownIsLinked(ops[..|ops| - 1]);
    }
  }

  /** Devices and links differ exactly in the addresses stopped and not yet disconnected. */
  lemma StraysExactly(ops: seq<Op>)
    ensures After(ops).devices.Keys - After(ops).links.Keys == DashKeys(Known(ops) - Linked(ops).Keys)
    ensures After(ops).links.Keys <= After(ops).devices.Keys
  {
    LinksFollowHistory(ops);
    var linked, known := Linked(ops).Keys, Known(ops);
    forall a, b | a in known && b in known
      ensures DashKey(a) == DashKey(b) <==> a == b
    {
      DashKeyInjective(a, b);
    }
    KeysApart(linked, known);
  }

  lemma KeysApart(linked: set<Address>, known: set<Address>)
    requires linked <= known && forall a, b | a in known && b in known :: DashKey(a) == DashKey(b) <==> a == b
    ensures DashKeys(known) - DashKeys(linked) == DashKeys(known - linked) && DashKeys(linked) <= DashKeys(known)
  {
    hide DashKey;
    forall k
      ensures k in DashKeys(known) - DashKeys(linked) <==> k in DashKeys(known - linked)
    {
      if k in DashKeys(known) - DashKeys(linked) {
        var a :| a in known && DashKey(a) == k;
        assert a !in linked;
      }
      if k in DashKeys(known - linked) {
        var a :| a in known - linked && DashKey(a) == k;
        assert k !in DashKeys(linked);
      }
    }
  }

  /** A stop leaves the device of a linked address as a stray until the disconnect. */
  lemma StopLeavesDevice(ops: seq<Op>, a: Address)
    requires a in Linked(ops)
    ensures var x := After(ops + [DoStop(a)]);
            DashKey(a) in x.devices && DashKey(a) !in x.links && ColonKey(a) !in x.handles
    ensures var y := After(ops + [DoStop(a), DoDisconnect(a)]);
            DashKey(a) !in y.devices && DashKey(a) !in y.links && ColonKey(a) !in y.handles
  {
    hide ColonKey, DashKey, Report;
    LinkAndDevice(ops, a);
    var stopped, closed := ops + [DoStop(a)], ops + [DoStop(a), DoDisconnect(a)];
    assert stopped[..|stopped| - 1] == ops;
    assert closed[..|closed| - 1] == stopped;
  }

  // ----- reports -----

  function NoticesFor(notices: seq<Notice>, a: Address): nat {
    if notices == [] then 0
    else NoticesFor(notices[..|notices| - 1], a) + if notices[|notices| - 1].address == a then 1 else 0
  }

  function Logins(ops: seq<Op>, a: Address): nat {
    if ops == [] then 0
    else Logins(ops[..|ops| - 1], a) + if ops[|ops| - 1].Login? && ops[|ops| - 1].a == a then 1 else 0
  }

  function LoggedIn(x: Indexes, a: Address): nat {
    if DashKey(a) in x.devices && x.devices[DashKey(a)].logined then 1 else 0
  }

  lemma NoticesAppend(notices: seq<Notice>, more: seq<Notice>, a: Address)
    requires |more| <= 1
    ensures NoticesFor(notices + more, a) == NoticesFor(notices, a) + if |more| == 1
            && more[0].address == a then 1 else 0
  {
    if |more| == 1 {
      assert (notices + more)[..|notices|] == notices;
    } else {
      assert notices + more == notices;
    }
  }

  /** Over every run a client is reported gone at most once per login, and a client still logged in has
      a report left. */
  lemma {:induction false} OneReportPerLogin(ops: seq<Op>, a: Address)
    ensures NoticesFor(After(ops).notices, a) + LoggedIn(After(ops), a) <= Logins(ops, a)
    decreases |ops|
  {
    hide ColonKey, DashKey;
    if ops != [] {
      var init, op := ops[..|ops| - 1], ops[|ops| - 1];
      OneReportPerLogin(init, a);
      var x := After(init);
      DashKeyInjective(a, op.a);
      if (op.DoDisconnect? || op.DoStop?) && DashKey(op.a) in x.devices {
        NoticesAppend(x.notices, Report(x.devices, op.a), a);
      }
    }
  }

  lemma TwoMembers(s: set<string>, x: string, y: string)
    requires x in s && y in s
    ensures x != y ==> |s| >= 2
  {
    if x != y {
      assert |s - {x} - {y}| == |s| - 2;
    }
  }

  /** What a report is about: a logged-in device, the only one with its uuid. */
  predicate Alone(devices: map<string, Device>, n: Notice) {
    var k := DashKey(n.address);
    && k in devices && devices[k].logined && devices[k].uuid == n.uuid && devices[k].loginType == n.loginType
    && (forall j | j in devices && devices[j].uuid == n.uuid :: j == k)
  }

  lemma ReportAlone(devices: map<string, Device>, a: Address)
    requires DashKey(a) in devices && Report(devices, a) != []
    ensures Report(devices, a) == [Report(devices, a)[0]] && Alone(devices, Report(devices, a)[0])
  {
    var k := DashKey(a);
    var same := SameUuid(devices, devices[k].uuid);
    forall j | j in devices && devices[j].uuid == devices[k].uuid
      ensures j == k
    {
      TwoMembers(same, j, k);
    }
  }

  /** Over every run, each report was made in a step before which its client was logged in on the only device
      with its uuid. */
  lemma {:induction false} ReportedAlone(ops: seq<Op>, i: nat) returns (step: nat)
    requires i < |After(ops).notices|
    ensures step < |ops| && (ops[step].DoDisconnect? || ops[step].DoStop?)
    ensures |After(ops[..step]).notices| == i
    ensures ops[step].a == After(ops).notices[i].address
    ensures Alone(After(ops[..step]).devices, After(ops).notices[i])
    decreases |ops|
  {
    hide ColonKey, DashKey, Report, Alone;
    var init, op := ops[..|ops| - 1], ops[|ops| - 1];
    var x := After(init);
    if i < |x.notices| {
      step := ReportedAlone(init, i);
      assert init[..step] == ops[..step];
      NoticesGrow(x, op);
    } else {
      step := |ops| - 1;
      NoticesGrow(x, op);
      ReportAlone(x.devices, op.a);
      ReportNames(x.devices, op.a);
    }
  }

  /** Over every run: a disconnect or stop adds a report exactly when its client is logged in on the only device
      with its uuid, and then exactly that report; no other step adds any. */
  lemma ReportsExactly(ops: seq<Op>, op: Op, n: Notice)
    ensures op.DoDisconnect? || op.DoStop? ==>
              (After(ops + [op]).notices == After(ops).notices + [n] <==>
               n.address == op.a && Alone(After(ops).devices, n))
    ensures After(ops + [op]).notices != After(ops).notices ==>
              && (op.DoDisconnect? || op.DoStop?)
              && exists m: Notice :: m.address == op.a && Alone(After(ops).devices, m)
  {
    var later, x := ops + [op], After(ops);
    assert later[..|later| - 1] == ops;
    NoticesGrow(x, op);
    OneNotice(x.notices, n);
    if (op.DoDisconnect? || op.DoStop?) && DashKey(op.a) in x.devices {
      ReportIff(x.devices, op.a, n);
      if Report(x.devices, op.a) != [] {
        ReportAlone(x.devices, op.a);
        ReportNames(x.devices, op.a);
        assert Report(x.devices, op.a)[0] in Report(x.devices, op.a);
      }
      assert x.notices + Report(x.devices, op.a) == x.notices + [n] <==> Report(x.devices, op.a) == [n] by {
        SameEnd(x.notices, Report(x.devices, op.a), n);
      }
    }
    hide Report, Alone, DashKey;
  }

  lemma SameEnd(s: seq<Notice>, r: seq<Notice>, n: Notice)
    ensures s + r == s + [n] <==> r == [n]
  {
    assert r == (s + r)[|s|..];
  }

  lemma OneNotice(s: seq<Notice>, n: Notice)
    ensures s != s + [n]
  {
  }

  lemma ReportIff(devices: map<string, Device>, a: Address, n: Notice)
    requires DashKey(a) in devices
    ensures Report(devices, a) == [n] <==> n.address == a && Alone(devices, n)
  {
    var k := DashKey(a);
    var same := SameUuid(devices, devices[k].uuid);
    if Report(devices, a) != [] {
      ReportAlone(devices, a);
    }
    if n.address == a && Alone(devices, n) {
      assert same == {k};
    }
  }

  lemma ReportNames(devices: map<string, Device>, a: Address)
    requires DashKey(a) in devices
    ensures |Report(devices, a)| <= 1 && forall n | n in Report(devices, a) :: n.address == a
  {
  }

  lemma NoticesGrow(x: Indexes, op: Op)
    ensures Apply(x, op).notices ==
            x.notices +
            if (op.DoDisconnect? || op.DoStop?) && DashKey(op.a) in x.devices then Report(x.devices, op.a) else []
  {
    hide DashKey, Report;
  }
}
