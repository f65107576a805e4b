/** The lazy Objective-C runtime: classes and instances are heap addresses, and the tables
    keyed by them are right only because the heap never hands an address out twice. */
module ObjcRuntime {
  import opened Words
  import opened ByteText
  import opened Regions
  import opened Memory
  import opened Relocation
  import opened LibSystem
  import opened Leb128

  const OBJ_HEADER_SIZE: u64 := 16
  const CLASS_MAGIC: u64 := 0x0b1c_0000_0000_0000

  datatype ClassInfo = ClassInfo(name: string, superclass: Option<nat>)

  datatype Runtime = Runtime(classes: seq<ClassInfo>, addrByName: map<string, u64>, indexByAddr: map<u64, nat>,
                             instanceClass: map<u64, nat>, retainCounts: map<u64, int>)

  const EMPTY: Runtime := Runtime([], map[], map[], map[], map[])

  // ---- the tables as functions -------------------------------------------------------------------------------

  /** Position of the first class with this name. */
  function ClassIndex(classes: seq<ClassInfo>, name: string): (i: Option<nat>)
    ensures i.Some? ==> i.value < |classes| && classes[i.value].name == name
    ensures i.None? ==> forall k :: 0 <= k < |classes| ==> classes[k].name != name
  {
    if classes == [] then None
    else if classes[0].name == name then Some(0)
    else match ClassIndex(classes[1..], name)
      case None =>
        assert forall k :: 0 < k < |classes| ==> classes[k] == classes[1..][k - 1];
        None
      case Some(k) => Some(k + 1)
  }

  /** `preload_root_classes`, one name. */
  function Preload(classes: seq<ClassInfo>, name: string): seq<ClassInfo> {
    if ClassIndex(classes, name).Some? then classes else classes + [ClassInfo(name, None)]
  }

  ghost predicate HasClass(classes: seq<ClassInfo>, name: string) {
    exists k :: 0 <= k < |classes| && classes[k].name == name
  }

  ghost predicate NamesDistinct(classes: seq<ClassInfo>) {
    forall i, j :: 0 <= i < j < |classes| ==> classes[i].name != classes[j].name
  }

  lemma {:induction false} PreloadAdds(classes: seq<ClassInfo>, name: string)
    ensures var after := Preload(classes, name);
            && after == (if HasClass(classes, name) then classes else classes + [ClassInfo(name, None)])
            && HasClass(after, name) && (NamesDistinct(classes) ==> NamesDistinct(after))
            && forall other :: HasClass(classes, other) ==> HasClass(after, other)
  {
    var i := ClassIndex(classes, name);
    hide ClassIndex;
    if i.None? {
      var after := Preload(classes, name);
      assert after[|classes|].name == name;
      forall other | HasClass(classes, other)
        ensures HasClass(after, other)
      {
        var k :| 0 <= k < |classes| && classes[k].name == other;
        assert after[k].name == other;
      }
    }
  }

  /** Allocates a header and stores its first word. */
  function AllocObject(a: Arena, word: u64 -> u64): (r: (Arena, Option<u64>)) {
    match Block16(a.heap, OBJ_HEADER_SIZE)
    case Err(_) => (a, None)
    case Ok(done) =>
      var a' := a.(heap := done.0);
      match WriteU64(a.regions, done.1, word(done.1))
      case Err(_) => (a', None)
      case Ok(rs) => (a'.(regions := rs), Some(done.1))
  }

  function ClassWord(addr: u64): u64 {
    OrFits(CLASS_MAGIC, addr);
    BitOr(CLASS_MAGIC, addr)
  }

  function WithClass(rt: Runtime, name: string, addr: u64): (r: Runtime) {
    match ClassIndex(rt.classes, name)
    case Some(i) => rt.(addrByName := rt.addrByName[name := addr], indexByAddr := rt.indexByAddr[addr := i])
    case None =>
      rt.(classes := rt.classes + [ClassInfo(name, ClassIndex(rt.classes, "NSObject"))],
          addrByName := rt.addrByName[name := addr], indexByAddr := rt.indexByAddr[addr := |rt.classes|])
  }

  /** `get_or_create_class`. */
  function GetClass(rt: Runtime, a: Arena, name: string): (r: (Runtime, Arena, Option<u64>)) {
    if name in rt.addrByName then (rt, a, Some(rt.addrByName[name]))
    else
      var (a', addr) := AllocObject(a, ClassWord);
      if addr.None? then (rt, a', None) else (WithClass(rt, name, addr.value), a', addr)
  }

  function WithInstance(rt: Runtime, obj: u64, index: nat): Runtime {
    rt.(instanceClass := rt.instanceClass[obj := index], retainCounts := rt.retainCounts[obj := 1])
  }

  /** `alloc_instance`. */
  function AllocInstance(rt: Runtime, a: Arena, classAddr: u64): (r: (Runtime, Arena, Option<u64>)) {
    if classAddr !in rt.indexByAddr then (rt, a, None)
    else
      var (a', obj) := AllocObject(a, _ => classAddr);
      if obj.None? then (rt, a', None) else (WithInstance(rt, obj.value, rt.indexByAddr[classAddr]), a', obj)
  }

  function OrZero(addr: Option<u64>): u64 {
    if addr.Some? then addr.value else 0
  }

  // ---- messages ------------------------------------------------------------------------------------------------

  /** `read_cstr`: characters up to a NUL or `max`, failing where memory cannot be read. */
  function ReadGuestCstr(rs: RegionMap, addr: u64, max: nat): (r: Result<string, EmuError>)
    decreases max
  {
    if max == 0 then Ok("")
    else
      var b :- ReadBytes(rs, addr, 1);
      if b[0] == 0 then Ok("")
      else
        var rest :- ReadGuestCstr(rs, Wrap(addr + 1), max - 1);
        Ok([b[0] as char] + rest)
  }

  function Retained(rt: Runtime, recv: u64, delta: int): Runtime {
    if recv in rt.retainCounts then rt.(retainCounts := rt.retainCounts[recv := rt.retainCounts[recv] + delta]) else rt
  }

  function CountOf(rt: Runtime, recv: u64): u64 {
    if recv in rt.retainCounts then Wrap(rt.retainCounts[recv]) else 1
  }

  /** The class object an instance answers `class` with; anything else answers itself. */
  function ClassAnswer(rt: Runtime, recv: u64): u64 {
    if recv in rt.instanceClass then
      if rt.instanceClass[recv] < |rt.classes| && rt.classes[rt.instanceClass[recv]].name in rt.addrByName
      then rt.addrByName[rt.classes[rt.instanceClass[recv]].name] else 0
    else recv
  }

  /** Dispatch on a readable selector. */
  function Dispatch(rt: Runtime, a: Arena, recv: u64, sel: string): (r: (Runtime, Arena, u64)) {
    if (sel == "alloc" || sel == "allocWithZone:" || sel == "new") && recv in rt.indexByAddr then
      var (rt', a', obj) := AllocInstance(rt, a, recv);
      (rt', a', OrZero(obj))
    else if sel == "init" || StartsWith(sel, "initWith") then (rt, a, recv)
    else if sel == "retain" then (Retained(rt, recv, 1), a, recv)
    else if sel == "self" || sel == "autorelease" then (rt, a, recv)
    else if sel == "release" then (Retained(rt, recv, -1), a, 0)
    else if sel == "retainCount" then (rt, a, CountOf(rt, recv))
    else if sel == "class" then (rt, a, ClassAnswer(rt, recv))
    else if sel == "hash" then (rt, a, recv)
    else (rt, a, 0)
  }

  /** `msg_send`: nil receivers and unreadable or empty selectors answer 0. */
  function MsgSend(rt: Runtime, a: Arena, recv: u64, selPtr: u64): (r: (Runtime, Arena, u64)) {
    if recv == 0 then (rt, a, 0)
    else match ReadGuestCstr(a.regions, selPtr, 256)
      case Err(_) => (rt, a, 0)
      case Ok(sel) => if sel == "" then (rt, a, 0) else Dispatch(rt, a, recv, sel)
  }

  // ---- the runtime object ------------------------------------------------------------------------------------

  class ObjcRuntime {
    var classes: seq<ClassInfo>
    var addrByName: map<string, u64>
    var indexByAddr: map<u64, nat>
    var instanceClass: map<u64, nat>
    var retainCounts: map<u64, int>

    function View(): Runtime
      reads this
    {
      Runtime(classes, addrByName, indexByAddr, instanceClass, retainCounts)
    }

    constructor ()
      ensures View() == EMPTY
    {
      classes, addrByName, indexByAddr, instanceClass, retainCounts := [], map[], map[], map[], map[];
    }

    /** Both root names have a class afterwards, and classes that were there keep their places. Only missing
        names are added, so no name is duplicated and a second call changes nothing. */
    method PreloadRootClasses()
      modifies this`classes
      ensures View() == old(View()).(classes := Preload(Preload(old(classes), "NSObject"), "NSProxy"))
      ensures HasClass(classes, "NSObject") && HasClass(classes, "NSProxy") && old(classes) <= classes
      ensures forall k :: |old(classes)| <= k < |classes| ==>
                (classes[k] == ClassInfo("NSObject", None) || classes[k] == ClassInfo("NSProxy", None))
                && !HasClass(old(classes), classes[k].name)
      ensures NamesDistinct(old(classes)) ==> NamesDistinct(classes)
      ensures HasClass(old(classes), "NSObject") && HasClass(old(classes), "NSProxy") ==> classes == old(classes)
    {
      hide ClassIndex, NamesDistinct;
      assert "NSObject"[2] != "NSProxy"[2];
      PreloadAdds(classes, "NSObject");
      classes := Preload(classes, "NSObject");
      PreloadAdds(classes, "NSProxy");
      classes := Preload(classes, "NSProxy");
    }

    method GetOrCreateClass(name: string, mem: GuestMemory) returns (addr: Option<u64>)
      requires mem.Valid()
      modifies this, mem`regions, mem`history, mem.heap
      ensures mem.Valid()
      ensures (View(), Arena(mem.regions, mem.heap.View()), addr)
              == GetClass(old(View()), Arena(old(mem.regions), old(mem.heap.View())), name)
    {
      hide Alloc, Block16, WriteBytes, Le, ClassWord, ClassIndex;
      if name in addrByName { return Some(addrByName[name]); }
      Block16Is(mem.heap.View(), OBJ_HEADER_SIZE);
      var a := mem.HeapAlloc(OBJ_HEADER_SIZE, 16);
      if a.Err? { return None; }
      var e := mem.Write(a.value, Le(ClassWord(a.value), 8));
      if e.Some? { return None; }
      var index := ClassIndex(classes, name);
      if index.None? {
        classes := classes + [ClassInfo(name, ClassIndex(classes, "NSObject"))];
        index := Some(|classes| - 1);
      }
      addrByName := addrByName[name := a.value];
      indexByAddr := indexByAddr[a.value := index.value];
      addr := Some(a.value);
    }

    method AllocateInstance(classAddr: u64, mem: GuestMemory) returns (obj: Option<u64>)
      requires mem.Valid()
      modifies this, mem`regions, mem`history, mem.heap
      ensures mem.Valid()
      ensures (View(), Arena(mem.regions, mem.heap.View()), obj)
              == AllocInstance(old(View()), Arena(old(mem.regions), old(mem.heap.View())), classAddr)
    {
      hide Alloc, Block16, WriteBytes, Le;
      if classAddr !in indexByAddr { return None; }
      var index := indexByAddr[classAddr];
      Block16Is(mem.heap.View(), OBJ_HEADER_SIZE);
      var a := mem.HeapAlloc(OBJ_HEADER_SIZE, 16);
      if a.Err? { return None; }
      var e := mem.Write(a.value, Le(classAddr, 8));
      if e.Some? { return None; }
      instanceClass := instanceClass[a.value := index];
      retainCounts := retainCounts[a.value := 1];
      obj := Some(a.value);
    }

    method ReadSelector(mem: GuestMemory, addr: u64, max: nat) returns (r: Result<string, EmuError>)
      requires mem.Valid()
      ensures r == ReadGuestCstr(mem.regions, addr, max)
    {
      hide ReadBytes;
      var out, cur, i := "", addr, 0;
      assert ReadGuestCstr(mem.regions, addr, max).Ok? ==>
          "" + ReadGuestCstr(mem.regions, addr, max).value == ReadGuestCstr(mem.regions, addr, max).value;
      while i < max
        invariant 0 <= i <= max
        invariant match ReadGuestCstr(mem.regions, cur, max - i)
                  case Ok(rest) => ReadGuestCstr(mem.regions, addr, max) == Ok(out + rest)
                  case Err(e) => ReadGuestCstr(mem.regions, addr, max) == Err(e)
      {
        var b := mem.Read(cur, 1);
        if b.Err? { return Err(b.error); }
        if b.value[0] == 0 {
          assert out + "" == out;
          return Ok(out);
        }
        ghost var tail := ReadGuestCstr(mem.regions, Wrap(cur as int + 1), max - i - 1);
        assert tail.Ok? ==> out + ([b.value[0] as char] + tail.value) == (out + [b.value[0] as char]) + tail.value;
        out := out + [b.value[0] as char];
        cur := Wrap(cur as int + 1);
        i := i + 1;
      }
      assert out + "" == out;
      r := Ok(out);
    }

    method SendMessage(recv: u64, selPtr: u64, mem: GuestMemory) returns (ret: u64)
      requires mem.Valid()
      requires forall o :: o in instanceClass ==> instanceClass[o] < |classes|
      modifies this, mem`regions, mem`history, mem.heap
      ensures mem.Valid()
      ensures (View(), Arena(mem.regions, mem.heap.View()), ret)
              == MsgSend(old(View()), Arena(old(mem.regions), old(mem.heap.View())), recv, selPtr)
    {
      hide AllocInstance, ReadGuestCstr;
      if recv == 0 { return 0; }
      var text := ReadSelector(mem, selPtr, 256);
      if text.Err? || text.value == "" { return 0; }
      var sel := text.value;
      if (sel == "alloc" || sel == "allocWithZone:" || sel == "new") && recv in indexByAddr {
        var obj := AllocateInstance(recv, mem);
        ret := OrZero(obj);
      } else if sel == "init" || StartsWith(sel, "initWith") {
        ret := recv;
      } else if sel == "self" || sel == "retain" || sel == "autorelease" {
        if recv in retainCounts && sel == "retain" {
          retainCounts := retainCounts[recv := retainCounts[recv] + 1];
        }
        ret := recv;
      } else if sel == "release" {
        if recv in retainCounts {
          retainCounts := retainCounts[recv := retainCounts[recv] - 1];
        }
        ret := 0;
      } else if sel == "retainCount" {
        ret := if recv in retainCounts then Wrap(retainCounts[recv]) else 1;
      } else if sel == "class" {
        if recv in instanceClass {
          var name := classes[instanceClass[recv]].name;
          ret := if name in addrByName then addrByName[name] else 0;
        } else {
          ret := recv;
        }
      } else if sel == "hash" {
        ret := recv;
      } else {
        ret := 0;
      }
    }
  }

  // ---- the table invariant -------------------------------------------------------------------------------------

  /** A name that has a class object leads to it and back: name, address, index, name. */
  ghost predicate NameCloses(rt: Runtime, n: string) {
    && n in rt.addrByName && rt.addrByName[n] in rt.indexByAddr
    && rt.indexByAddr[rt.addrByName[n]] < |rt.classes|
    && rt.classes[rt.indexByAddr[rt.addrByName[n]]].name == n
  }

  /** A class object leads to its name and back: address, index, name, address. */
  ghost predicate AddressCloses(rt: Runtime, c: u64) {
    && c in rt.indexByAddr && rt.indexByAddr[c] < |rt.classes|
    && rt.classes[rt.indexByAddr[c]].name in rt.addrByName
    && rt.addrByName[rt.classes[rt.indexByAddr[c]].name] == c
  }

  ghost predicate NamesClose(rt: Runtime) {
    && (forall n {:trigger NameCloses(rt, n)} :: n in rt.addrByName ==> NameCloses(rt, n))
    && (forall c {:trigger AddressCloses(rt, c)} :: c in rt.indexByAddr ==> AddressCloses(rt, c))
  }

  /** No address the tables know is null or still to be handed out, and none is both a class and an
      instance. */
  ghost predicate AddressesOk(rt: Runtime, cursor: u64) {
    && (forall c :: c in rt.indexByAddr ==> 0 < c < cursor && c !in rt.instanceClass)
    && (forall o :: o in rt.instanceClass ==> 0 < o < cursor)
  }

  ghost predicate HeapBounds(h: Bump) {
    0 < h.cursor <= h.limit && h.limit + 16 <= TWO_64
  }

  // ---- what a run has asked for ----------------------------------------------------------------------------------

  /** A record of the run kept without looking at the tables: the class object returned for each
      name, the class address each instance was allocated from, and the retains and releases sent
      to it since. */
  datatype Ledger = Ledger(handed: map<string, u64>, origin: map<u64, u64>, retains: map<u64, nat>,
                           releases: map<u64, nat>)

  datatype Event =
    | LookUp(name: string)
    | AllocVia(class_: u64)
    | Message(recv: u64, selPtr: u64)
    | Elsewhere(arena: Arena)

  function Step(rt: Runtime, a: Arena, ev: Event): (r: (Runtime, Arena, u64)) {
    match ev
    case LookUp(name) => var (rt', a', addr) := GetClass(rt, a, name); (rt', a', OrZero(addr))
    case AllocVia(c) => var (rt', a', obj) := AllocInstance(rt, a, c); (rt', a', OrZero(obj))
    case Message(recv, selPtr) => MsgSend(rt, a, recv, selPtr)
    case Elsewhere(a') => (rt, a', 0)
  }

  /** The selector text a message carries, if it carries one. */
  function Heard(a: Arena, ev: Event): Option<string> {
    if ev.Message? && ev.recv != 0 && ReadGuestCstr(a.regions, ev.selPtr, 256).Ok? then
      Some(ReadGuestCstr(a.regions, ev.selPtr, 256).value)
    else None
  }

  const ALLOCATORS: set<string> := {"alloc", "allocWithZone:", "new"}

  function Born(l: Ledger, obj: u64, c: u64): Ledger {
    l.(origin := l.origin[obj := c], retains := l.retains[obj := 0], releases := l.releases[obj := 0])
  }

  function Record(l: Ledger, a: Arena, ev: Event, ret: u64): Ledger {
    match ev
    case LookUp(name) => if ret == 0 then l else l.(handed := l.handed[name := ret])
    case AllocVia(c) => if ret == 0 then l else Born(l, ret, c)
    case Message(recv, _) =>
      (match Heard(a, ev)
       case None => l
       case Some(sel) =>
         if sel in ALLOCATORS && recv in l.handed.Values then (if ret == 0 then l else Born(l, ret, recv))
         else if sel == "retain" && recv in l.retains then l.(retains := l.retains[recv := l.retains[recv] + 1])
         else if sel == "release" && recv in l.releases then
           l.(releases := l.releases[recv := l.releases[recv] + 1])
         else l)
    case Elsewhere(_) => l
  }

  /** The rest of the system may do anything to memory, but only moves the heap cursor up. */
  ghost predicate Allowed(a: Arena, ev: Event) {
    ev.Elsewhere? ==> HeapBounds(ev.arena.heap) && a.heap.cursor <= ev.arena.heap.cursor
  }

  ghost predicate InstancesAgree(rt: Runtime, l: Ledger) {
    && l.origin.Keys == rt.instanceClass.Keys == rt.retainCounts.Keys == l.retains.Keys == l.releases.Keys
    && forall o :: o in l.origin ==>
         && l.origin[o] in rt.indexByAddr && rt.instanceClass[o] == rt.indexByAddr[l.origin[o]]
         && rt.retainCounts[o] + l.releases[o] == 1 + l.retains[o]
  }

  ghost predicate RuntimeOk(rt: Runtime, a: Arena, l: Ledger) {
    && NamesClose(rt) && NamesDistinct(rt.classes) && AddressesOk(rt, a.heap.cursor) && HeapBounds(a.heap)
    && l.handed == rt.addrByName && InstancesAgree(rt, l)
  }

  /** A fresh object lies at or past everything handed out before it. */
  lemma {:induction false} FreshObject(a: Arena, word: u64 -> u64)
    requires HeapBounds(a.heap)
    ensures var (a', addr) := AllocObject(a, word);
            && HeapBounds(a'.heap) && a.heap.cursor <= a'.heap.cursor
            && (addr.Some? ==> a.heap.cursor <= addr.value < a'.heap.cursor)
  {
    hide Block16, WriteBytes, Le;
    if Block16(a.heap, OBJ_HEADER_SIZE).Ok? {
      AllocBounds(a.heap, OBJ_HEADER_SIZE);
    }
  }

  lemma {:induction false} ClassIndexIn(rt: Runtime, name: string)
    ensures match ClassIndex(rt.classes, name)
            case Some(i) => i < |rt.classes| && rt.classes[i].name == name
            case None => forall k :: 0 <= k < |rt.classes| ==> rt.classes[k].name != name
  {
  }

  lemma {:induction false} NamedClass(rt: Runtime, name: string, addr: u64)
    requires NamesClose(rt) && NamesDistinct(rt.classes)
    requires name !in rt.addrByName && addr !in rt.indexByAddr
    ensures var rt' := WithClass(rt, name, addr); NamesClose(rt') && NamesDistinct(rt'.classes)
  {
    hide ClassIndex;
    ClassIndexIn(rt, name);
    var rt' := WithClass(rt, name, addr);
    assert forall k :: 0 <= k < |rt.classes| ==> rt'.classes[k] == rt.classes[k];
    forall n | n in rt'.addrByName
      ensures NameCloses(rt', n)
    {
      if n != name { assert NameCloses(rt, n); }
    }
    forall c | c in rt'.indexByAddr
      ensures AddressCloses(rt', c)
    {
      if c != addr { assert AddressCloses(rt, c); }
    }
  }

  /** New instances and counts leave the class tables alone. */
  lemma {:induction false} SameClasses(rt: Runtime, rt': Runtime)
    requires rt'.classes == rt.classes && rt'.addrByName == rt.addrByName && rt'.indexByAddr == rt.indexByAddr
    requires NamesClose(rt)
    ensures NamesClose(rt')
  {
    forall n | n in rt'.addrByName
      ensures NameCloses(rt', n)
    {
      assert NameCloses(rt, n);
    }
    forall c | c in rt'.indexByAddr
      ensures AddressCloses(rt', c)
    {
      assert AddressCloses(rt, c);
    }
  }

  /** A fresh address can become a class object. */
  lemma {:induction false} ClassAddresses(rt: Runtime, name: string, addr: u64, cursor: u64, cursor': u64)
    requires AddressesOk(rt, cursor) && 0 < cursor <= addr < cursor'
    ensures AddressesOk(WithClass(rt, name, addr), cursor') && addr !in rt.indexByAddr
  {
    hide ClassIndex;
  }

  lemma {:induction false} ClassAgrees(rt: Runtime, l: Ledger, name: string, addr: u64)
    requires InstancesAgree(rt, l) && addr !in rt.indexByAddr
    ensures InstancesAgree(WithClass(rt, name, addr), l.(handed := l.handed[name := addr]))
  {
    hide ClassIndex;
  }

  lemma {:induction false} CursorGrows(rt: Runtime, cursor: u64, cursor': u64)
    requires AddressesOk(rt, cursor) && cursor <= cursor'
    ensures AddressesOk(rt, cursor')
  {
  }

  lemma {:induction false} LookUpKeeps(rt: Runtime, a: Arena, l: Ledger, name: string)
    requires RuntimeOk(rt, a, l)
    ensures var (rt', a', addr) := GetClass(rt, a, name);
            && RuntimeOk(rt', a', Record(l, a, LookUp(name), OrZero(addr)))
            && (addr.Some? ==> addr.value != 0)
  {
    hide AllocObject, ClassWord, ClassIndex, NamesClose, NamesDistinct, AddressesOk, InstancesAgree;
    if name in rt.addrByName {
      KnownClass(rt, a.heap.cursor, name);
      assert l.handed == l.handed[name := rt.addrByName[name]];
      assert l.(handed := l.handed[name := rt.addrByName[name]]) == l;
    } else {
      FreshObject(a, ClassWord);
      var (a', addr) := AllocObject(a, ClassWord);
      CursorGrows(rt, a.heap.cursor, a'.heap.cursor);
      if addr.Some? {
        ClassAddresses(rt, name, addr.value, a.heap.cursor, a'.heap.cursor);
        ClassAgrees(rt, l, name, addr.value);
        NamedClass(rt, name, addr.value);
      }
    }
  }

  lemma {:induction false} KnownClass(rt: Runtime, cursor: u64, name: string)
    requires NamesClose(rt) && AddressesOk(rt, cursor) && name in rt.addrByName
    ensures rt.addrByName[name] != 0
  {
    ClosesAt(rt, name);
  }

  lemma {:induction false} ClosesAt(rt: Runtime, name: string)
    requires NamesClose(rt) && name in rt.addrByName
    ensures NameCloses(rt, name)
  {
  }

  /** A fresh address can become an instance. */
  lemma {:induction false} InstanceAddresses(rt: Runtime, obj: u64, index: nat, cursor: u64, cursor': u64)
    requires AddressesOk(rt, cursor) && 0 < cursor <= obj < cursor'
    ensures AddressesOk(WithInstance(rt, obj, index), cursor') && obj !in rt.instanceClass
  {
  }

  lemma {:induction false} InstanceAgrees(rt: Runtime, l: Ledger, obj: u64, c: u64)
    requires InstancesAgree(rt, l) && c in rt.indexByAddr && obj !in rt.instanceClass
    ensures InstancesAgree(WithInstance(rt, obj, rt.indexByAddr[c]), Born(l, obj, c))
  {
    assert forall o :: o in l.origin ==> o in l.origin.Keys;
    assert obj !in l.origin.Keys;
  }

  lemma {:induction false} AllocKeeps(rt: Runtime, a: Arena, l: Ledger, c: u64)
    requires RuntimeOk(rt, a, l)
    ensures var (rt', a', obj) := AllocInstance(rt, a, c);
            && RuntimeOk(rt', a', if obj.Some? then Born(l, obj.value, c) else l)
            && (obj.Some? ==> obj.value != 0)
  {
    hide AllocObject, NamesDistinct, NamesClose, AddressesOk, InstancesAgree;
    if c in rt.indexByAddr {
      FreshObject(a, _ => c);
      var (rt', a', obj) := AllocInstance(rt, a, c);
      CursorGrows(rt, a.heap.cursor, a'.heap.cursor);
      SameClasses(rt, rt');
      if obj.Some? {
        InstanceAddresses(rt, obj.value, rt.indexByAddr[c], a.heap.cursor, a'.heap.cursor);
        InstanceAgrees(rt, l, obj.value, c);
      }
    }
  }

  lemma {:induction false} CountAgrees(rt: Runtime, l: Ledger, l': Ledger, recv: u64, delta: int)
    requires InstancesAgree(rt, l) && recv in l.origin && l'.origin == l.origin
    requires l'.retains.Keys == l.retains.Keys && l'.releases.Keys == l.releases.Keys
    requires recv in l.retains && recv in l'.retains && recv in l.releases && recv in l'.releases
    requires delta + l.retains[recv] + l'.releases[recv] == l'.retains[recv] + l.releases[recv] as int
    requires forall o :: o in l.retains && o != recv ==> o in l'.retains && l'.retains[o] == l.retains[o]
    requires forall o :: o in l.releases && o != recv ==> o in l'.releases && l'.releases[o] == l.releases[o]
    ensures InstancesAgree(Retained(rt, recv, delta), l')
  {
    assert recv in rt.retainCounts.Keys;
    var rt' := Retained(rt, recv, delta);
    assert rt'.retainCounts.Keys == rt.retainCounts.Keys;
    forall o | o in l'.origin
      ensures l'.origin[o] in rt'.indexByAddr && rt'.instanceClass[o] == rt'.indexByAddr[l'.origin[o]]
      ensures rt'.retainCounts[o] + l'.releases[o] == 1 + l'.retains[o]
    {
      assert o in l.retains.Keys && o in l.releases.Keys;
    }
  }

  lemma {:induction false} RecountKeeps(rt: Runtime, a: Arena, l: Ledger, l': Ledger, recv: u64, delta: int)
    requires RuntimeOk(rt, a, l) && l'.handed == l.handed && InstancesAgree(Retained(rt, recv, delta), l')
    ensures RuntimeOk(Retained(rt, recv, delta), a, l')
  {
    hide NamesDistinct, NamesClose, InstancesAgree;
    SameClasses(rt, Retained(rt, recv, delta));
  }

  lemma {:induction false} RetainKeeps(rt: Runtime, a: Arena, l: Ledger, recv: u64)
    requires RuntimeOk(rt, a, l) && recv in l.origin && recv in l.retains && recv in l.releases
    ensures RuntimeOk(Retained(rt, recv, 1), a, l.(retains := l.retains[recv := l.retains[recv] + 1]))
    ensures RuntimeOk(Retained(rt, recv, -1), a, l.(releases := l.releases[recv := l.releases[recv] + 1]))
  {
    hide NamesDistinct, NamesClose, InstancesAgree, AddressesOk, Retained;
    var more := l.(retains := l.retains[recv := l.retains[recv] + 1]);
    var less := l.(releases := l.releases[recv := l.releases[recv] + 1]);
    Agreement(rt, a, l);
    CountAgrees(rt, l, more, recv, 1);
    CountAgrees(rt, l, less, recv, -1);
    hide RuntimeOk;
    RecountKeeps(rt, a, l, more, recv, 1);
    RecountKeeps(rt, a, l, less, recv, -1);
  }

  lemma {:induction false} Agreement(rt: Runtime, a: Arena, l: Ledger)
    requires RuntimeOk(rt, a, l)
    ensures InstancesAgree(rt, l) && l.origin.Keys == l.retains.Keys == l.releases.Keys
  {
  }

  lemma {:induction false} MessageKeeps(rt: Runtime, a: Arena, l: Ledger, recv: u64, selPtr: u64)
    requires RuntimeOk(rt, a, l)
    ensures var (rt', a', ret) := MsgSend(rt, a, recv, selPtr);
            RuntimeOk(rt', a', Record(l, a, Message(recv, selPtr), ret))
  {
    hide RuntimeOk, AllocInstance, ReadGuestCstr;
    TablesMatch(rt, a, l, recv);
    AllocKeeps(rt, a, l, recv);
    if recv in l.origin { RetainKeeps(rt, a, l, recv); }
  }

  /** The ledger knows exactly the classes and the instances the tables know. */
  lemma {:induction false} TablesMatch(rt: Runtime, a: Arena, l: Ledger, recv: u64)
    requires RuntimeOk(rt, a, l)
    ensures recv in rt.indexByAddr <==> recv in l.handed.Values
    ensures recv in rt.retainCounts <==> recv in l.origin
    ensures recv in l.retains <==> recv in l.origin
    ensures recv in l.releases <==> recv in l.origin
  {
    hide NamesDistinct;
    if recv in rt.indexByAddr {
      assert AddressCloses(rt, recv);
    }
    if recv in l.handed.Values {
      var n :| n in l.handed && l.handed[n] == recv;
      assert NameCloses(rt, n);
    }
    assert recv in l.origin <==> recv in l.origin.Keys;
    assert recv in rt.retainCounts <==> recv in rt.retainCounts.Keys;
    assert recv in l.retains <==> recv in l.retains.Keys;
    assert recv in l.releases <==> recv in l.releases.Keys;
  }

  /** Every event keeps the tables in order and in step with the ledger. */
  lemma {:induction false} StepKeeps(rt: Runtime, a: Arena, l: Ledger, ev: Event)
    requires RuntimeOk(rt, a, l) && Allowed(a, ev)
    ensures var (rt', a', ret) := Step(rt, a, ev); RuntimeOk(rt', a', Record(l, a, ev, ret))
  {
    hide MsgSend, GetClass, AllocInstance, NamesClose, NamesDistinct, InstancesAgree;
    match ev
    case LookUp(name) => LookUpKeeps(rt, a, l, name);
    case AllocVia(c) => AllocKeeps(rt, a, l, c);
    case Message(recv, selPtr) => MessageKeeps(rt, a, l, recv, selPtr);
    case Elsewhere(_) =>
  }

  function RunEvents(rt: Runtime, a: Arena, l: Ledger, evs: seq<Event>): (r: (Runtime, Arena, Ledger))
    decreases |evs|
  {
    if evs == [] then (rt, a, l)
    else
      var (rt', a', ret) := Step(rt, a, evs[0]);
      RunEvents(rt', a', Record(l, a, evs[0], ret), evs[1..])
  }

  ghost predicate AllowedRun(rt: Runtime, a: Arena, evs: seq<Event>)
    decreases |evs|
  {
    evs != [] ==> Allowed(a, evs[0]) && var (rt', a', _) := Step(rt, a, evs[0]); AllowedRun(rt', a', evs[1..])
  }

  lemma {:induction false} RunKeeps(rt: Runtime, a: Arena, l: Ledger, evs: seq<Event>)
    requires RuntimeOk(rt, a, l) && AllowedRun(rt, a, evs)
    ensures var (rt', a', l') := RunEvents(rt, a, l, evs); RuntimeOk(rt', a', l')
    decreases |evs|
  {
    hide RuntimeOk, Step, Record, Allowed;
    if evs != [] {
      StepKeeps(rt, a, l, evs[0]);
      var (rt', a', ret) := Step(rt, a, evs[0]);
      RunKeeps(rt', a', Record(l, a, evs[0], ret), evs[1..]);
    }
  }

  // ---- what a run observes -----------------------------------------------------------------------------------------

  const NO_LEDGER: Ledger := Ledger(map[], map[], map[], map[])

  /** The runtime as the emulator starts it: the root classes named, nothing allocated. */
  function Started(): Runtime {
    EMPTY.(classes := Preload(Preload([], "NSObject"), "NSProxy"))
  }

  lemma {:induction false} StartedOk(a: Arena)
    requires HeapBounds(a.heap)
    ensures RuntimeOk(Started(), a, NO_LEDGER)
  {
    assert Preload([], "NSObject") == [ClassInfo("NSObject", None)];
    assert "NSObject"[2] != "NSProxy"[2];
    ClassIndexIn(Runtime([ClassInfo("NSObject", None)], map[], map[], map[], map[]), "NSProxy");
  }

  /** After any run from the start: a class name keeps its first class object; `class` sent to an
      instance answers the class object it was allocated from; `retainCount` answers one plus the
      retains less the releases sent to it, as a 64-bit word; no instance is a class object, and
      different names have different class objects. */
  lemma {:induction false} RuntimeIsSound(a0: Arena, evs: seq<Event>, o: u64, selPtr: u64, m: string, n: string)
    requires HeapBounds(a0.heap) && AllowedRun(Started(), a0, evs)
    ensures var (rt, a, l) := RunEvents(Started(), a0, NO_LEDGER, evs);
            && (n in l.handed ==> GetClass(rt, a, n) == (rt, a, Some(l.handed[n])))
            && (o in l.origin && Heard(a, Message(o, selPtr)) == Some("class") ==>
                  MsgSend(rt, a, o, selPtr) == (rt, a, l.origin[o]))
            && (o in l.origin && o in l.retains && o in l.releases
                && Heard(a, Message(o, selPtr)) == Some("retainCount") ==>
                  MsgSend(rt, a, o, selPtr) == (rt, a, Wrap(1 + l.retains[o] as int - l.releases[o])))
            && (o in l.origin ==> o !in l.handed.Values && l.origin[o] in l.handed.Values)
            && (m in l.handed && n in l.handed && m != n ==> l.handed[m] != l.handed[n])
  {
    hide RuntimeOk, Started, Allowed, Step, Record, MsgSend, GetClass, Heard;
    StartedOk(a0);
    RunKeeps(Started(), a0, NO_LEDGER, evs);
    var (rt, a, l) := RunEvents(Started(), a0, NO_LEDGER, evs);
    if o in l.origin { InstanceAnswers(rt, a, l, o, selPtr); }
    NamesAnswer(rt, a, l, m, n);
  }

  lemma {:induction false} InstanceAnswers(rt: Runtime, a: Arena, l: Ledger, o: u64, selPtr: u64)
    requires RuntimeOk(rt, a, l) && o in l.origin
    ensures o in l.retains && o in l.releases
    ensures Heard(a, Message(o, selPtr)) == Some("class") ==> MsgSend(rt, a, o, selPtr) == (rt, a, l.origin[o])
    ensures Heard(a, Message(o, selPtr)) == Some("retainCount") ==>
              MsgSend(rt, a, o, selPtr) == (rt, a, Wrap(1 + l.retains[o] as int - l.releases[o]))
    ensures o !in l.handed.Values && l.origin[o] in l.handed.Values
  {
    hide ReadGuestCstr, NamesDistinct, NamesClose, AllocInstance;
    TablesMatch(rt, a, l, o);
    TablesMatch(rt, a, l, l.origin[o]);
    ClassCloses(rt, l.origin[o]);
    assert o in rt.instanceClass.Keys;
    assert rt.retainCounts[o] == 1 + l.retains[o] as int - l.releases[o];
    assert !StartsWith("class", "initWith") && !StartsWith("retainCount", "initWith") by {
      assert "retainCount"[0] != "initWith"[0];
      assert "retainCount"[..8][0] == "retainCount"[0];
    }
    assert ClassAnswer(rt, o) == l.origin[o];
  }

  lemma {:induction false} ClassCloses(rt: Runtime, c: u64)
    requires NamesClose(rt) && c in rt.indexByAddr
    ensures AddressCloses(rt, c)
  {
  }

  lemma {:induction false} NamesAnswer(rt: Runtime, a: Arena, l: Ledger, m: string, n: string)
    requires RuntimeOk(rt, a, l)
    ensures n in l.handed ==> GetClass(rt, a, n) == (rt, a, Some(l.handed[n]))
    ensures m in l.handed && n in l.handed && m != n ==> l.handed[m] != l.handed[n]
  {
    hide NamesDistinct, InstancesAgree;
    if m in l.handed && n in l.handed {
      assert NameCloses(rt, m) && NameCloses(rt, n);
    }
  }

  // ---- what each message answers -----------------------------------------------------------------------------------

  /** Memory holds the byte `v`, readable, `k` bytes past `addr`. */
  ghost predicate Shows(rs: RegionMap, addr: u64, k: nat, v: int) {
    0 <= v < 256 && ReadBytes(rs, (addr + k) % 0x1_0000_0000_0000_0000, 1) == Ok([v])
  }

  /** The memory at `addr` spells the selector: its characters, then a NUL unless all `max` are used. */
  ghost predicate Spells(rs: RegionMap, addr: u64, max: nat, sel: string) {
    && |sel| <= max
    && (forall k :: 0 <= k < |sel| ==> 0 < sel[k] as int && Shows(rs, addr, k, sel[k] as int))
    && (|sel| < max ==> Shows(rs, addr, |sel|, 0))
  }

  lemma {:induction false} ShowsHere(rs: RegionMap, addr: u64)
    ensures match ReadBytes(rs, addr, 1)
            case Err(_) => forall v :: !Shows(rs, addr, 0, v)
            case Ok(b) => forall v :: Shows(rs, addr, 0, v) <==> v == b[0]
  {
    hide ReadBytes;
    if ReadBytes(rs, addr, 1).Ok? {
      var b := ReadBytes(rs, addr, 1).value;
      assert b == [b[0]];
    }
  }

  lemma {:induction false} ShowsNext(rs: RegionMap, addr: u64, k: nat, v: int)
    ensures Shows(rs, Wrap(addr + 1), k, v) <==> Shows(rs, addr, k + 1, v)
  {
    hide ReadBytes;
    WrapPlus(addr + 1, k);
  }

  lemma {:induction false} SpellsFirst(rs: RegionMap, addr: u64, max: nat, sel: string)
    ensures sel != "" && Spells(rs, addr, max, sel) ==> max > 0 && sel[0] as int != 0 && Shows(rs, addr, 0, sel[0] as int)
    ensures sel == "" && max > 0 ==> (Spells(rs, addr, max, sel) <==> Shows(rs, addr, 0, 0))
    ensures sel == "" && max == 0 ==> Spells(rs, addr, max, sel)
  {
    hide Shows;
  }

  /** Reading a selector gives the one text that memory spells; if memory spells none the read fails. */
  lemma {:induction false} SelectorIff(rs: RegionMap, addr: u64, max: nat, sel: string)
    ensures ReadGuestCstr(rs, addr, max) == Ok(sel) <==> Spells(rs, addr, max, sel)
    decreases max
  {
    hide ReadBytes, Shows;
    ShowsHere(rs, addr);
    SpellsFirst(rs, addr, max, sel);
    if max > 0 && ReadBytes(rs, addr, 1).Ok? && ReadBytes(rs, addr, 1).value[0] != 0 && sel != "" {
      var b := ReadBytes(rs, addr, 1).value[0];
      SelectorIff(rs, Wrap(addr + 1), max - 1, sel[1..]);
      SpellsRest(rs, addr, max, sel, b);
      assert sel == [sel[0]] + sel[1..];
      hide Spells;
      if ReadGuestCstr(rs, Wrap(addr + 1), max - 1).Ok? {
        var rest := ReadGuestCstr(rs, Wrap(addr + 1), max - 1).value;
        assert [b as char] + rest == sel <==> b as char == sel[0] && rest == sel[1..] by {
          assert ([b as char] + rest)[1..] == rest;
        }
      }
    }
  }

  lemma {:induction false} SpellsRest(rs: RegionMap, addr: u64, max: nat, sel: string, b: byte)
    requires max > 0 && sel != "" && b != 0 && forall v :: Shows(rs, addr, 0, v) <==> v == b
    ensures Spells(rs, addr, max, sel)
            <==> sel[0] == b as char && Spells(rs, Wrap(addr + 1), max - 1, sel[1..])
  {
    hide Shows, Wrap;
    var rest := sel[1..];
    ShowsNext(rs, addr, |rest|, 0);
    forall k: nat | k < |rest|
      ensures Shows(rs, Wrap(addr + 1), k, rest[k] as int) <==> Shows(rs, addr, k + 1, sel[k + 1] as int)
    {
      ShowsNext(rs, addr, k, rest[k] as int);
    }
    if Spells(rs, addr, max, sel) {
      assert Shows(rs, addr, 0, sel[0] as int);
      forall k | 0 <= k < |rest|
        ensures 0 < rest[k] as int && Shows(rs, Wrap(addr + 1), k, rest[k] as int)
      {
        assert 0 < sel[k + 1] as int && Shows(rs, addr, k + 1, sel[k + 1] as int);
      }
    }
    if sel[0] == b as char && Spells(rs, Wrap(addr + 1), max - 1, rest) {
      forall k | 0 <= k < |sel|
        ensures 0 < sel[k] as int && Shows(rs, addr, k, sel[k] as int)
      {
        if k > 0 {
          assert 0 < rest[k - 1] as int && Shows(rs, Wrap(addr + 1), k - 1, rest[k - 1] as int);
        }
      }
    }
  }

  /** A message to nil, and one whose selector cannot be read or is empty, answers 0 and does nothing. */
  lemma {:induction false} DeafMessages(rt: Runtime, a: Arena, recv: u64, selPtr: u64)
    ensures (recv == 0 || Spells(a.regions, selPtr, 256, "") || (forall sel :: !Spells(a.regions, selPtr, 256, sel))) ==>
              MsgSend(rt, a, recv, selPtr) == (rt, a, 0)
  {
    hide Dispatch, ReadGuestCstr, Spells;
    SelectorIff(a.regions, selPtr, 256, "");
    if ReadGuestCstr(a.regions, selPtr, 256).Ok? {
      SelectorIff(a.regions, selPtr, 256, ReadGuestCstr(a.regions, selPtr, 256).value);
    }
  }

  lemma {:induction false} HeardMessage(rt: Runtime, a: Arena, recv: u64, selPtr: u64, sel: string)
    requires recv != 0 && sel != "" && Spells(a.regions, selPtr, 256, sel)
    ensures MsgSend(rt, a, recv, selPtr) == Dispatch(rt, a, recv, sel)
  {
    hide Dispatch, ReadGuestCstr, Spells;
    SelectorIff(a.regions, selPtr, 256, sel);
  }

  predicate InitLike(sel: string) {
    sel == "init" || (8 <= |sel| && sel[..8] == "initWith")
  }

  lemma {:induction false} NotInit(sel: string, c: char)
    requires sel != "" && sel[0] == c && c != 'i'
    ensures !InitLike(sel) && !StartsWith(sel, "initWith")
  {
    if 8 <= |sel| {
      assert sel[..8][0] == sel[0] && "initWith"[0] == 'i';
    }
    assert "init"[0] == 'i';
  }

  /** The identity messages answer the receiver; only `retain` touches a count. */
  lemma {:induction false} IdentityAnswers(rt: Runtime, a: Arena, recv: u64, selPtr: u64, sel: string)
    requires recv != 0 && Spells(a.regions, selPtr, 256, sel)
    ensures InitLike(sel) || sel == "self" || sel == "autorelease" || sel == "hash" ==>
              MsgSend(rt, a, recv, selPtr) == (rt, a, recv)
  {
    hide Spells, AllocInstance, MsgSend;
    if InitLike(sel) {
      assert sel[0] == 'i' by {
        if sel != "init" { assert sel[..8][0] == sel[0]; }
      }
      assert "alloc"[0] == 'a' && "allocWithZone:"[0] == 'a' && "new"[0] == 'n';
      HeardMessage(rt, a, recv, selPtr, sel);
    } else if sel == "self" {
      SelfAnswers(rt, a, recv);
      HeardMessage(rt, a, recv, selPtr, sel);
    } else if sel == "autorelease" {
      AutoreleaseAnswers(rt, a, recv);
      HeardMessage(rt, a, recv, selPtr, sel);
    } else if sel == "hash" {
      HashAnswers(rt, a, recv);
      HeardMessage(rt, a, recv, selPtr, sel);
    }
  }

  lemma {:induction false} SelfAnswers(rt: Runtime, a: Arena, recv: u64)
    ensures Dispatch(rt, a, recv, "self") == (rt, a, recv)
  {
    NotInit("self", 's');
    hide AllocInstance, StartsWith;
    assert "self"[1] == 'e';
  }

  lemma {:induction false} AutoreleaseAnswers(rt: Runtime, a: Arena, recv: u64)
    ensures Dispatch(rt, a, recv, "autorelease") == (rt, a, recv)
  {
    NotInit("autorelease", 'a');
    hide AllocInstance, StartsWith;
    assert |"autorelease"| == 11 && |"allocWithZone:"| == 14 && "autorelease"[1] == 'u';
  }

  lemma {:induction false} HashAnswers(rt: Runtime, a: Arena, recv: u64)
    ensures Dispatch(rt, a, recv, "hash") == (rt, a, recv)
  {
    NotInit("hash", 'h');
    hide AllocInstance, StartsWith;
    assert "hash"[0] == 'h';
  }

  /** `retain` answers the receiver and `release` answers 0; each moves the count of a receiver that has one by one,
      and nothing else. */
  lemma {:induction false} CountingAnswers(rt: Runtime, a: Arena, recv: u64, selPtr: u64, sel: string)
    requires recv != 0 && Spells(a.regions, selPtr, 256, sel) && (sel == "retain" || sel == "release")
    ensures var (rt', a', ret) := MsgSend(rt, a, recv, selPtr);
            && a' == a && ret == (if sel == "retain" then recv else 0)
            && rt' == rt.(retainCounts := rt'.retainCounts)
            && rt'.retainCounts == if recv in rt.retainCounts
                                   then rt.retainCounts[recv := rt.retainCounts[recv] + if sel == "retain" then 1 else -1]
                                   else rt.retainCounts
  {
    hide Spells, AllocInstance, MsgSend, Dispatch, Retained;
    HeardMessage(rt, a, recv, selPtr, sel);
    RetainAnswers(rt, a, recv);
    ReleaseAnswers(rt, a, recv);
    assert "retain"[2] == 't' && "release"[2] == 'l';
    RetainedIs(rt, recv, 1);
    RetainedIs(rt, recv, -1);
  }

  lemma {:induction false} RetainAnswers(rt: Runtime, a: Arena, recv: u64)
    ensures Dispatch(rt, a, recv, "retain") == (Retained(rt, recv, 1), a, recv)
  {
    NotInit("retain", 'r');
    hide AllocInstance, StartsWith, Retained;
    assert "retain"[0] == 'r' && "init"[0] == 'i';
  }

  lemma {:induction false} ReleaseAnswers(rt: Runtime, a: Arena, recv: u64)
    ensures Dispatch(rt, a, recv, "release") == (Retained(rt, recv, -1), a, 0)
  {
    NotInit("release", 'r');
    hide AllocInstance, StartsWith, Retained;
    assert "release"[2] == 'l' && "retain"[2] == 't' && "self"[0] == 's';
  }

  lemma {:induction false} RetainedIs(rt: Runtime, recv: u64, delta: int)
    ensures var rt' := Retained(rt, recv, delta);
            && rt' == rt.(retainCounts := rt'.retainCounts)
            && rt'.retainCounts == if recv in rt.retainCounts then rt.retainCounts[recv := rt.retainCounts[recv] + delta]
                                   else rt.retainCounts
  {
  }

  /** `class` answers an instance with the object of its class and anything else with itself; `retainCount` answers the
      count, or 1 where there is none. Neither does anything. */
  lemma {:induction false} AskingAnswers(rt: Runtime, a: Arena, recv: u64, selPtr: u64, sel: string)
    requires recv != 0 && Spells(a.regions, selPtr, 256, sel)
    ensures sel == "class" && recv !in rt.instanceClass ==> MsgSend(rt, a, recv, selPtr) == (rt, a, recv)
    ensures sel == "class" && recv in rt.instanceClass && rt.instanceClass[recv] < |rt.classes| ==>
              var name := rt.classes[rt.instanceClass[recv]].name;
              MsgSend(rt, a, recv, selPtr) == (rt, a, if name in rt.addrByName then rt.addrByName[name] else 0)
    ensures sel == "retainCount" ==>
              MsgSend(rt, a, recv, selPtr)
              == (rt, a, if recv in rt.retainCounts then rt.retainCounts[recv] % 0x1_0000_0000_0000_0000 else 1)
  {
    hide Spells, AllocInstance, MsgSend, Dispatch;
    if sel == "class" {
      ClassAsked(rt, a, recv);
      HeardMessage(rt, a, recv, selPtr, sel);
    } else if sel == "retainCount" {
      CountAsked(rt, a, recv);
      HeardMessage(rt, a, recv, selPtr, sel);
    }
  }

  lemma {:induction false} ClassAsked(rt: Runtime, a: Arena, recv: u64)
    ensures Dispatch(rt, a, recv, "class") == (rt, a, ClassAnswer(rt, recv))
  {
    NotInit("class", 'c');
    hide AllocInstance, StartsWith, ClassAnswer;
    assert "class"[0] == 'c';
  }

  lemma {:induction false} CountAsked(rt: Runtime, a: Arena, recv: u64)
    ensures Dispatch(rt, a, recv, "retainCount") == (rt, a, CountOf(rt, recv))
  {
    NotInit("retainCount", 'r');
    hide AllocInstance, StartsWith, CountOf;
    assert |"retainCount"| == 11 && "retainCount"[0] == 'r' && "autorelease"[0] == 'a';
  }

  /** A class answers `alloc`, `allocWithZone:` and `new` with a new instance, or 0 when there is no room. */
  lemma {:induction false} AllocAnswers(rt: Runtime, a: Arena, recv: u64, selPtr: u64, sel: string)
    requires recv != 0 && Spells(a.regions, selPtr, 256, sel)
    requires sel == "alloc" || sel == "allocWithZone:" || sel == "new"
    ensures recv in rt.indexByAddr ==>
              var (rt', a', obj) := AllocInstance(rt, a, recv);
              MsgSend(rt, a, recv, selPtr) == (rt', a', if obj.Some? then obj.value else 0)
    ensures recv !in rt.indexByAddr ==> MsgSend(rt, a, recv, selPtr) == (rt, a, 0)
  {
    hide Spells, AllocInstance, MsgSend, Dispatch;
    HeardMessage(rt, a, recv, selPtr, sel);
    ClassAnswers(rt, a, recv, sel);
    if recv !in rt.indexByAddr {
      if sel == "alloc" {
        PlainAlloc(rt, a, recv);
      } else if sel == "new" {
        PlainNew(rt, a, recv);
      } else {
        PlainAllocWithZone(rt, a, recv);
      }
    }
  }

  lemma {:induction false} ClassAnswers(rt: Runtime, a: Arena, recv: u64, sel: string)
    requires sel == "alloc" || sel == "allocWithZone:" || sel == "new"
    ensures recv in rt.indexByAddr ==>
              var (rt', a', obj) := AllocInstance(rt, a, recv);
              Dispatch(rt, a, recv, sel) == (rt', a', if obj.Some? then obj.value else 0)
  {
    hide AllocInstance;
  }

  lemma {:induction false} PlainAlloc(rt: Runtime, a: Arena, recv: u64)
    requires recv !in rt.indexByAddr
    ensures Dispatch(rt, a, recv, "alloc") == (rt, a, 0)
  {
    NotInit("alloc", 'a');
    hide AllocInstance, StartsWith;
    assert "alloc"[1] == 'l' && "class"[0] == 'c';
  }

  lemma {:induction false} PlainNew(rt: Runtime, a: Arena, recv: u64)
    requires recv !in rt.indexByAddr
    ensures Dispatch(rt, a, recv, "new") == (rt, a, 0)
  {
    NotInit("new", 'n');
    hide AllocInstance, StartsWith;
    assert |"new"| == 3;
  }

  lemma {:induction false} PlainAllocWithZone(rt: Runtime, a: Arena, recv: u64)
    requires recv !in rt.indexByAddr
    ensures Dispatch(rt, a, recv, "allocWithZone:") == (rt, a, 0)
  {
    NotInit("allocWithZone:", 'a');
    hide AllocInstance, StartsWith;
    assert |"allocWithZone:"| == 14;
  }

  /** A selector the runtime does not know answers 0 and does nothing. */
  lemma {:induction false} UnknownAnswers(rt: Runtime, a: Arena, recv: u64, selPtr: u64, sel: string)
    requires recv != 0 && sel != "" && Spells(a.regions, selPtr, 256, sel) && !InitLike(sel)
    requires sel !in {"alloc", "allocWithZone:", "new", "self", "retain", "autorelease", "release", "retainCount", "class",
                      "hash"}
    ensures MsgSend(rt, a, recv, selPtr) == (rt, a, 0)
  {
    hide Spells, AllocInstance, MsgSend;
    HeardMessage(rt, a, recv, selPtr, sel);
  }

  // ---- objects in memory ------------------------------------------------------------------------------------------

  /** A new object is a sixteen-byte block at or past the cursor whose first word is its tag, and no other byte
      changes. */
  lemma {:induction false} ObjectIs(a: Arena, word: u64 -> u64)
    requires Ordered(a.regions) && HeapBounds(a.heap)
    ensures var (a', addr) := AllocObject(a, word);
            && (addr.Some? ==>
                  && addr.value % 16 == 0 && a.heap.cursor <= addr.value
                  && a'.heap == a.heap.(cursor := addr.value + 16) && a'.heap.cursor <= a.heap.limit
                  && Ordered(a'.regions) && Word(a'.regions, addr.value) == word(addr.value)
                  && forall x: int :: !(addr.value <= x < addr.value + 8) ==> ByteAt(a'.regions, x) == ByteAt(a.regions, x))
            && (addr.None? ==> a'.regions == a.regions)
  {
    hide Block16, WriteU64, Ordered, Word, ByteAt;
    if Block16(a.heap, OBJ_HEADER_SIZE).Ok? {
      AllocBounds(a.heap, OBJ_HEADER_SIZE);
      var addr := Block16(a.heap, OBJ_HEADER_SIZE).value.1;
      if WriteU64(a.regions, addr, word(addr)).Ok? {
        StoreWord(a.regions, addr, word(addr));
      }
    }
  }

  /** A class object is tagged with the magic number and its own address, an instance with its class. */
  lemma {:induction false} ObjectTags(rt: Runtime, a: Arena, name: string, classAddr: u64)
    requires Ordered(a.regions) && HeapBounds(a.heap)
    ensures var (_, a', addr) := GetClass(rt, a, name);
            name !in rt.addrByName && addr.Some? ==>
              Word(a'.regions, addr.value) == BitOr(0x0b1c_0000_0000_0000, addr.value)
    ensures var (_, a', obj) := AllocInstance(rt, a, classAddr);
            obj.Some? ==> Word(a'.regions, obj.value) == classAddr
  {
    hide AllocObject, WithClass, Word, Ordered, BitOr;
    ObjectIs(a, ClassWord);
    ObjectIs(a, _ => classAddr);
  }

  /** The superclass of a new class: `NSObject`, if there is one. */
  ghost predicate ParentIs(classes: seq<ClassInfo>, parent: Option<nat>) {
    if HasClass(classes, "NSObject") then parent.Some? && parent.value < |classes| && classes[parent.value].name == "NSObject"
    else parent.None?
  }

  /** The tables after a class is made: its name and address lead to each other, an existing entry of that name is
      used, and a new one comes last and inherits from `NSObject` if there is one. */
  lemma {:induction false} NewClassIs(rt: Runtime, a: Arena, name: string)
    requires name !in rt.addrByName
    ensures var (rt', a', addr) := GetClass(rt, a, name);
            && (addr.None? ==> rt' == rt)
            && (addr.Some? ==>
                  && rt'.addrByName == rt.addrByName[name := addr.value]
                  && addr.value in rt'.indexByAddr && rt'.indexByAddr == rt.indexByAddr[addr.value := rt'.indexByAddr[addr.value]]
                  && rt'.instanceClass == rt.instanceClass && rt'.retainCounts == rt.retainCounts
                  && var k := rt'.indexByAddr[addr.value];
                     && k < |rt'.classes| && rt'.classes[k].name == name
                     && (if HasClass(rt.classes, name) then rt'.classes == rt.classes
                         else |rt'.classes| == |rt.classes| + 1 && rt.classes <= rt'.classes && k == |rt.classes|
                              && ParentIs(rt.classes, rt'.classes[k].superclass)))
  {
    hide AllocObject, ClassWord, ClassIndex;
    ClassIndexIn(rt, name);
    ClassIndexIn(rt, "NSObject");
    var i := ClassIndex(rt.classes, name);
    var p := ClassIndex(rt.classes, "NSObject");
    assert i.Some? ==> HasClass(rt.classes, name);
    assert p.Some? ==> HasClass(rt.classes, "NSObject");
  }

  /** The tables after an instance is made: it is an instance of the class it was asked of, with one reference. */
  lemma {:induction false} NewInstanceIs(rt: Runtime, a: Arena, classAddr: u64)
    ensures var (rt', a', obj) := AllocInstance(rt, a, classAddr);
            && (classAddr !in rt.indexByAddr ==> obj.None? && a' == a)
            && (obj.None? ==> rt' == rt)
            && (obj.Some? ==>
                  && classAddr in rt.indexByAddr
                  && rt' == rt.(instanceClass := rt.instanceClass[obj.value := rt.indexByAddr[classAddr]],
                                retainCounts := rt.retainCounts[obj.value := 1]))
  {
    hide AllocObject;
  }
}
