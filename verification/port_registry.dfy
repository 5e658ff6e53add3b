/** The host's registry of open ports (src-tauri/src/serial.rs, `Registry`).

    The process-wide `RwLock<HashMap<u64, PortHandle>>` plus `AtomicU64`
    counter is modelled sequentially: a map from handle id to slot and a
    `nextId` counter. A slot records whether its per-device lock is poisoned;
    `lockPoisoned` records whether the registry-wide lock is. */
module PortRegistry {
  import opened Bytes
  import opened SerialErrors

  /** An open serial port; the registry never looks inside it. */
  datatype Port = Port(path: string, timeoutMs: nat)

  /** One `Arc<Mutex<Box<dyn SerialPort>>>`: the port and whether a thread
      panicked while holding its lock. */
  datatype Slot = Slot(port: Port, poisoned: bool)

  datatype Registry = Registry(nextId: nat, ports: map<nat, Slot>, lockPoisoned: bool)

  /** Every id in the map was handed out before the counter reached its
      current value, and the counter starts at 1. */
  ghost predicate Valid(reg: Registry)
  {
    && reg.nextId >= 1
    && forall id :: id in reg.ports ==> 1 <= id < reg.nextId
  }

  /** `m2` agrees with `m1` on every key except `id`. */
  ghost predicate SameExcept(m1: map<nat, Slot>, m2: map<nat, Slot>, id: nat)
  {
    forall k :: k != id ==> (k in m1 <==> k in m2) && (k in m1 ==> m1[k] == m2[k])
  }

  /** The error reported when the registry-wide lock is poisoned. */
  function PoisonedRegistryLock(context: string): (e: SerialError)
    ensures e.IoError? && !IsProtocolError(e)
    ensures |e.message| == 30 + |context| && e.message[30..] == context
  {
    IoError("registry lock poisoned during " + context)
  }

  /** `Registry::new`. */
  function New(): (r: Registry)
    ensures r.nextId == 1 && r.ports == map[] && !r.lockPoisoned
    ensures Valid(r)
  {
    Registry(1, map[], false)
  }

  datatype Inserted = Inserted(reg: Registry, result: Result<nat>)

  /** `Registry::insert`: takes the current counter value as the new id and
      advances the counter before acquiring the registry lock, so the id is
      consumed even when the lock turns out to be poisoned. */
  function Insert(reg: Registry, port: Port): (r: Inserted)
    ensures r.reg.nextId == reg.nextId + 1
    ensures r.reg.lockPoisoned == reg.lockPoisoned
    ensures !reg.lockPoisoned ==> r.result == Ok(reg.nextId)
    ensures !reg.lockPoisoned ==> reg.nextId in r.reg.ports && r.reg.ports[reg.nextId] == Slot(port, false)
    ensures reg.lockPoisoned ==> r.result == Err(PoisonedRegistryLock("insert")) && r.reg.ports == reg.ports
    ensures SameExcept(reg.ports, r.reg.ports, reg.nextId)
    ensures Valid(reg) ==> Valid(r.reg)
  {
    var id := reg.nextId;
    var counted := reg.(nextId := id + 1);
    if reg.lockPoisoned then Inserted(counted, Err(PoisonedRegistryLock("insert")))
    else Inserted(counted.(ports := reg.ports[id := Slot(port, false)]), Ok(id))
  }

  /** `Registry::get`: a read of the map that changes nothing. */
  function Get(reg: Registry, id: nat): (r: Result<Option<Slot>>)
    ensures reg.lockPoisoned ==> r == Err(PoisonedRegistryLock("get"))
    ensures !reg.lockPoisoned && id in reg.ports ==> r == Ok(Some(reg.ports[id]))
    ensures !reg.lockPoisoned && id !in reg.ports ==> r == Ok(None)
  {
    if reg.lockPoisoned then Err(PoisonedRegistryLock("get"))
    else if id in reg.ports then Ok(Some(reg.ports[id]))
    else Ok(None)
  }

  datatype Removed = Removed(reg: Registry, result: Result<Option<Slot>>)

  /** `Registry::remove`: drops one key, if present, and returns its slot. */
  function Remove(reg: Registry, id: nat): (r: Removed)
    ensures r.reg.nextId == reg.nextId && r.reg.lockPoisoned == reg.lockPoisoned
    ensures reg.lockPoisoned ==> r == Removed(reg, Err(PoisonedRegistryLock("remove")))
    ensures !reg.lockPoisoned ==> id !in r.reg.ports
    ensures !reg.lockPoisoned ==> r.result == Ok(if id in reg.ports then Some(reg.ports[id]) else None)
    ensures !reg.lockPoisoned && id !in reg.ports ==> r.reg == reg
    ensures SameExcept(reg.ports, r.reg.ports, id)
    ensures Valid(reg) ==> Valid(r.reg)
  {
    if reg.lockPoisoned then Removed(reg, Err(PoisonedRegistryLock("remove")))
    else if id in reg.ports then Removed(reg.(ports := reg.ports - {id}), Ok(Some(reg.ports[id])))
    else Removed(reg, Ok(None))
  }

  /** A valid registry never holds the id it will hand out next, so an
      insert never replaces a live port. */
  lemma NextIdIsFresh(reg: Registry)
    requires Valid(reg)
    ensures reg.nextId !in reg.ports
  {
  }

  /** One registry operation, for reasoning about sequences of them. */
  datatype Op = OpInsert(port: Port) | OpRemove(id: nat)

  /** Applies `ops` in order; returns the final registry and the ids the
      successful inserts handed out, in order. */
  function Run(reg: Registry, ops: seq<Op>): (r: (Registry, seq<nat>))
    decreases |ops|
  {
    if |ops| == 0 then (reg, [])
    else
      match ops[0]
      case OpInsert(port) =>
        var ins := Insert(reg, port);
        var rest := Run(ins.reg, ops[1..]);
        (rest.0, (if ins.result.Ok? then [ins.result.value] else []) + rest.1)
      case OpRemove(id) =>
        Run(Remove(reg, id).reg, ops[1..])
  }

  /** Ids are handed out in strictly increasing order, all at or above the
      counter's starting value and below its final value: an id is never
      handed out twice, even after the port holding it was removed. */
  lemma {:induction false} RunIdsStrictlyIncrease(reg: Registry, ops: seq<Op>)
    ensures Run(reg, ops).0.nextId >= reg.nextId
    ensures forall i :: 0 <= i < |Run(reg, ops).1| ==> reg.nextId <= Run(reg, ops).1[i] < Run(reg, ops).0.nextId
    ensures forall i, j :: 0 <= i < j < |Run(reg, ops).1| ==> Run(reg, ops).1[i] < Run(reg, ops).1[j]
    decreases |ops|
  {
    if |ops| > 0 {
      match ops[0]
      case OpInsert(port) =>
        var ins := Insert(reg, port);
        RunIdsStrictlyIncrease(ins.reg, ops[1..]);
      case OpRemove(id) =>
        RunIdsStrictlyIncrease(Remove(reg, id).reg, ops[1..]);
    }
  }

  /** Opening three ports yields handles 1, 2, 3; closing handle 2 and
      opening again yields 4. */
  lemma IdsAreNotReused(p: Port)
    ensures Run(New(), [OpInsert(p), OpInsert(p), OpInsert(p), OpRemove(2), OpInsert(p)]).1 == [1, 2, 3, 4]
  {
    var r0 := New();
    var r1 := Insert(r0, p).reg;
    var r2 := Insert(r1, p).reg;
    var r3 := Insert(r2, p).reg;
    var r4 := Remove(r3, 2).reg;
    assert r4.nextId == 4 && !r4.lockPoisoned;
    var tail := [OpInsert(p)];
    assert tail[1..] == [];
    assert Run(r4, tail).1 == [4];
    assert Run(r3, [OpRemove(2)] + tail).1 == [4] by {
      assert ([OpRemove(2)] + tail)[1..] == tail;
    }
    assert Run(r2, [OpInsert(p), OpRemove(2)] + tail).1 == [3, 4] by {
      assert ([OpInsert(p), OpRemove(2)] + tail)[1..] == [OpRemove(2)] + tail;
    }
    assert Run(r1, [OpInsert(p), OpInsert(p), OpRemove(2)] + tail).1 == [2, 3, 4] by {
      assert ([OpInsert(p), OpInsert(p), OpRemove(2)] + tail)[1..] == [OpInsert(p), OpRemove(2)] + tail;
    }
    assert [OpInsert(p), OpInsert(p), OpInsert(p), OpRemove(2), OpInsert(p)][1..] == [OpInsert(p), OpInsert(p), OpRemove(2)] + tail;
  }
}
