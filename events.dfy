/**
 * Translation of native FSEvents notifications into the watcher's
 * normalized events: the per-notification mapping (newEvent) and the
 * order-preserving filter the translation loop (MapEvents) applies to the
 * batches the native stream delivers.
 */
module Events {

  datatype Option<T> = None | Some(value: T)

  /** Native per-event flags, a 32-bit mask. */
  type EventFlags = bv32

  // The native flags newEvent reads: the kFSEventStreamEventFlagItem* bits
  // of the FSEvents API.
  const ItemCreated: EventFlags := 0x0000_0100
  const ItemRemoved: EventFlags := 0x0000_0200
  const ItemInodeMetaMod: EventFlags := 0x0000_0400
  const ItemRenamed: EventFlags := 0x0000_0800
  const ItemModified: EventFlags := 0x0000_1000
  const ItemChangeOwner: EventFlags := 0x0000_4000
  const ItemXattrMod: EventFlags := 0x0000_8000
  const ItemIsFile: EventFlags := 0x0001_0000
  const ItemIsDir: EventFlags := 0x0002_0000

  /** The operation set of a normalized event, a bit-set. */
  type Op = bv32

  const Create: Op := 1
  const Write: Op := 2
  const Remove: Op := 4
  const Rename: Op := 8
  const Chmod: Op := 16

  /** Every operation bit a normalized event may carry. */
  const AllOps: Op := Create | Write | Remove | Rename | Chmod

  /**
   * Every bit of `flag` is set in `mask`: the test newEvent applies to each
   * native flag, and the membership test on an operation set.
   */
  predicate Has(mask: bv32, flag: bv32)
  {
    mask & flag == flag
  }

  /** A notification as the native stream delivers it: a path and its flags. */
  datatype RawEvent = RawEvent(path: string, flags: EventFlags)

  /** A normalized event: a path and a combinable set of operations. */
  datatype Event = Event(name: string, op: Op)

  /** The five normalized operations, one per bit of Op. */
  datatype OpKind = CreateOp | WriteOp | RemoveOp | RenameOp | ChmodOp

  function Bit(k: OpKind): Op
  {
    match k
    case CreateOp => Create
    case WriteOp => Write
    case RemoveOp => Remove
    case RenameOp => Rename
    case ChmodOp => Chmod
  }

  /**
   * The mapping table: which native flags raise each normalized operation.
   * Removed, Created and Renamed map one to one; Write is raised by a content
   * or inode-metadata change, Chmod by an owner or extended-attribute change.
   */
  predicate Raises(mask: EventFlags, k: OpKind)
  {
    match k
    case RemoveOp => Has(mask, ItemRemoved)
    case CreateOp => Has(mask, ItemCreated)
    case RenameOp => Has(mask, ItemRenamed)
    case WriteOp => Has(mask, ItemModified) || Has(mask, ItemInodeMetaMod)
    case ChmodOp => Has(mask, ItemChangeOwner) || Has(mask, ItemXattrMod)
  }

  /**
   * newEvent: a notification about anything but a plain file yields nothing,
   * whatever else its mask holds; a file notification always yields an event
   * for the same path (NewEventFollowsTable gives its operation bits).
   */
  function NewEvent(name: string, mask: EventFlags): (r: Option<Event>)
    ensures r.None? <==> !Has(mask, ItemIsFile)
    ensures r.Some? ==> r.value.name == name
  {
    if !Has(mask, ItemIsFile) then None
    else
      var op0: Op := 0;
      var op1 := if Has(mask, ItemRemoved) then op0 | Remove else op0;
      var op2 := if Has(mask, ItemCreated) then op1 | Create else op1;
      var op3 := if Has(mask, ItemRenamed) then op2 | Rename else op2;
      var op4 := if Has(mask, ItemModified) || Has(mask, ItemInodeMetaMod) then op3 | Write else op3;
      var op5 := if Has(mask, ItemChangeOwner) || Has(mask, ItemXattrMod) then op4 | Chmod else op4;
      Some(Event(name, op5))
  }

  /**
   * The operation bits of a file event are exactly those the mapping table
   * raises for its mask (possibly none), and no bit outside the five
   * operations is ever set.
   */
  lemma NewEventFollowsTable(name: string, mask: EventFlags)
    requires Has(mask, ItemIsFile)
    ensures NewEvent(name, mask).value.op & !AllOps == 0
    ensures forall k :: Has(NewEvent(name, mask).value.op, Bit(k)) <==> Raises(mask, k)
  {
  }

  /**
   * The event a notification produces depends on its flags only through the
   * file bit and the mapping table: two file notifications whose masks raise
   * the same operations give the same event.
   */
  lemma NewEventDependsOnlyOnTable(name: string, m1: EventFlags, m2: EventFlags)
    requires Has(m1, ItemIsFile) && Has(m2, ItemIsFile)
    requires forall k :: Raises(m1, k) <==> Raises(m2, k)
    ensures NewEvent(name, m1) == NewEvent(name, m2)
  {
    var o1 := NewEvent(name, m1).value.op;
    var o2 := NewEvent(name, m2).value.op;
    NewEventFollowsTable(name, m1);
    NewEventFollowsTable(name, m2);
    assert Has(o1, Bit(CreateOp)) == Has(o2, Bit(CreateOp));
    assert Has(o1, Bit(WriteOp)) == Has(o2, Bit(WriteOp));
    assert Has(o1, Bit(RemoveOp)) == Has(o2, Bit(RemoveOp));
    assert Has(o1, Bit(RenameOp)) == Has(o2, Bit(RenameOp));
    assert Has(o1, Bit(ChmodOp)) == Has(o2, Bit(ChmodOp));
    SameBitsSameOp(o1, o2);
  }

  /** Two operation sets with no stray bits that agree on all five operations are equal. */
  lemma SameBitsSameOp(o1: Op, o2: Op)
    requires o1 & !AllOps == 0 && o2 & !AllOps == 0
    requires Has(o1, Create) == Has(o2, Create) && Has(o1, Write) == Has(o2, Write)
    requires Has(o1, Remove) == Has(o2, Remove) && Has(o1, Rename) == Has(o2, Rename)
    requires Has(o1, Chmod) == Has(o2, Chmod)
    ensures o1 == o2
  {
  }

  /** A directory notification is dropped, whatever operation flags it carries. */
  lemma DirectoryEventDropped(name: string, mask: EventFlags)
    requires Has(mask, ItemIsDir) && mask & ItemIsFile == 0
    ensures NewEvent(name, mask) == None
  {
  }

  /** Removed together with Renamed yields one event carrying both operations. */
  lemma RemovedAndRenamed(name: string)
    ensures NewEvent(name, ItemIsFile | ItemRemoved | ItemRenamed) == Some(Event(name, Remove | Rename))
  {
  }

  /** What the translation loop sends for one notification: its event, if any. */
  function Normalize(raw: RawEvent): (r: seq<Event>)
    ensures |r| <= 1
  {
    match NewEvent(raw.path, raw.flags)
    case Some(e) => [e]
    case None => []
  }

  /** The events the translation loop forwards for a run of notifications, in order. */
  function Forwarded(raws: seq<RawEvent>): (r: seq<Event>)
    ensures |r| <= |raws|
  {
    if |raws| == 0 then []
    else Forwarded(raws[..|raws| - 1]) + Normalize(raws[|raws| - 1])
  }

  /** Forwarding one more notification appends its event, if any. */
  lemma ForwardedSnoc(raws: seq<RawEvent>, raw: RawEvent)
    ensures Forwarded(raws + [raw]) == Forwarded(raws) + Normalize(raw)
  {
    assert (raws + [raw])[..|raws|] == raws;
  }

  /** Forwarding keeps the order of the input: it distributes over concatenation. */
  lemma {:induction false} ForwardedAppend(a: seq<RawEvent>, b: seq<RawEvent>)
    ensures Forwarded(a + b) == Forwarded(a) + Forwarded(b)
    decreases |b|
  {
    if |b| == 0 {
      assert a + b == a;
    } else {
      var init := b[..|b| - 1];
      assert (a + b)[..|a + b| - 1] == a + init;
      ForwardedAppend(a, init);
    }
  }

  /**
   * An event is forwarded exactly when some notification of the run maps to
   * it: nothing is invented and no normalized event is lost.
   */
  lemma {:induction false} ForwardedMembers(raws: seq<RawEvent>, e: Event)
    ensures e in Forwarded(raws) <==>
            exists i :: 0 <= i < |raws| && NewEvent(raws[i].path, raws[i].flags) == Some(e)
    decreases |raws|
  {
    if |raws| > 0 {
      var init := raws[..|raws| - 1];
      ForwardedMembers(init, e);
      assert forall i :: 0 <= i < |init| ==> init[i] == raws[i];
      if exists i :: 0 <= i < |raws| && NewEvent(raws[i].path, raws[i].flags) == Some(e) {
        var i :| 0 <= i < |raws| && NewEvent(raws[i].path, raws[i].flags) == Some(e);
        if i < |init| {
          assert NewEvent(init[i].path, init[i].flags) == Some(e);
        }
      }
    }
  }

  /** The notifications of all batches, batch after batch. */
  function Flatten(batches: seq<seq<RawEvent>>): seq<RawEvent>
  {
    if |batches| == 0 then [] else Flatten(batches[..|batches| - 1]) + batches[|batches| - 1]
  }

  /**
   * MapEvents: walks the delivered batches in order and sends on the output
   * channel each normalized event newEvent produces; `sent` is the sequence
   * of events sent.
   */
  method MapEvents(batches: seq<seq<RawEvent>>) returns (sent: seq<Event>)
    ensures sent == Forwarded(Flatten(batches))
  {
    sent := [];
    for b := 0 to |batches|
      invariant sent == Forwarded(Flatten(batches[..b]))
    {
      var out := MapBatch(batches[b]);
      assert batches[..b + 1][..b] == batches[..b];
      ForwardedAppend(Flatten(batches[..b]), batches[b]);
      sent := sent + out;
    }
    assert batches[..|batches|] == batches;
  }

  /** The inner loop of MapEvents over one delivered batch: the events it sends, in order. */
  method MapBatch(events: seq<RawEvent>) returns (out: seq<Event>)
    ensures out == Forwarded(events)
  {
    out := [];
    for j := 0 to |events|
      invariant out == Forwarded(events[..j])
    {
      var event := events[j];
      ForwardedSnoc(events[..j], event);
      assert events[..j + 1] == events[..j] + [event];
      match NewEvent(event.path, event.flags)
      case Some(evt) => out := out + [evt];
      case None =>
    }
    assert events[..|events|] == events;
  }
}
