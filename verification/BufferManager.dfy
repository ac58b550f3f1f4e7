/** BufferManager and Buffer (src/IPC_BufferManager.cpp) as the objects they are: a manager per process
    over a table, a control block and kernel segments that all processes share. Each method is
    proved to do what the functions of BufferTable say. */
module BufferManager {
  import opened Common
  import opened CNames
  import opened DescriptorLists
  import opened BufferTable
  import FutexMutex

  /** The heads of the two lists, in the shared control block. */
  class Control {
    var nextFreeIdx: int
    var nextFullIdx: int

    /** What initPointers stores for a new segment. */
    constructor ()
      ensures nextFreeIdx == 0 && nextFullIdx == -1
    {
      nextFreeIdx := 0;
      nextFullIdx := -1;
    }
  }

  /** The System V segments. */
  class Kernel {
    var segments: map<int, Segment>
    var nextNumber: nat

    constructor ()
      ensures segments == map[] && nextNumber == 0
    {
      segments := map[];
      nextNumber := 0;
    }
  }

  class Manager {
    const code: Code
    const maxLen: nat
    const storage: array<Descriptor>
    const control: Control
    const kernel: Kernel
    var localAtchs: map<int, nat>

    ghost function TableNow(): Table
      reads storage, control
    {
      Table(storage[..], control.nextFreeIdx, control.nextFullIdx)
    }

    ghost function Now(): View
      reads this, storage, control, kernel
    {
      View(maxLen, TableNow(), kernel.segments, kernel.nextNumber, localAtchs)
    }

    /** init() in the process that creates the table. */
    constructor ForNewTable(code: Code, maxLen: nat, capacity: nat, kernel: Kernel)
      requires maxLen > 0 && capacity > 0
      ensures fresh(storage) && fresh(control) && this.kernel == kernel
      ensures this.code == code && this.maxLen == maxLen
      ensures TableNow() == Initial(capacity, maxLen) && localAtchs == map[]
    {
      this.code := code;
      this.maxLen := maxLen;
      this.kernel := kernel;
      this.localAtchs := map[];
      this.storage := new Descriptor[capacity](_ => Descriptor(0, 0, 0, 0, 0, seq(maxLen + 1, _ => NUL)));
      this.control := new Control();
      new;
      InitDescriptors();
    }

    /** init() in a process that attaches to an existing table. */
    constructor ForTableOf(other: Manager)
      ensures storage == other.storage && control == other.control && kernel == other.kernel
      ensures code == other.code && maxLen == other.maxLen && localAtchs == map[]
    {
      code := other.code;
      maxLen := other.maxLen;
      storage := other.storage;
      control := other.control;
      kernel := other.kernel;
      localAtchs := map[];
    }

    method InitDescriptors()
      requires storage.Length > 0
      requires forall i :: 0 <= i < storage.Length ==>
                 storage[i] == Descriptor(0, 0, 0, 0, 0, seq(maxLen + 1, _ => NUL))
      modifies storage
      ensures storage[..] == Initial(storage.Length, maxLen).ds
    {
      var capacity := storage.Length;
      for i := 0 to capacity
        invariant forall j :: 0 <= j < i ==>
                    storage[j] == Descriptor(0, 0, 0, j + 1, j - 1, seq(maxLen + 1, _ => NUL))
        invariant forall j :: i <= j < capacity ==>
                    storage[j] == Descriptor(0, 0, 0, 0, 0, seq(maxLen + 1, _ => NUL))
      {
        storage[i] := storage[i].(nextIdx := i + 1);
        storage[i] := storage[i].(prevIdx := i - 1);
      }
      storage[capacity - 1] := storage[capacity - 1].(nextIdx := -1);
    }

    // ----------------------------------------------------------------- the two lists

    /** On a well-formed table the walk ends, and finds what the lookup finds. */
    method GetDescriptor(id: seq<char>) returns (r: int)
      requires Shaped(Now()) && WellFormed(TableNow())
      ensures r == Lookup(Now(), id)
    {
      ghost var free, full :| Wf(TableNow(), free, full);
      ghost var v := Now();
      FullInRange(v.t, free, full);
      hide Wf, Linked, IsList, WellFormed, CStr;
      ghost var steps := |v.t.ds|;
      ghost var k := 0;
      if control.nextFullIdx == -1 {
        return -1;
      }
      var fullPtr := control.nextFullIdx;
      HeadOfFull(v.t, free, full);
      while fullPtr != -1
        invariant Now() == v && Shaped(v)
        invariant IndexOrEnd(fullPtr, |v.t.ds|)
        invariant k <= |full| && steps == |v.t.ds| - k
        invariant fullPtr == if k < |full| then full[k] else -1
        invariant Walk(v, fullPtr, id, steps) == Lookup(v, id)
        decreases |full| - k
      {
        if StrNEqual(CStr(id), storage[fullPtr].id, maxLen) {
          return fullPtr;
        }
        NextOfFull(v.t, free, full, k);
        fullPtr := storage[fullPtr].nextIdx;
        k, steps := k + 1, steps - 1;
      }
      return -1;
    }

    method GetFreeDescriptor() returns (ret: int)
      requires InRange(TableNow())
      modifies storage, control
      ensures (TableNow(), ret) == Take(old(TableNow()))
    {
      if control.nextFreeIdx == -1 {
        return -1;
      }
      var retIdx := control.nextFreeIdx;
      UnlinkNode(retIdx);
      var prevFullIdx := control.nextFullIdx;
      control.nextFullIdx := retIdx;
      control.nextFreeIdx := storage[retIdx].nextIdx;
      if prevFullIdx != -1 {
        storage[prevFullIdx] := storage[prevFullIdx].(prevIdx := retIdx);
        storage[retIdx] := storage[retIdx].(prevIdx := -1);
      }
      storage[retIdx] := storage[retIdx].(nextIdx := prevFullIdx);
      ret := retIdx;
    }

    /** "Removing from prev list", the statements both operations share. */
    method UnlinkNode(i: int)
      requires 0 <= i < storage.Length
      requires IndexOrEnd(storage[i].prevIdx, storage.Length) && IndexOrEnd(storage[i].nextIdx, storage.Length)
      modifies storage
      ensures storage[..] == Unlink(old(storage[..]), i)
    {
      if storage[i].prevIdx != -1 {
        var prev := storage[i].prevIdx;
        storage[prev] := storage[prev].(nextIdx := storage[i].nextIdx);
      }
      if storage[i].nextIdx != -1 {
        var next := storage[i].nextIdx;
        storage[next] := storage[next].(prevIdx := storage[i].prevIdx);
      }
    }

    method PutFreeDescriptor(i: int)
      requires InRange(TableNow()) && 0 <= i < storage.Length
      modifies storage, control
      ensures TableNow() == Put(code, old(TableNow()), i)
    {
      if code.Repaired? && storage[i].prevIdx == -1 {
        control.nextFullIdx := storage[i].nextIdx;
      }
      UnlinkNode(i);
      storage[i] := Blank(storage[i]);
      var prevFreeIdx := control.nextFreeIdx;
      if prevFreeIdx == -1 {
        control.nextFreeIdx := i;
        storage[i] := storage[i].(nextIdx := -1);
      } else {
        storage[prevFreeIdx] := storage[prevFreeIdx].(prevIdx := i);
        storage[i] := storage[i].(nextIdx := prevFreeIdx);
        control.nextFreeIdx := i;
      }
      storage[i] := storage[i].(prevIdx := -1);
    }

    // ------------------------------------------------------------- segments

    /** attached says whether the kernel is otherwise willing: the key of a new segment must not be taken
        (IPC_EXCL), that of an existing one must be there. */
    method AttachDescriptor(i: int, isNew: bool, attached: bool) returns (r: Result<nat>)
      requires Shaped(Now()) && 0 <= i < storage.Length
      modifies this, kernel
      ensures TableNow() == old(TableNow())
      ensures r.Ok? <==> attached && (isNew <==> storage[i].shmKey !in old(kernel.segments))
      ensures r.Throw? ==> r.error == SegmentFailed && Now() == old(Now())
      ensures r.Ok? && isNew ==>
                && r.value == old(kernel.nextNumber) && kernel.nextNumber == old(kernel.nextNumber) + 1
                && kernel.segments == old(kernel.segments)[storage[i].shmKey := Segment(r.value, storage[i].bytes, 0)]
      ensures r.Ok? && !isNew ==>
                && kernel.nextNumber == old(kernel.nextNumber) && kernel.segments == old(kernel.segments)
                && r.value == old(kernel.segments)[storage[i].shmKey].number
      ensures r.Ok? ==> localAtchs == old(localAtchs)[i := r.value]
    {
      var d := storage[i];
      if !attached || isNew == (d.shmKey in kernel.segments) {
        return Throw(SegmentFailed);
      }
      if isNew {
        kernel.segments := kernel.segments[d.shmKey := Segment(kernel.nextNumber, d.bytes, 0)];
        kernel.nextNumber := kernel.nextNumber + 1;
      }
      var out := kernel.segments[d.shmKey].number;
      localAtchs := localAtchs[i := out];
      return Ok(out);
    }

    method DetachDescriptor(i: int)
      requires Shaped(Now()) && 0 <= i < storage.Length
      modifies this, storage, control, kernel
      ensures Now() == Detach(code, old(Now()), i)
    {
      kernel.segments := kernel.segments - {storage[i].shmKey};
      PutFreeDescriptor(i);
      localAtchs := localAtchs - {i};
    }

    // ------------------------------------------------------------- reference counts

    method SetCount(i: int, count: nat)
      requires 0 <= i < storage.Length
      modifies storage
      ensures TableNow() == WithPayload(old(TableNow()), i, old(storage[i]).(refCount := count))
    {
      storage[i] := storage[i].(refCount := count);
    }

    method RefCountInc(i: int)
      requires 0 <= i < storage.Length
      modifies storage
      ensures Now() == Increment(old(Now()), i)
    {
      SetCount(i, storage[i].refCount + 1);
    }

    method BufferFree(i: int)
      requires Shaped(Now()) && 0 <= i < storage.Length
      modifies this, storage, control, kernel
      ensures Now() == Free(code, old(Now()), i)
    {
      ghost var v := Now();
      SetCount(i, Decremented(storage[i].refCount));
      ShapedPayload(v, i, Decremented(v.t.ds[i].refCount));
      assert Now() == v.(t := WithPayload(v.t, i, v.t.ds[i].(refCount := Decremented(v.t.ds[i].refCount))));
      if storage[i].refCount == 0 {
        hide Detach;
        DetachDescriptor(i);
      }
    }

    // ------------------------------------------------------------------ getBuffer

    /** key is what allocShmKey draws. */
    method GetBuffer(id: seq<char>, bytes: nat, key: int, attached: bool) returns (r: Result<Attached>)
      requires Shaped(Now()) && WellFormed(TableNow())
      modifies this, storage, control, kernel
      ensures (Now(), r) == Get(old(Now()), id, bytes, key, attached)
    {
      hide Lookup, WellFormed, Create, Map;
      var i := GetDescriptor(id);
      if i == -1 {
        r := CreateBuffer(id, bytes, key, attached);
      } else {
        LookupSign(Now(), id);
        r := MapBuffer(i, attached);
      }
    }

    /** The loop of the destructor, in the process that leaves last. */
    method Teardown()
      requires Shaped(Now())
      modifies this, storage, control, kernel
      ensures Now() == TeardownFrom(code, old(Now()), 0)
    {
      hide Detach, Shaped;
      ghost var v := Now();
      for i := 0 to storage.Length
        invariant Shaped(Now()) && |Now().t.ds| == |v.t.ds|
        invariant TeardownFrom(code, Now(), i) == TeardownFrom(code, v, 0)
      {
        if CharAt(storage[i].id, 0) != NUL {
          DetachDescriptor(i);
        }
      }
    }

    method CreateBuffer(id: seq<char>, bytes: nat, key: int, attached: bool) returns (r: Result<Attached>)
      requires Shaped(Now())
      modifies this, storage, control, kernel
      ensures (Now(), r) == Create(old(Now()), id, bytes, key, attached)
    {
      hide StrNCpy, Take;
      ghost var v := Now();
      if bytes == 0 {
        return Throw(ZeroBytes);
      }
      var i := GetFreeDescriptor();
      if i == -1 {
        return Throw(NoFreeDescriptor);
      }
      ghost var t1 := TableNow();
      WriteDescriptor(i, id, bytes, key);
      ghost var d := Descriptor(key, (bytes + FUTEX_BYTES) % SIZE_T, 0, 0, 0, StrNCpy(t1.ds[i].id, CStr(id), maxLen));
      assert Shaped(Now());
      hide Shaped;
      assert storage[i].bytes == d.bytes && storage[i].shmKey == key;
      var localPtr := AttachDescriptor(i, true, attached);
      if localPtr.Throw? {
        return Throw(SegmentFailed);
      }
      RefCountInc(i);
      // the constructor of Buffer initialises the mutex of a new segment
      var segment := kernel.segments[key];
      kernel.segments := kernel.segments[key := segment.(word := FutexMutex.Construct(segment.word, true))];
      assert kernel.segments == v.segments[key := Segment(v.nextNumber, d.bytes, FutexMutex.Construct(0, true))];
      return Ok(Attached(i, SizeOf(storage[i]), localPtr.value, true));
    }

    method WriteDescriptor(i: int, id: seq<char>, bytes: nat, key: int)
      requires 0 <= i < storage.Length && |storage[i].id| == maxLen + 1
      modifies storage
      ensures TableNow() == WithPayload(old(TableNow()), i,
                              Descriptor(key, (bytes + FUTEX_BYTES) % SIZE_T, 0, 0, 0,
                                         StrNCpy(old(storage[i].id), CStr(id), maxLen)))
    {
      storage[i] := storage[i].(bytes := (bytes + FUTEX_BYTES) % SIZE_T);
      storage[i] := storage[i].(refCount := 0);
      storage[i] := storage[i].(id := StrNCpy(storage[i].id, CStr(id), maxLen));
      storage[i] := storage[i].(shmKey := key);
    }

    method MapBuffer(i: int, attached: bool) returns (r: Result<Attached>)
      requires Shaped(Now()) && 0 <= i < storage.Length
      modifies this, storage, kernel
      ensures (Now(), r) == Map(old(Now()), i, attached)
    {
      hide Shaped;
      var number;
      if i in localAtchs {
        number := localAtchs[i];
      } else {
        var localPtr := AttachDescriptor(i, false, attached);
        if localPtr.Throw? {
          return Throw(SegmentFailed);
        }
        number := localPtr.value;
      }
      RefCountInc(i);
      kernel.segments := Constructed(kernel.segments, number);
      return Ok(Attached(i, SizeOf(storage[i]), number, false));
    }
  }

  /** A Buffer object; one that is default-constructed refers to nothing. */
  class Buffer {
    var at: Option<Attached>

    constructor ()
      ensures at == None
    {
      at := None;
    }

    /** What getBuffer returns. */
    constructor Of(attached: Attached)
      ensures at == Some(attached)
    {
      at := Some(attached);
    }

    /** Copy and move construction do the same: the source stays alive and is counted on its own. */
    constructor CopyOf(o: Buffer, m: Manager)
      requires o.at.Some? && 0 <= o.at.value.desc < m.storage.Length
      modifies m.storage
      ensures at == o.at && m.Now() == Increment(old(m.Now()), o.at.value.desc)
    {
      at := o.at;
      new;
      m.RefCountInc(at.value.desc);
    }

    /** operator=: frees first, then takes over what o refers to, and counts. The mutex is free in between;
        this is what happens when nobody takes it there (BufferRuns has the two parts as separate steps).
        locked says whether the second lock() succeeds: when a signal interrupts it, the fields are taken over
        already, and are not counted. */
    method Assign(o: Buffer, m: Manager, locked: bool) returns (r: Result<()>)
      requires o.at.Some? && 0 <= o.at.value.desc < m.storage.Length
      requires Shaped(m.Now()) && (at.Some? ==> 0 <= at.value.desc < m.storage.Length)
      modifies this, m, m.storage, m.control, m.kernel
      ensures at == old(o.at) && r == if locked then Ok(()) else Throw(Interrupted)
      ensures var freed := if old(at).Some? then Free(m.code, old(m.Now()), old(at).value.desc) else old(m.Now());
              m.Now() == if locked then Increment(freed, old(o.at).value.desc) else freed
    {
      hide Free;
      if at.Some? {
        m.BufferFree(at.value.desc);
      }
      at := o.at;
      if !locked {
        return Throw(Interrupted);
      }
      m.RefCountInc(at.value.desc);
      return Ok(());
    }

    method Destroy(m: Manager)
      requires at.Some? && 0 <= at.value.desc < m.storage.Length && Shaped(m.Now())
      modifies m, m.storage, m.control, m.kernel
      ensures m.Now() == Free(m.code, old(m.Now()), at.value.desc)
    {
      m.BufferFree(at.value.desc);
    }
  }
}
