/** Create-or-attach through a key file: FileMutex::initUsingFile (src/IPC_FileMutex.cpp) and
    BufferManager::init (src/IPC_BufferManager.cpp). Any number of processes, one initialising
    thread each, interleave freely; any of them may crash between any two steps. The kernel then
    drops its file lock, but not the mutex in the segment, which is a word of shared memory. */
module KeyFile {
  import FutexMutex

  /** The two users of the protocol differ in how many stores make a new segment ready
      (the mutex word; or mutex word, control block, descriptor chain), in what counts as a
      file with a key, and in whether an attacher registers itself in the segment. */
  datatype Protocol = FileMutexInit | ManagerInit

  function Stages(p: Protocol): nat
    ensures Stages(p) > 0
  {
    if p.FileMutexInit? then 1 else 3
  }

  /** What read() finds: nothing, a whole key, or some other number of bytes. */
  datatype Contents = Empty | Key(key: int) | Junk(partial: int)

  /** stage counts the initialising stores made so far, registered the processes that counted themselves in;
      word is the segment's mutex. */
  datatype Segment = Segment(stage: nat, creator: nat, registered: set<nat>, word: int)

  /** What the segment's mutex is taken for: by an attacher to count itself in, still under the file lock,
      or by a process that has finished, in any later call. */
  datatype Use = Registration | Call

  datatype Pc =
    | Outside                  // before init
    | Opened                   // the file is open, waiting for its lock
    | Locked                   // holds the file lock, about to read
    | Creating                 // read 0 bytes, about to create a segment
    | Filling(key: int, stage: nat) // created the segment, has made that many initialising stores
    | Writing(key: int)        // about to write the key
    | Attaching(key: int)      // read a key, about to attach
    | Trying(key: int, use: Use)   // inside lock() of the segment's mutex
    | Sleeping(key: int, use: Use) // asleep in FUTEX_WAIT
    | Holding(key: int, use: Use)  // holds the segment's mutex
    | Working(key: int, use: Use)  // has counted itself in, or done its call, and still holds the mutex
    | Waking(key: int, use: Use)   // inside unlock(), the word is free, FUTEX_WAKE is still to come
    | Unlocking(key: int)      // initialised, about to drop the file lock
    | Done(key: int)
    | Gone(last: Pc)           // crashed, or left by an exception, at that point

  /** calls is the number of calls the processes may still start once they have finished. */
  datatype State = State(file: Contents, lock: set<nat>, segments: map<int, Segment>, procs: seq<Pc>, writes: nat,
                         calls: nat)

  datatype Action =
    | Open(p: nat)
    | Lock(p: nat)
    | Read(p: nat)
    | Create(p: nat, key: int)    // shmget with IPC_CREAT|IPC_EXCL, and shmat
    | Store(p: nat)               // one initialising store
    | Write(p: nat)
    | Attach(p: nat)              // shmget without flags, and shmat
    | Enter(p: nat)               // a finished process starts a call
    | Take(p: nat)                // lock() of the segment's mutex: the compare-and-swap succeeds
    | Sleep(p: nat)               // or fails, and FUTEX_WAIT puts the process to sleep
    | Work(p: nat)                // ++ref_count, or the body of the call
    | Release(p: nat)             // unlock()'s compare-and-swap
    | Wake(p: nat, z: nat)        // FUTEX_WAKE, process z is woken
    | WakeNone(p: nat)            // FUTEX_WAKE, nobody sleeps
    | Interrupt(p: nat)           // FUTEX_WAIT fails with EINTR: lock() throws
    | Unlock(p: nat)
    | Crash(p: nat)

  predicate Alive(pc: Pc) { !pc.Gone? }

  /** Where a process is, or was when it died. */
  function Last(pc: Pc): Pc {
    if pc.Gone? then pc.last else pc
  }

  predicate InMutex(pc: Pc) {
    pc.Trying? || pc.Sleeping? || pc.Holding? || pc.Working? || pc.Waking?
  }

  /** init has returned, whatever call the process is in now. */
  predicate Finished(pc: Pc) {
    pc.Done? || (InMutex(pc) && pc.use.Call?)
  }

  /** The steps between acquiring and dropping the file lock. */
  predicate Inside(pc: Pc) {
    !(pc.Outside? || pc.Opened? || pc.Gone? || Finished(pc))
  }

  ghost predicate SleepsAt(s: State, z: nat, key: int) {
    z < |s.procs| && s.procs[z].Sleeping? && s.procs[z].key == key
  }

  ghost predicate Enabled(s: State, a: Action) {
    && a.p < |s.procs|
    && var pc := s.procs[a.p];
       && (InMutex(pc) ==> pc.key in s.segments)
       && match a
          case Open(_) => pc.Outside?
          case Lock(_) => pc.Opened? && s.lock == {}
          case Read(_) => pc.Locked?
          // allocShmKey and getRandom draw a positive key
          case Create(_, key) => pc.Creating? && key > 0
          case Store(_) => pc.Filling?
          case Write(_) => pc.Writing?
          case Attach(_) => pc.Attaching?
          case Enter(_) => pc.Done? && s.calls > 0
          case Take(_) => pc.Trying? && s.segments[pc.key].word == FutexMutex.UNLOCKED
          case Sleep(_) => pc.Trying? && s.segments[pc.key].word != FutexMutex.UNLOCKED
          case Work(_) => pc.Holding?
          case Release(_) => pc.Working?
          case Wake(_, z) => pc.Waking? && SleepsAt(s, z, pc.key)
          case WakeNone(_) => pc.Waking? && forall z: nat :: !SleepsAt(s, z, pc.key)
          case Interrupt(_) => pc.Sleeping?
          case Unlock(_) => pc.Unlocking?
          case Crash(_) => Alive(pc)
  }

  function Goto(s: State, p: nat, pc: Pc): State
    requires p < |s.procs|
  {
    s.(procs := s.procs[p := pc])
  }

  /** A process that dies or throws gives its file lock back. */
  function Leave(s: State, p: nat): State
    requires p < |s.procs|
  {
    Goto(s, p, Gone(s.procs[p])).(lock := s.lock - {p})
  }

  function AfterRead(proto: Protocol, file: Contents): Pc {
    match file
    case Empty => Creating
    // initPointers takes key 0 for a request to create
    case Key(k) => if proto.ManagerInit? && k == 0 then Creating else Attaching(k)
    // FileMutex uses whatever it read, BufferManager throws
    case Junk(k) => if proto.ManagerInit? then Gone(Locked) else Attaching(k)
  }

  /** What the stores of the creator have made of the segment: the mutex word first, then the control block,
      which counts the creator, then the descriptors. */
  function Stored(proto: Protocol, seg: Segment, p: nat): Segment {
    var stage := seg.stage + 1;
    Segment(stage, seg.creator, if proto.ManagerInit? && stage == 2 then {p} else seg.registered,
            if stage == 1 then FutexMutex.Construct(seg.word, true) else seg.word)
  }

  function AfterUse(key: int, use: Use): Pc {
    if use.Registration? then Unlocking(key) else Done(key)
  }

  function SetWord(s: State, key: int, word: int): State
    requires key in s.segments
  {
    s.(segments := s.segments[key := s.segments[key].(word := word)])
  }

  ghost function Apply(proto: Protocol, s: State, a: Action): State
    requires Enabled(s, a)
  {
    var p := a.p;
    var pc := s.procs[p];
    match a
    case Open(_) => Goto(s, p, Opened)
    case Lock(_) => Goto(s, p, Locked).(lock := {p})
    case Read(_) =>
      var next := AfterRead(proto, s.file);
      if next.Gone? then Leave(s, p) else Goto(s, p, next)
    case Create(_, key) =>
      if key in s.segments then Leave(s, p)  // EEXIST: shmget failed
      else Goto(s, p, Filling(key, 0)).(segments := s.segments[key := Segment(0, p, {}, 0)])
    case Store(_) =>
      if pc.key !in s.segments then Leave(s, p) else
      var stage := pc.stage + 1;
      Goto(s, p, if stage >= Stages(proto) then Writing(pc.key) else Filling(pc.key, stage))
        .(segments := s.segments[pc.key := Stored(proto, s.segments[pc.key].(stage := pc.stage), p)])
    case Write(_) =>
      Goto(s, p, Unlocking(pc.key)).(file := Key(pc.key), writes := s.writes + 1)
    case Attach(_) =>
      if pc.key !in s.segments then Leave(s, p)  // ENOENT: shmget failed
      else Goto(s, p, if proto.ManagerInit? then Trying(pc.key, Registration) else Unlocking(pc.key))
    case Enter(_) => Goto(s, p, Trying(pc.key, Call)).(calls := s.calls - 1)
    case Take(_) => SetWord(Goto(s, p, Holding(pc.key, pc.use)), pc.key, FutexMutex.LOCKED)
    case Sleep(_) => Goto(s, p, Sleeping(pc.key, pc.use))
    case Work(_) =>
      var seg := s.segments[pc.key];
      var registered := if pc.use.Registration? then seg.registered + {p} else seg.registered;
      Goto(s, p, Working(pc.key, pc.use)).(segments := s.segments[pc.key := seg.(registered := registered)])
    case Release(_) => SetWord(Goto(s, p, Waking(pc.key, pc.use)), pc.key, FutexMutex.UNLOCKED)
    case Wake(_, z) =>
      Goto(Goto(s, p, AfterUse(pc.key, pc.use)), z, Trying(s.procs[z].key, s.procs[z].use))
    case WakeNone(_) => Goto(s, p, AfterUse(pc.key, pc.use))
    case Interrupt(_) => if pc.use.Registration? then Leave(s, p) else Goto(s, p, Done(pc.key))
    case Unlock(_) => Goto(s, p, Done(pc.key)).(lock := s.lock - {p})
    case Crash(_) => Leave(s, p)
  }

  // ---------------------------------------------------------------- invariant

  ghost predicate Ready(proto: Protocol, s: State, key: int) {
    key > 0 && key in s.segments && s.segments[key].stage == Stages(proto)
  }

  ghost predicate Counted(proto: Protocol, s: State, p: nat, key: int) {
    proto.ManagerInit? ==> key in s.segments && p in s.segments[key].registered
  }

  /** What a process at a given step knows about the shared state. */
  ghost predicate Knows(proto: Protocol, s: State, p: nat, pc: Pc) {
    match pc
    case Creating => s.file == Empty
    case Filling(k, stage) =>
      && s.file == Empty && k > 0 && k in s.segments && stage < Stages(proto)
      && s.segments[k] == Segment(stage, p, if proto.ManagerInit? && stage >= 2 then {p} else {},
                                  if stage > 0 then FutexMutex.UNLOCKED else 0)
    case Writing(k) =>
      && s.file == Empty && Ready(proto, s, k)
      && s.segments[k] == Segment(Stages(proto), p, if proto.ManagerInit? then {p} else {}, FutexMutex.UNLOCKED)
    case Attaching(k) => s.file == Key(k)
    case Trying(k, u) => s.file == Key(k) && if u.Call? then Counted(proto, s, p, k) else proto.ManagerInit?
    case Sleeping(k, u) => s.file == Key(k) && if u.Call? then Counted(proto, s, p, k) else proto.ManagerInit?
    case Holding(k, u) => s.file == Key(k) && if u.Call? then Counted(proto, s, p, k) else proto.ManagerInit?
    case Working(k, u) => s.file == Key(k) && Counted(proto, s, p, k)
    case Waking(k, u) => s.file == Key(k) && Counted(proto, s, p, k)
    case Unlocking(k) => s.file == Key(k) && Counted(proto, s, p, k)
    case Done(k) => s.file == Key(k) && Counted(proto, s, p, k)
    case Gone(last) => Alive(last) && (InMutex(last) ==> s.file == Key(last.key))
    case _ => true
  }

  predicate HoldsMutex(pc: Pc) {
    Last(pc).Holding? || Last(pc).Working?
  }

  /** On the way to compare-and-swap or to FUTEX_WAKE, or dead on that way. */
  predicate OwesWake(pc: Pc) {
    Last(pc).Trying? || Last(pc).Waking?
  }

  /** The word of the segment in use is LOCKED exactly while its one holder, alive or dead, has not released it;
      whoever sleeps at a free word sleeps because somebody, alive or dead, still owes a wake-up. */
  ghost predicate MutexOk(s: State) {
    && (forall p, q :: 0 <= p < |s.procs| && 0 <= q < |s.procs| && HoldsMutex(s.procs[p]) && HoldsMutex(s.procs[q]) ==>
          p == q)
    && (s.file.Key? && s.file.key in s.segments ==>
          var word := s.segments[s.file.key].word;
          && (word == FutexMutex.LOCKED || word == FutexMutex.UNLOCKED)
          && (word == FutexMutex.LOCKED <==> exists p :: 0 <= p < |s.procs| && HoldsMutex(s.procs[p]))
          && (word == FutexMutex.UNLOCKED && (exists z :: 0 <= z < |s.procs| && s.procs[z].Sleeping?) ==>
                exists p :: 0 <= p < |s.procs| && OwesWake(s.procs[p])))
  }

  ghost predicate LockOk(s: State) {
    && (forall p: nat :: p < |s.procs| ==> (Inside(s.procs[p]) <==> p in s.lock))
    && (forall p: nat, q: nat :: p in s.lock && q in s.lock ==> p == q)
    && (forall p: nat :: p in s.lock ==> p < |s.procs|)
  }

  ghost predicate FileOk(proto: Protocol, s: State) {
    && !s.file.Junk?
    && (s.file.Key? ==> Ready(proto, s, s.file.key))
    && s.writes == (if s.file.Key? then 1 else 0)
  }

  ghost predicate AllKnow(proto: Protocol, s: State) {
    forall p: nat :: p < |s.procs| ==> Knows(proto, s, p, s.procs[p])
  }

  ghost predicate Inv(proto: Protocol, s: State) {
    FileOk(proto, s) && LockOk(s) && AllKnow(proto, s) && MutexOk(s)
  }

  ghost predicate Start(s: State, segments: map<int, Segment>, n: nat, calls: nat) {
    s == State(Empty, {}, segments, seq(n, _ => Outside), 0, calls)
  }

  /** A process keeps what it knows when the shared state it relies on is unchanged. */
  lemma OthersKeep(proto: Protocol, s: State, s': State, p: nat)
    requires Inv(proto, s) && p < |s.procs| == |s'.procs|
    requires s'.file == s.file || (p in s.lock && s.file == Empty)
    requires s'.segments == s.segments || p in s.lock || s.file != Empty
    requires forall k :: k in s.segments && s.file == Key(k) ==>
                           k in s'.segments && s.segments[k].registered <= s'.segments[k].registered
    ensures forall q: nat :: q < |s.procs| && q != p ==> Knows(proto, s', q, s.procs[q])
  {
  }

  lemma FileKept(proto: Protocol, s: State, a: Action)
    requires Inv(proto, s) && Enabled(s, a)
    ensures FileOk(proto, Apply(proto, s, a))
  {
    assert Knows(proto, s, a.p, s.procs[a.p]);
  }

  /** The processes a step does not move stay where they are. */
  lemma ProcsIs(proto: Protocol, s: State, a: Action)
    requires Enabled(s, a)
    ensures var s' := Apply(proto, s, a);
            && a.p < |s.procs| == |s'.procs|
            && (forall q :: 0 <= q < |s.procs| && q != a.p && !(a.Wake? && q == a.z) ==> s'.procs[q] == s.procs[q])
            && (a.Wake? ==>
                  && a.z < |s.procs| && a.z != a.p && s.procs[a.z].Sleeping?
                  && s'.procs[a.z] == Trying(s.procs[a.z].key, s.procs[a.z].use))
  {
  }

  /** What a step does to the file lock: at most its own process enters or leaves the locked part. */
  ghost predicate MovesLock(s: State, a: Action, s': State) {
    && a.p < |s.procs| == |s'.procs|
    && if a.Lock? then s.lock == {} && s'.lock == {a.p} && Inside(s'.procs[a.p])
       else if Inside(s'.procs[a.p]) then Inside(s.procs[a.p]) && s'.lock == s.lock
       else s'.lock == s.lock - {a.p} || (!Inside(s.procs[a.p]) && s'.lock == s.lock)
  }

  lemma LockInMutex(proto: Protocol, s: State, a: Action)
    requires Enabled(s, a) && InMutex(s.procs[a.p])
    ensures MovesLock(s, a, Apply(proto, s, a))
  {
    hide Stored;
  }

  lemma LockElsewhere(proto: Protocol, s: State, a: Action)
    requires Enabled(s, a) && !InMutex(s.procs[a.p])
    ensures MovesLock(s, a, Apply(proto, s, a))
  {
    hide Stored;
  }

  lemma LockKept(proto: Protocol, s: State, a: Action)
    requires LockOk(s) && Enabled(s, a)
    ensures LockOk(Apply(proto, s, a))
  {
    hide Apply, Enabled;
    ProcsIs(proto, s, a);
    if InMutex(s.procs[a.p]) { LockInMutex(proto, s, a); } else { LockElsewhere(proto, s, a); }
    var s' := Apply(proto, s, a);
    assert forall q :: 0 <= q < |s.procs| && q != a.p ==> (Inside(s'.procs[q]) <==> Inside(s.procs[q]));
    hide Inside;
  }

  /** What a step does to the file and the segments. */
  lemma SharedIs(proto: Protocol, s: State, a: Action)
    requires Inv(proto, s) && Enabled(s, a)
    ensures var s' := Apply(proto, s, a);
            && (s'.file == s.file || (a.p in s.lock && s.file == Empty))
            && (s'.segments == s.segments || a.p in s.lock || s.file != Empty)
            && (forall k :: k in s.segments && s.file == Key(k) ==>
                  k in s'.segments && s.segments[k].registered <= s'.segments[k].registered)
  {
    assert Knows(proto, s, a.p, s.procs[a.p]);
    hide MutexOk, AllKnow;
  }

  /** The process that moves knows what belongs to its next step. */
  lemma KnowsInMutex(proto: Protocol, s: State, a: Action)
    requires Enabled(s, a) && FileOk(proto, s) && Knows(proto, s, a.p, s.procs[a.p]) && InMutex(s.procs[a.p])
    ensures var s' := Apply(proto, s, a);
            |s'.procs| == |s.procs| && Knows(proto, s', a.p, s'.procs[a.p])
  {
  }

  lemma KnowsElsewhere(proto: Protocol, s: State, a: Action)
    requires Enabled(s, a) && FileOk(proto, s) && Knows(proto, s, a.p, s.procs[a.p]) && !InMutex(s.procs[a.p])
    ensures var s' := Apply(proto, s, a);
            |s'.procs| == |s.procs| && Knows(proto, s', a.p, s'.procs[a.p])
  {
  }

  lemma KnowledgeKept(proto: Protocol, s: State, a: Action)
    requires Inv(proto, s) && Enabled(s, a)
    ensures AllKnow(proto, Apply(proto, s, a))
  {
    hide MutexOk, LockOk, FileOk, Apply, Enabled, Knows;
    var s' := Apply(proto, s, a);
    ProcsIs(proto, s, a);
    SharedIs(proto, s, a);
    OthersKeep(proto, s, s', a.p);
    if InMutex(s.procs[a.p]) { KnowsInMutex(proto, s, a); } else { KnowsElsewhere(proto, s, a); }
    if a.Wake? { SleeperWoken(proto, s', a.z, s.procs[a.z]); }
  }

  lemma SleeperWoken(proto: Protocol, s: State, z: nat, pc: Pc)
    requires pc.Sleeping? && Knows(proto, s, z, pc)
    ensures Knows(proto, s, z, Trying(pc.key, pc.use))
  {
  }

  // ------------------------------------------------------------- the segment's mutex

  /** The word, and who holds it or owes a wake-up, stay; nobody falls asleep. */
  lemma MutexQuiet(s: State, s': State)
    requires MutexOk(s) && s'.file == s.file && |s'.procs| == |s.procs|
    requires s.file.Key? ==> s.file.key in s.segments && s.file.key in s'.segments &&
                             s'.segments[s.file.key].word == s.segments[s.file.key].word
    requires forall q :: 0 <= q < |s.procs| ==>
               && (HoldsMutex(s'.procs[q]) <==> HoldsMutex(s.procs[q]))
               && (s'.procs[q].Sleeping? ==> s.procs[q].Sleeping?)
               && (OwesWake(s.procs[q]) ==> OwesWake(s'.procs[q]))
    ensures MutexOk(s')
  {
    hide HoldsMutex, OwesWake;
  }

  /** Steps outside lock() and unlock(), and deaths. */
  predicate IsQuiet(a: Action) {
    !(a.Write? || a.Take? || a.Sleep? || a.Release? || a.Wake? || a.WakeNone?)
  }

  lemma QuietKept(proto: Protocol, s: State, a: Action)
    requires Inv(proto, s) && Enabled(s, a) && IsQuiet(a)
    ensures MutexOk(Apply(proto, s, a))
  {
    hide MutexOk, LockOk;
    var s' := Apply(proto, s, a);
    QuietMover(proto, s, a);
    ProcsIs(proto, s, a);
    assert s'.file == s.file;
    assert s.file.Key? ==> s.file.key in s.segments && s.file.key in s'.segments;
    hide Apply, Enabled, HoldsMutex, OwesWake;
    MutexQuiet(s, s');
  }

  lemma QuietMover(proto: Protocol, s: State, a: Action)
    requires Inv(proto, s) && Enabled(s, a) && IsQuiet(a)
    ensures var s' := Apply(proto, s, a);
            && |s'.procs| == |s.procs|
            && (HoldsMutex(s'.procs[a.p]) <==> HoldsMutex(s.procs[a.p]))
            && (s'.procs[a.p].Sleeping? ==> s.procs[a.p].Sleeping?)
            && (OwesWake(s.procs[a.p]) ==> OwesWake(s'.procs[a.p]))
            && s'.file == s.file
            && (s.file.Key? ==> s.file.key in s.segments && s.file.key in s'.segments &&
                                s'.segments[s.file.key].word == s.segments[s.file.key].word)
  {
    hide MutexOk, LockOk;
    assert Knows(proto, s, a.p, s.procs[a.p]);
    hide AllKnow;
  }

  /** When the key is written, nobody can have tried the mutex, and its word is free. */
  lemma WriteKept(proto: Protocol, s: State, a: Action)
    requires Inv(proto, s) && Enabled(s, a) && a.Write?
    ensures MutexOk(Apply(proto, s, a))
  {
    hide MutexOk, LockOk;
    assert Knows(proto, s, a.p, s.procs[a.p]);
    var s' := Apply(proto, s, a);
    forall q | 0 <= q < |s.procs| ensures !HoldsMutex(s'.procs[q]) && !s'.procs[q].Sleeping? {
      assert Knows(proto, s, q, s.procs[q]);
    }
    hide HoldsMutex;
    FreeWord(s');
  }

  lemma FreeWord(s: State)
    requires s.file.Key? && s.file.key in s.segments && s.segments[s.file.key].word == FutexMutex.UNLOCKED
    requires forall q :: 0 <= q < |s.procs| ==> !HoldsMutex(s.procs[q]) && !s.procs[q].Sleeping?
    ensures MutexOk(s)
  {
    hide HoldsMutex;
  }

  /** Inside lock() and unlock() everybody is at the segment the file names. */
  lemma AtTheKey(proto: Protocol, s: State, q: nat)
    requires Inv(proto, s) && q < |s.procs| && InMutex(s.procs[q])
    ensures s.file == Key(s.procs[q].key) && s.procs[q].key in s.segments
  {
    assert Knows(proto, s, q, s.procs[q]);
    hide MutexOk, LockOk;
  }

  lemma TakeKept(proto: Protocol, s: State, a: Action)
    requires Inv(proto, s) && Enabled(s, a) && a.Take?
    ensures MutexOk(Apply(proto, s, a))
  {
    AtTheKey(proto, s, a.p);
    hide LockOk, AllKnow, FileOk;
    assert HoldsMutex(Apply(proto, s, a).procs[a.p]);
  }

  lemma SleepKept(proto: Protocol, s: State, a: Action)
    requires Inv(proto, s) && Enabled(s, a) && a.Sleep?
    ensures MutexOk(Apply(proto, s, a))
  {
    AtTheKey(proto, s, a.p);
    hide LockOk, AllKnow, FileOk;
    var p :| 0 <= p < |s.procs| && HoldsMutex(s.procs[p]);
    assert HoldsMutex(Apply(proto, s, a).procs[p]);
  }

  lemma ReleaseKept(proto: Protocol, s: State, a: Action)
    requires Inv(proto, s) && Enabled(s, a) && a.Release?
    ensures MutexOk(Apply(proto, s, a))
  {
    AtTheKey(proto, s, a.p);
    hide LockOk, AllKnow, FileOk;
    assert HoldsMutex(s.procs[a.p]);
    assert OwesWake(Apply(proto, s, a).procs[a.p]);
  }

  lemma WakeKept(proto: Protocol, s: State, a: Action)
    requires Inv(proto, s) && Enabled(s, a) && a.Wake?
    ensures MutexOk(Apply(proto, s, a))
  {
    AtTheKey(proto, s, a.p);
    hide LockOk, AllKnow, FileOk;
    var s' := Apply(proto, s, a);
    assert OwesWake(s'.procs[a.z]);
    assert forall q :: 0 <= q < |s.procs| ==> (HoldsMutex(s'.procs[q]) <==> HoldsMutex(s.procs[q]));
    hide HoldsMutex, OwesWake;
  }

  lemma WakeNoneKept(proto: Protocol, s: State, a: Action)
    requires Inv(proto, s) && Enabled(s, a) && a.WakeNone?
    ensures MutexOk(Apply(proto, s, a))
  {
    AtTheKey(proto, s, a.p);
    var s' := Apply(proto, s, a);
    forall z | 0 <= z < |s.procs| ensures !s'.procs[z].Sleeping? {
      assert !SleepsAt(s, z, s.procs[a.p].key);
      if s.procs[z].Sleeping? { AtTheKey(proto, s, z); }
    }
    hide LockOk, AllKnow, FileOk;
    assert forall q :: 0 <= q < |s.procs| ==> (HoldsMutex(s'.procs[q]) <==> HoldsMutex(s.procs[q]));
    hide HoldsMutex, OwesWake;
  }

  lemma StepKeepsInv(proto: Protocol, s: State, a: Action)
    requires Inv(proto, s) && Enabled(s, a)
    ensures Inv(proto, Apply(proto, s, a))
  {
    hide Enabled, Apply, FileOk, LockOk, AllKnow, MutexOk;
    FileKept(proto, s, a);
    LockKept(proto, s, a);
    KnowledgeKept(proto, s, a);
    match a {
      case Write(_) => WriteKept(proto, s, a);
      case Take(_) => TakeKept(proto, s, a);
      case Sleep(_) => SleepKept(proto, s, a);
      case Release(_) => ReleaseKept(proto, s, a);
      case Wake(_, _) => WakeKept(proto, s, a);
      case WakeNone(_) => WakeNoneKept(proto, s, a);
      case _ => QuietKept(proto, s, a);
    }
  }

  // --------------------------------------------------------------- whole runs

  ghost predicate IsRun(proto: Protocol, s: State, run: seq<Action>)
    decreases |run|
  {
    run == [] || (Enabled(s, run[0]) && IsRun(proto, Apply(proto, s, run[0]), run[1..]))
  }

  ghost function Final(proto: Protocol, s: State, run: seq<Action>): (r: State)
    requires IsRun(proto, s, run)
    ensures |r.procs| == |s.procs|
    decreases |run|
  {
    if run == [] then s else Final(proto, Apply(proto, s, run[0]), run[1..])
  }

  /** Once written, the key stays, and the segment it names stays as the creator left it
      except for its mutex, and for processes that count themselves in. */
  ghost predicate Extends(proto: Protocol, s: State, s': State) {
    s.file.Key? ==>
      && s'.file == s.file
      && Ready(proto, s, s.file.key) && Ready(proto, s', s.file.key)
      && s'.segments[s.file.key].creator == s.segments[s.file.key].creator
      && s.segments[s.file.key].registered <= s'.segments[s.file.key].registered
  }

  lemma StepExtends(proto: Protocol, s: State, a: Action)
    requires Inv(proto, s) && Enabled(s, a)
    ensures Extends(proto, s, Apply(proto, s, a))
  {
    hide MutexOk, LockOk;
    assert Knows(proto, s, a.p, s.procs[a.p]);
    hide AllKnow;
  }

  lemma {:induction false} RunKeepsInv(proto: Protocol, s: State, run: seq<Action>)
    requires Inv(proto, s) && IsRun(proto, s, run)
    ensures Inv(proto, Final(proto, s, run)) && Extends(proto, s, Final(proto, s, run))
    decreases |run|
  {
    hide Enabled, Apply, FileOk, LockOk, AllKnow, MutexOk;
    if run != [] {
      StepKeepsInv(proto, s, run[0]);
      StepExtends(proto, s, run[0]);
      RunKeepsInv(proto, Apply(proto, s, run[0]), run[1..]);
    } else {
      assert s.file.Key? ==> Ready(proto, s, s.file.key) by { KeyReady(proto, s); }
    }
  }

  lemma KeyReady(proto: Protocol, s: State)
    requires Inv(proto, s)
    ensures s.file.Key? ==> Ready(proto, s, s.file.key)
  {
  }

  /** A process leaves without a segment exactly when it crashes, when the key it drew was taken, or when a
      signal interrupts its wait for the mutex: attaching never fails, because whoever attaches finds a
      key whose segment exists and has had every one of its initialising stores. */
  lemma LeavesIff(proto: Protocol, s: State, a: Action)
    requires Inv(proto, s) && Enabled(s, a)
    ensures Apply(proto, s, a).procs[a.p].Gone? <==>
              || a.Crash?
              || (a.Create? && a.key in s.segments)
              || (a.Interrupt? && s.procs[a.p].use.Registration?)
    ensures a.Attach? || a.Take? || a.Work? ==> Ready(proto, s, s.procs[a.p].key)
  {
    hide MutexOk, LockOk;
    assert Knows(proto, s, a.p, s.procs[a.p]);
    hide AllKnow;
  }

  // -------------------------------------------------------------- termination

  function Rank(proto: Protocol, pc: Pc): nat {
    match pc
    case Outside => 11 case Opened => 10 case Locked => 9 case Creating => 7
    case Filling(_, stage) => if stage < Stages(proto) then 3 + Stages(proto) - stage else 3
    case Writing(_) => 3
    case Attaching(_) => 8
    case Trying(_, u) => 6 + Later(u) case Sleeping(_, u) => 5 + Later(u) case Holding(_, u) => 5 + Later(u)
    case Working(_, u) => 4 + Later(u) case Waking(_, u) => 3 + Later(u)
    case Unlocking(_) => 2 case Done(_) => 1 case Gone(_) => 0
  }

  /** What is still to come after unlock(). */
  function Later(use: Use): nat {
    if use.Registration? then 1 else 0
  }

  const CALL := 6

  function TotalRank(proto: Protocol, pcs: seq<Pc>): nat {
    if pcs == [] then 0 else Rank(proto, pcs[0]) + TotalRank(proto, pcs[1..])
  }

  function Measure(proto: Protocol, s: State): nat {
    TotalRank(proto, s.procs) + CALL * s.calls
  }

  lemma {:induction false} UpdateTotal(proto: Protocol, pcs: seq<Pc>, p: nat, pc: Pc)
    requires p < |pcs|
    ensures TotalRank(proto, pcs[p := pc]) == TotalRank(proto, pcs) - Rank(proto, pcs[p]) + Rank(proto, pc)
  {
    if p == 0 {
      assert pcs[p := pc][1..] == pcs[1..];
    } else {
      assert pcs[p := pc][1..] == pcs[1..][p - 1 := pc];
      UpdateTotal(proto, pcs[1..], p - 1, pc);
    }
  }

  /** The process that moves comes down in rank, by two if it wakes another, and up only to start a call. */
  ghost predicate Descends(proto: Protocol, s: State, a: Action, s': State) {
    && a.p < |s.procs| == |s'.procs|
    && Rank(proto, s'.procs[a.p]) + (if a.Wake? then 2 else 1) <=
         Rank(proto, s.procs[a.p]) + (if a.Enter? then CALL else 0)
    && s'.calls == s.calls - if a.Enter? then 1 else 0
  }

  lemma DescendsInMutex(proto: Protocol, s: State, a: Action)
    requires Enabled(s, a) && InMutex(s.procs[a.p])
    ensures Descends(proto, s, a, Apply(proto, s, a))
  {
    hide Stored;
  }

  lemma DescendsElsewhere(proto: Protocol, s: State, a: Action)
    requires Enabled(s, a) && Knows(proto, s, a.p, s.procs[a.p]) && !InMutex(s.procs[a.p])
    ensures Descends(proto, s, a, Apply(proto, s, a))
  {
    hide Stored;
  }

  lemma StepDecreases(proto: Protocol, s: State, a: Action)
    requires Inv(proto, s) && Enabled(s, a)
    ensures Measure(proto, Apply(proto, s, a)) < Measure(proto, s)
  {
    hide Apply, Enabled, Rank, TotalRank, MutexOk, LockOk, FileOk, Knows, InMutex;
    var s' := Apply(proto, s, a);
    ProcsIs(proto, s, a);
    if InMutex(s.procs[a.p]) { DescendsInMutex(proto, s, a); } else { DescendsElsewhere(proto, s, a); }
    if a.Wake? {
      TwoMove(proto, s.procs, s'.procs, a.p, a.z);
      WokenRank(proto, s.procs[a.z]);
    } else {
      OneMoves(proto, s.procs, s'.procs, a.p);
    }
  }

  lemma OneMoves(proto: Protocol, pcs: seq<Pc>, pcs': seq<Pc>, p: nat)
    requires p < |pcs| == |pcs'| && forall q :: 0 <= q < |pcs| && q != p ==> pcs'[q] == pcs[q]
    ensures TotalRank(proto, pcs') == TotalRank(proto, pcs) - Rank(proto, pcs[p]) + Rank(proto, pcs'[p])
  {
    hide Rank, TotalRank;
    assert pcs' == pcs[p := pcs'[p]];
    UpdateTotal(proto, pcs, p, pcs'[p]);
  }

  lemma TwoMove(proto: Protocol, pcs: seq<Pc>, pcs': seq<Pc>, p: nat, z: nat)
    requires p < |pcs| == |pcs'| && z < |pcs| && p != z
    requires forall q :: 0 <= q < |pcs| && q != p && q != z ==> pcs'[q] == pcs[q]
    ensures TotalRank(proto, pcs') == TotalRank(proto, pcs) - Rank(proto, pcs[p]) + Rank(proto, pcs'[p])
                                                            - Rank(proto, pcs[z]) + Rank(proto, pcs'[z])
  {
    hide Rank, TotalRank;
    var mid := pcs[p := pcs'[p]];
    OneMoves(proto, pcs, mid, p);
    OneMoves(proto, mid, pcs', z);
  }

  lemma WokenRank(proto: Protocol, pc: Pc)
    requires pc.Sleeping?
    ensures Rank(proto, Trying(pc.key, pc.use)) == Rank(proto, pc) + 1
  {
  }

  lemma {:induction false} RunLength(proto: Protocol, s: State, run: seq<Action>)
    requires Inv(proto, s) && IsRun(proto, s, run)
    ensures |run| + Measure(proto, Final(proto, s, run)) <= Measure(proto, s)
    decreases |run|
  {
    hide Enabled, Apply, Inv, Measure;
    if run != [] {
      StepDecreases(proto, s, run[0]);
      StepKeepsInv(proto, s, run[0]);
      RunLength(proto, Apply(proto, s, run[0]), run[1..]);
    }
  }

  lemma {:induction false} StartTotal(proto: Protocol, pcs: seq<Pc>)
    requires forall p :: 0 <= p < |pcs| ==> pcs[p] == Outside
    ensures TotalRank(proto, pcs) == 11 * |pcs|
  {
    if pcs != [] { StartTotal(proto, pcs[1..]); }
  }

  // ---------------------------------------------------------- where a run can stop

  /** Nothing more happens by itself: there could only be crashes, interrupts and new calls. */
  ghost predicate Stopped(s: State) {
    forall a: Action :: Enabled(s, a) ==> a.Crash? || a.Interrupt? || a.Enter?
  }

  predicate Settled(s: State) {
    forall p :: 0 <= p < |s.procs| ==> Finished(s.procs[p]) || s.procs[p].Gone?
  }

  /** An attacher sleeps on the segment's mutex, and so keeps the file lock. */
  predicate AttacherSleeps(s: State) {
    exists p :: 0 <= p < |s.procs| && s.procs[p].Sleeping? && s.procs[p].use.Registration?
  }

  /** Some process has died with the segment's mutex, or on its way to it, or before its FUTEX_WAKE. */
  predicate DiedInMutex(s: State) {
    exists p :: 0 <= p < |s.procs| && s.procs[p].Gone? && (HoldsMutex(s.procs[p]) || OwesWake(s.procs[p]))
  }

  /** The step by which a process that is still inside the locked part goes on, unless it is asleep. */
  lemma InsideGoesOn(proto: Protocol, s: State, p: nat)
    requires Inv(proto, s) && p < |s.procs| && Inside(s.procs[p]) && Stopped(s)
    ensures s.procs[p].Sleeping? && s.procs[p].use.Registration? && proto.ManagerInit?
  {
    hide MutexOk, LockOk;
    assert Knows(proto, s, p, s.procs[p]);
    if InMutex(s.procs[p]) { AtTheKey(proto, s, p); }
    hide AllKnow, FileOk;
    if !s.procs[p].Sleeping? {
      var a := NextOf(s, p);
    }
  }

  /** The process is not at rest, not asleep, and does not wait for the file lock. */
  predicate CanGoOn(s: State, p: nat)
    requires p < |s.procs|
  {
    var pc := s.procs[p];
    && !pc.Done? && !pc.Gone? && !pc.Sleeping?
    && (pc.Opened? ==> s.lock == {})
    && (InMutex(pc) ==> pc.key in s.segments)
  }

  ghost function NextOf(s: State, p: nat): (a: Action)
    requires p < |s.procs| && CanGoOn(s, p)
    ensures Enabled(s, a) && !a.Crash? && !a.Interrupt? && !a.Enter?
  {
    match s.procs[p]
    case Outside => Open(p)
    case Opened => Lock(p)
    case Locked => Read(p)
    case Creating => Create(p, 1)
    case Filling(_, _) => Store(p)
    case Writing(_) => Write(p)
    case Attaching(_) => Attach(p)
    case Trying(k, _) => if s.segments[k].word == FutexMutex.UNLOCKED then Take(p) else Sleep(p)
    case Holding(_, _) => Work(p)
    case Working(_, _) => Release(p)
    case Waking(k, _) => if z: nat :| SleepsAt(s, z, k) then Wake(p, z) else WakeNone(p)
    case Unlocking(_) => Unlock(p)
  }

  lemma AwakeInMutex(pc: Pc)
    requires !pc.Gone? && (HoldsMutex(pc) || OwesWake(pc))
    ensures InMutex(pc) && !pc.Sleeping?
  {
  }

  /** Where nothing goes on, whoever holds the mutex or owes a wake-up is dead. */
  lemma AsleepForever(proto: Protocol, s: State, z: nat)
    requires Inv(proto, s) && Stopped(s) && z < |s.procs| && s.procs[z].Sleeping?
    ensures DiedInMutex(s)
  {
    AtTheKey(proto, s, z);
    hide AllKnow, LockOk, FileOk;
    var word := s.segments[s.file.key].word;
    var p: nat :| p < |s.procs| && (HoldsMutex(s.procs[p]) || OwesWake(s.procs[p]));
    if !s.procs[p].Gone? {
      AwakeInMutex(s.procs[p]);
      AtTheKey(proto, s, p);
      var a := NextOf(s, p);
    }
  }

  /** The exact condition under which processes are left waiting: some process died in lock() or unlock() of
      the segment's mutex, and an attacher sleeps there, with the file lock, to count itself in. A lock
      holder that crashes elsewhere blocks nobody, and FileMutex never leaves anybody waiting. */
  lemma StoppedIff(proto: Protocol, s: State)
    requires Inv(proto, s) && Stopped(s)
    ensures !Settled(s) <==> DiedInMutex(s) && AttacherSleeps(s)
    ensures proto.FileMutexInit? ==> Settled(s)
  {
    hide FileOk, AllKnow, MutexOk, DiedInMutex;
    if !Settled(s) {
      var p: nat :| p < |s.procs| && !Finished(s.procs[p]) && !s.procs[p].Gone?;
      var q := p;
      if !Inside(s.procs[p]) {
        if CanGoOn(s, p) { var a := NextOf(s, p); }
        q :| q in s.lock;
      }
      InsideGoesOn(proto, s, q);
      AsleepForever(proto, s, q);
    }
  }

  // ------------------------------------------------------------- the dead hold on for ever

  /** The holder of the segment's mutex has died. */
  predicate Orphaned(s: State) {
    exists p :: 0 <= p < |s.procs| && s.procs[p].Gone? && HoldsMutex(s.procs[p])
  }

  lemma OrphanStays(proto: Protocol, s: State, a: Action)
    requires Inv(proto, s) && Enabled(s, a) && Orphaned(s) && s.file.Key?
    ensures var s' := Apply(proto, s, a);
            && Orphaned(s') && s'.file == s.file
            && s.file.key in s.segments && s.file.key in s'.segments
            && s'.segments[s.file.key].registered == s.segments[s.file.key].registered
  {
    ProcsIs(proto, s, a);
    hide LockOk;
    assert Knows(proto, s, a.p, s.procs[a.p]);
    var p :| 0 <= p < |s.procs| && s.procs[p].Gone? && HoldsMutex(s.procs[p]);
    var s' := Apply(proto, s, a);
    assert s'.procs[p] == s.procs[p];
    hide AllKnow;
  }

  /** From then on nobody is counted in any more: whoever has initialised at any later moment had counted
      itself in before. */
  lemma {:induction false} OrphanedForEver(proto: Protocol, s: State, run: seq<Action>)
    requires Inv(proto, s) && Orphaned(s) && s.file.Key? && IsRun(proto, s, run)
    ensures var s' := Final(proto, s, run);
            && Orphaned(s') && s'.file == s.file
            && s.file.key in s.segments && s.file.key in s'.segments
            && s'.segments[s.file.key].registered == s.segments[s.file.key].registered
            && (proto.ManagerInit? ==> forall p: nat :: p < |s'.procs| && Finished(s'.procs[p]) ==>
                  p in s.segments[s.file.key].registered)
    decreases |run|
  {
    hide Apply, Enabled, LockOk, MutexOk, Orphaned;
    if run != [] {
      OrphanStays(proto, s, run[0]);
      StepKeepsInv(proto, s, run[0]);
      OrphanedForEver(proto, Apply(proto, s, run[0]), run[1..]);
    } else {
      forall p: nat | proto.ManagerInit? && p < |s.procs| && Finished(s.procs[p])
        ensures s.file.key in s.segments && p in s.segments[s.file.key].registered
      {
        assert Knows(proto, s, p, s.procs[p]);
      }
    }
  }

  // ------------------------------------------------------------------- the main result

  /** Two moments of a run agree: whoever has finished at either uses the same segment, which one
      creator has initialised completely, and in which every finished process is counted. */
  ghost predicate Agree(proto: Protocol, s1: State, s2: State) {
    && s1.writes <= s2.writes <= 1
    && (forall p, q :: 0 <= p < |s1.procs| && 0 <= q < |s2.procs| && Finished(s1.procs[p]) && Finished(s2.procs[q]) ==>
          && s1.procs[p].key == s2.procs[q].key
          && Ready(proto, s1, s1.procs[p].key) && Ready(proto, s2, s2.procs[q].key)
          && s1.segments[s1.procs[p].key].creator == s2.segments[s2.procs[q].key].creator)
    && (proto.ManagerInit? ==> forall q :: 0 <= q < |s2.procs| && Finished(s2.procs[q]) ==>
          s2.procs[q].key in s2.segments && q in s2.segments[s2.procs[q].key].registered)
  }

  lemma FinishedKnows(proto: Protocol, s: State, p: nat)
    requires Inv(proto, s) && p < |s.procs| && Finished(s.procs[p])
    ensures s.file == Key(s.procs[p].key) && Ready(proto, s, s.procs[p].key)
    ensures proto.ManagerInit? ==> p in s.segments[s.procs[p].key].registered
  {
    assert Knows(proto, s, p, s.procs[p]);
    hide MutexOk, LockOk;
  }

  lemma ExtendsAgrees(proto: Protocol, s1: State, s2: State)
    requires Inv(proto, s1) && Inv(proto, s2) && Extends(proto, s1, s2) && |s1.procs| == |s2.procs|
    ensures Agree(proto, s1, s2)
  {
    hide MutexOk, LockOk, AllKnow;
    forall p: nat | p < |s1.procs| && Finished(s1.procs[p])
      ensures s1.file == Key(s1.procs[p].key) && Ready(proto, s1, s1.procs[p].key)
    {
      FinishedKnows(proto, s1, p);
    }
    forall q: nat | q < |s2.procs| && Finished(s2.procs[q])
      ensures s2.file == Key(s2.procs[q].key) && Ready(proto, s2, s2.procs[q].key)
      ensures proto.ManagerInit? ==> s2.procs[q].key in s2.segments && q in s2.segments[s2.procs[q].key].registered
    {
      FinishedKnows(proto, s2, q);
    }
  }

  lemma StartInv(proto: Protocol, s: State, segments: map<int, Segment>, n: nat, calls: nat)
    requires Start(s, segments, n, calls)
    ensures Inv(proto, s) && Measure(proto, s) == 11 * n + CALL * calls
  {
    StartTotal(proto, s.procs);
  }

  /** The main result: from an empty key file, for any number of processes, any segments that
      exist already, any interleaving and any crashes. Processes that finish, at whatever two
      moments of the run, use the same completely initialised segment; at most one creator
      ever writes the key; the run is finite; and where it stops, every process has finished or left,
      unless one has died in the segment's mutex and an attacher sleeps on it. */
  lemma EveryRunAgrees(proto: Protocol, segments: map<int, Segment>, n: nat, calls: nat, s: State,
                       run: seq<Action>, more: seq<Action>)
    requires Start(s, segments, n, calls)
    requires IsRun(proto, s, run) && IsRun(proto, Final(proto, s, run), more)
    ensures Agree(proto, Final(proto, s, run), Final(proto, Final(proto, s, run), more))
    ensures |run| + |more| <= 11 * n + CALL * calls
    ensures var s2 := Final(proto, Final(proto, s, run), more);
            Stopped(s2) ==>
              && (!Settled(s2) <==> DiedInMutex(s2) && AttacherSleeps(s2))
              && (proto.FileMutexInit? ==> Settled(s2))
  {
    hide Stopped, Settled, DiedInMutex, AttacherSleeps, Agree, Inv, Measure;
    StartInv(proto, s, segments, n, calls);
    var s1 := Final(proto, s, run);
    RunKeepsInv(proto, s, run);
    RunKeepsInv(proto, s1, more);
    var s2 := Final(proto, s1, more);
    ExtendsAgrees(proto, s1, s2);
    RunLength(proto, s, run);
    RunLength(proto, s1, more);
    if Stopped(s2) { StoppedIff(proto, s2); }
  }
}
