/** The connection protocol of CclientManager, CClient and the event loop of gps.cpp, as a labelled
    step relation. One event-loop thread accepts, reads and kills; any number of workers pop
    descriptors, correct and forward a client, then kill it. `mmutex` has an explicit holder.
    Looking a client up to read it, reading through the pointer found, the size test before an
    insert, and fetching the descriptor of a forwarded client happen without the lock, as in the
    code. A kill is three steps under the lock: delete, clear the entry, erase it. */
module ClientProtocol {
  import opened Common

  const INVALID_SOCKET := -1

  datatype Thread = EventLoop | Worker(i: nat)

  /** A CClient object. `fd` becomes INVALID_SOCKET when its destructor closes it. */
  datatype Client = Client(fd: int, serial: string, x: string, y: string, deletions: nat)

  /** The pointer in a table entry. */
  datatype Ptr = Null | At(id: nat)

  /** The complete branch of parse ran on client `id`, which then held these fields. */
  datatype Request = Request(id: nat, fd: int, serial: string, x: string, y: string)

  /** Worker w took this message from the list. */
  datatype Taken = Taken(w: nat, fd: int)

  /** Worker w forwarded client `id`, found under `fd`. `seen` complete requests had been received by then
      and `taken` messages taken from the list. */
  datatype Forward =
    Forward(w: nat, fd: int, id: nat, serial: string, x: string, y: string, gps: Point, seen: nat, taken: nat)

  /** What recv returned, and what parse will make of it. */
  datatype Recv = Failed | Partial | Whole(serial: string, x: string, y: string)

  /** A kill knows the client it is meant for when a worker calls it for the client it forwarded, or the
      event loop for the client it could not read. */
  datatype Pc =
    | Top
    | Accepted(fd: int)                      // event loop: accept returned fd
    | Created(fd: int, id: nat)              // event loop: size test passed, object built, lock not yet taken
    | Inserting(fd: int, id: nat)            // event loop: holds the lock in AddToQueue
    | Reading(fd: int, id: nat)              // event loop: DoRead has found client id under fd
    | Parsing(fd: int, id: nat, got: Recv)   // event loop: recv on client id has returned data
    | HasFd                                  // worker: past the message list
    | Forwarded(id: nat)                     // worker: lock given back, the client's fd not yet fetched
    | KillCalled(fd: int, meant: Option<nat>)   // in DoKill, waiting for the lock
    | KillLocked(fd: int, meant: Option<nat>)   // in DoKill, lock taken
    | KillClosed(fd: int, meant: Option<nat>)   // in DoKill, destructor done
    | KillCleared(fd: int, meant: Option<nat>)  // in DoKill, entry null, not yet erased

  /** The size limit, and which points a correction of two coordinate strings may give. */
  datatype Env = Env(maxClients: nat, corrects: (string, string, Point) -> bool)

  datatype State = State(
    open: set<int>,            // open client descriptors
    queue: map<int, Ptr>,      // clientqueue
    clients: seq<Client>,      // every CClient ever built
    lock: Option<Thread>,      // holder of mmutex
    pcs: map<Thread, Pc>,
    stale: map<nat, int>,      // each worker's fd variable, kept between rounds
    msglist: seq<int>,
    pushed: seq<int>, popped: seq<Taken>,
    requests: seq<Request>, forwards: seq<Forward>,
    refused: set<int>)         // accepted when the table was full: nobody closes these
  {
    function Pc(t: Thread): Pc {
      if t in pcs then pcs[t] else Top
    }
    function Go(t: Thread, pc: Pc): State {
      this.(pcs := pcs[t := pc])
    }
    function FdOf(w: nat): int {
      if w in stale then stale[w] else INVALID_SOCKET
    }
    /** The entry exists and points to a client. */
    predicate Holds(fd: int) {
      fd in queue && queue[fd].At? && queue[fd].id < |clients|
    }
    /** The lock holder has deleted the client of this entry, and the entry still points to it. */
    predicate Closed(fd: int) {
      lock.Some? && Pc(lock.value).KillClosed? && Pc(lock.value).fd == fd
    }
    /** The lock holder has cleared this entry and not yet erased it. */
    predicate Cleared(fd: int) {
      lock.Some? && Pc(lock.value).KillCleared? && Pc(lock.value).fd == fd
    }
    /** The lock holder has deleted the client of this entry and not yet erased the entry. */
    predicate Dying(fd: int) {
      Closed(fd) || Cleared(fd)
    }
    /** The event loop has accepted fd and not yet put it into the table. */
    predicate InHand(fd: int) {
      Adding(Pc(EventLoop)) && Pc(EventLoop).fd == fd
    }
  }

  const START := State({}, map[], [], None, map[], map[], [], [], [], [], [], {})

  datatype Step =
    | Accept(fd: int)
    | NewClient(x: string, y: string)
    | LockInsert
    | Insert
    | Lookup(fd: int)
    | Receive(got: Recv)
    | Parse
    | Hangup(fd: int)
    | Pop(w: nat)
    | Serve(w: nat, gps: Point)
    | FetchFd(w: nat, fd: int)
    | LockKill(t: Thread)
    | Close(t: Thread)
    | Clear(t: Thread)
    | Erase(t: Thread)

  /** A step of a deleted client's memory is limited to what its destructor left there for recv; the
      descriptor a worker fetches from it may be anything. */
  predicate Enabled(env: Env, s: State, step: Step) {
    match step
    case Accept(fd) => s.Pc(EventLoop).Top? && fd >= 0 && fd !in s.open
    case NewClient(_, _) => s.Pc(EventLoop).Accepted?
    case LockInsert => s.Pc(EventLoop).Created? && s.lock.None?
    case Insert => s.Pc(EventLoop).Inserting?
    case Lookup(_) => s.Pc(EventLoop).Top?
    case Receive(got) =>
      // recv on an already closed client can only fail
      && s.Pc(EventLoop).Reading? && s.Pc(EventLoop).id < |s.clients|
      && (s.clients[s.Pc(EventLoop).id].fd == INVALID_SOCKET ==> got.Failed?)
    case Parse => s.Pc(EventLoop).Parsing? && s.Pc(EventLoop).id < |s.clients|
    case Hangup(_) => s.Pc(EventLoop).Top?
    case Pop(w) => s.Pc(Worker(w)).Top?
    case Serve(w, gps) =>
      && s.Pc(Worker(w)).HasFd? && s.lock.None?
      && (s.Holds(s.FdOf(w)) ==>
            var c := s.clients[s.queue[s.FdOf(w)].id];
            env.corrects(c.x, c.y, gps))
    case FetchFd(w, fd) =>
      && s.Pc(Worker(w)).Forwarded?
      && (s.Pc(Worker(w)).id < |s.clients| && s.clients[s.Pc(Worker(w)).id].fd != INVALID_SOCKET ==>
            fd == s.clients[s.Pc(Worker(w)).id].fd)
    case LockKill(t) => s.Pc(t).KillCalled? && s.lock.None?
    case Close(t) => s.Pc(t).KillLocked?
    case Clear(t) => s.Pc(t).KillClosed?
    case Erase(t) => s.Pc(t).KillCleared?
  }

  /** The destructor: close the descriptor, forget it. */
  function Deleted(s: State, id: nat): State {
    if id < |s.clients| then
      var c := s.clients[id];
      s.(open := s.open - {c.fd},
         clients := s.clients[id := c.(fd := INVALID_SOCKET, deletions := c.deletions + 1)])
    else s
  }

  function Apply(env: Env, s: State, step: Step): State
    requires Enabled(env, s, step)
  {
    match step
    case Accept(fd) =>
      s.(open := s.open + {fd}).Go(EventLoop, Accepted(fd))
    case NewClient(x, y) =>
      // only the serial is cleared
      var fd := s.Pc(EventLoop).fd;
      if |s.queue| < env.maxClients then
        s.(clients := s.clients + [Client(fd, "", x, y, 0)]).Go(EventLoop, Created(fd, |s.clients|))
      else
        s.(refused := s.refused + {fd}).Go(EventLoop, Top)
    case LockInsert =>
      var pc := s.Pc(EventLoop);
      s.(lock := Some(EventLoop)).Go(EventLoop, Inserting(pc.fd, pc.id))
    case Insert =>
      var pc := s.Pc(EventLoop);
      var s1 := if s.Holds(pc.fd) then Deleted(s, s.queue[pc.fd].id) else s;
      s1.(queue := s.queue[pc.fd := At(pc.id)], lock := None).Go(EventLoop, Top)
    case Lookup(fd) =>
      if s.Holds(fd) then s.Go(EventLoop, Reading(fd, s.queue[fd].id)) else s
    case Receive(got) =>
      var pc := s.Pc(EventLoop);
      if got.Failed? then s.Go(EventLoop, KillCalled(s.clients[pc.id].fd, Some(pc.id)))
      else s.Go(EventLoop, Parsing(pc.fd, pc.id, got))
    case Parse =>
      var id, got := s.Pc(EventLoop).id, s.Pc(EventLoop).got;
      var c := s.clients[id];
      if !got.Whole? then s.Go(EventLoop, Top)
      else
        s.(clients := s.clients[id := c.(serial := got.serial, x := got.x, y := got.y)],
           requests := s.requests + [Request(id, c.fd, got.serial, got.x, got.y)],
           msglist := s.msglist + [c.fd], pushed := s.pushed + [c.fd]).Go(EventLoop, Top)
    case Hangup(fd) => s.Go(EventLoop, KillCalled(fd, None))
    case Pop(w) =>
      if s.msglist == [] then s.Go(Worker(w), HasFd)
      else
        s.(stale := s.stale[w := s.msglist[0]], msglist := s.msglist[1..],
           popped := s.popped + [Taken(w, s.msglist[0])]).Go(Worker(w), HasFd)
    case Serve(w, gps) =>
      if !s.Holds(s.FdOf(w)) then s.Go(Worker(w), Top)
      else
        var fd, id := s.FdOf(w), s.queue[s.FdOf(w)].id;
        var c := s.clients[id];
        if c.serial == "" then s.Go(Worker(w), Top)
        else
          var f := Forward(w, fd, id, c.serial, c.x, c.y, gps, |s.requests|, |s.popped|);
          s.(forwards := s.forwards + [f]).Go(Worker(w), Forwarded(id))
    case FetchFd(w, fd) => s.Go(Worker(w), KillCalled(fd, Some(s.Pc(Worker(w)).id)))
    case LockKill(t) => s.(lock := Some(t)).Go(t, KillLocked(s.Pc(t).fd, s.Pc(t).meant))
    case Close(t) =>
      var pc := s.Pc(t);
      if pc.fd !in s.queue then s.(lock := None).Go(t, Top)
      else
        var s1 := if s.Holds(pc.fd) then Deleted(s, s.queue[pc.fd].id) else s;
        s1.Go(t, KillClosed(pc.fd, pc.meant))
    case Clear(t) =>
      var pc := s.Pc(t);
      s.(queue := s.queue[pc.fd := Null]).Go(t, KillCleared(pc.fd, pc.meant))
    case Erase(t) => s.(queue := s.queue - {s.Pc(t).fd}, lock := None).Go(t, Top)
  }

  // ---------------------------------------------------------------- invariants

  predicate Critical(pc: Pc) {
    pc.Inserting? || pc.KillLocked? || pc.KillClosed? || pc.KillCleared?
  }

  predicate Adding(pc: Pc) {
    pc.Accepted? || pc.Created? || pc.Inserting?
  }

  /** Who is inside a critical section is exactly who holds the lock; only the event loop adds. */
  ghost predicate LockInv(s: State) {
    forall t: Thread :: (Critical(s.Pc(t)) <==> s.lock == Some(t)) && (Adding(s.Pc(t)) ==> t.EventLoop?)
  }

  /** A table entry is a live client that owns the entry's open descriptor,
      unless the lock holder is just killing it. */
  ghost predicate EntryInv(s: State, fd: int)
    requires fd in s.queue
  {
    if s.Cleared(fd) then s.queue[fd].Null?
    else
      && s.Holds(fd)
      && if s.Closed(fd) then s.clients[s.queue[fd].id].fd == INVALID_SOCKET
         else s.clients[s.queue[fd].id].fd == fd && fd >= 0 && fd in s.open && fd !in s.refused
  }

  ghost predicate QueueInv(s: State) {
    && (forall fd | fd in s.queue :: EntryInv(s, fd))
    && (forall fd: int | s.Dying(fd) :: fd in s.queue)
  }

  /** Every object is deleted at most once, and while it is not it is in the table or in hand. */
  ghost predicate ClientInv(s: State, id: nat)
    requires id < |s.clients|
  {
    var c := s.clients[id];
    && c.deletions == (if c.fd == INVALID_SOCKET then 1 else 0)
    && (c.fd != INVALID_SOCKET ==>
          || (c.fd in s.queue && s.queue[c.fd] == At(id))
          || s.Pc(EventLoop) == Created(c.fd, id) || s.Pc(EventLoop) == Inserting(c.fd, id))
  }

  ghost predicate ClientsInv(s: State) {
    forall id: nat | id < |s.clients| :: ClientInv(s, id)
  }

  /** What the event loop has accepted is open and its own; the table has room for it. */
  ghost predicate HandInv(env: Env, s: State) {
    var pc := s.Pc(EventLoop);
    && (Adding(pc) ==>
          pc.fd >= 0 && pc.fd in s.open && pc.fd !in s.refused && (pc.fd in s.queue ==> s.Dying(pc.fd)))
    && (pc.Created? || pc.Inserting? ==>
          && pc.id < |s.clients| && s.clients[pc.id].fd == pc.fd
          && |s.queue| < env.maxClients)
    && |s.queue| <= env.maxClients
  }

  /** Every open descriptor is accounted for: in the table, in hand, or refused. */
  ghost predicate OpenInv(s: State) {
    forall fd: int :: fd in s.open <==> (fd in s.queue && !s.Dying(fd)) || s.InHand(fd) || fd in s.refused
  }

  ghost predicate Core(env: Env, s: State) {
    LockInv(s) && QueueInv(s) && ClientsInv(s) && HandInv(env, s) && OpenInv(s)
  }

  // ---------------------------------------------------------------- every step keeps them

  /** Thread t moves between points outside every critical section; fields other than the
      descriptors of clients may change. */
  ghost predicate Quiet(s: State, s': State, t: Thread) {
    && s'.open == s.open && s'.queue == s.queue && s'.refused == s.refused && s'.lock == s.lock
    && |s'.clients| == |s.clients|
    && (forall id: nat | id < |s.clients| ::
          s'.clients[id].fd == s.clients[id].fd && s'.clients[id].deletions == s.clients[id].deletions)
    && (forall u: Thread | u != t :: s'.Pc(u) == s.Pc(u))
    && !Critical(s.Pc(t)) && !Adding(s.Pc(t)) && !Critical(s'.Pc(t)) && !Adding(s'.Pc(t))
  }

  /** Thread t may take a free lock, hold it, or give its own lock back. */
  ghost predicate LockMove(s: State, s': State, t: Thread) {
    && (forall u: Thread | u != t :: s'.Pc(u) == s.Pc(u))
    && (Critical(s'.Pc(t)) <==> s'.lock == Some(t))
    && (Adding(s'.Pc(t)) ==> t.EventLoop?)
    && (s'.lock == s.lock || ((s.lock.None? || s.lock == Some(t)) && (s'.lock.None? || s'.lock == Some(t))))
  }

  lemma MoveKeepsLock(s: State, s': State, t: Thread)
    requires LockInv(s) && LockMove(s, s', t)
    ensures LockInv(s')
  {
    forall u: Thread
      ensures (Critical(s'.Pc(u)) <==> s'.lock == Some(u)) && (Adding(s'.Pc(u)) ==> u.EventLoop?)
    {
      assert Critical(s.Pc(u)) <==> s.lock == Some(u);
      assert Adding(s.Pc(u)) ==> u.EventLoop?;
    }
  }

  /** The invariants of s for the clients and entries that a step may look at. */
  lemma CoreOf(env: Env, s: State)
    requires Core(env, s)
    ensures forall id: nat {:trigger s.clients[id]} | id < |s.clients| :: ClientInv(s, id)
    ensures forall fd {:trigger s.queue[fd]} {:trigger fd in s.queue} | fd in s.queue :: EntryInv(s, fd)
  {
  }

  lemma QuietKeepsCore(env: Env, s: State, s': State, t: Thread)
    requires Core(env, s) && Quiet(s, s', t)
    ensures Core(env, s')
  {
    assert s.lock != Some(t);
    assert forall fd :: (s'.Closed(fd) <==> s.Closed(fd)) && (s'.Cleared(fd) <==> s.Cleared(fd));
    CoreOf(env, s);
  }

  lemma AcceptKeepsCore(env: Env, s: State, fd: int)
    requires Core(env, s) && Enabled(env, s, Accept(fd))
    ensures Core(env, Apply(env, s, Accept(fd)))
  {
    MoveKeepsLock(s, Apply(env, s, Accept(fd)), EventLoop);
    CoreOf(env, s);
  }

  lemma NewClientKeepsCore(env: Env, s: State, x: string, y: string)
    requires Core(env, s) && Enabled(env, s, NewClient(x, y))
    ensures Core(env, Apply(env, s, NewClient(x, y)))
  {
    MoveKeepsLock(s, Apply(env, s, NewClient(x, y)), EventLoop);
    CoreOf(env, s);
  }

  lemma LockInsertKeepsCore(env: Env, s: State)
    requires Core(env, s) && Enabled(env, s, LockInsert)
    ensures Core(env, Apply(env, s, LockInsert))
  {
    MoveKeepsLock(s, Apply(env, s, LockInsert), EventLoop);
    CoreOf(env, s);
  }

  lemma InsertKeepsCore(env: Env, s: State)
    requires Core(env, s) && Enabled(env, s, Insert)
    ensures Core(env, Apply(env, s, Insert))
  {
    MoveKeepsLock(s, Apply(env, s, Insert), EventLoop);
    CoreOf(env, s);
  }

  lemma LockKillKeepsCore(env: Env, s: State, t: Thread)
    requires Core(env, s) && Enabled(env, s, LockKill(t))
    ensures Core(env, Apply(env, s, LockKill(t)))
  {
    MoveKeepsLock(s, Apply(env, s, LockKill(t)), t);
    CoreOf(env, s);
  }

  /** A kill that finds no entry only gives the lock back. */
  lemma ReleaseKeepsCore(env: Env, s: State, t: Thread)
    requires Core(env, s) && Enabled(env, s, Close(t)) && s.Pc(t).fd !in s.queue
    ensures Core(env, Apply(env, s, Close(t)))
  {
    var s' := Apply(env, s, Close(t));
    MoveKeepsLock(s, s', t);
    assert forall fd :: !s.Dying(fd) && !s'.Dying(fd);
    CoreOf(env, s);
  }

  lemma DeleteKeepsCore(env: Env, s: State, t: Thread, s': State)
    requires Core(env, s) && Enabled(env, s, Close(t)) && s.Holds(s.Pc(t).fd)
    requires s' == Apply(env, s, Close(t))
    ensures Core(env, s')
  {
    MoveKeepsLock(s, s', t);
    DeletedClients(env, s, t, s');
    DeletedEntries(env, s, t, s');
    var fd := s.Pc(t).fd;
    assert EntryInv(s, fd);
    assert s'.open == s.open - {fd};
    assert forall k :: (s'.Dying(k) <==> k == fd) && !s.Dying(k);
  }

  lemma DeletedEntries(env: Env, s: State, t: Thread, s': State)
    requires Core(env, s) && Enabled(env, s, Close(t)) && s.Holds(s.Pc(t).fd)
    requires s' == Apply(env, s, Close(t))
    ensures QueueInv(s')
  {
    CoreOf(env, s);
    assert Critical(s.Pc(t)) <==> s.lock == Some(t);
    assert forall k :: (s'.Dying(k) <==> k == s.Pc(t).fd) && !s.Dying(k) && !s'.Cleared(k);
  }

  lemma DeletedClients(env: Env, s: State, t: Thread, s': State)
    requires Core(env, s) && Enabled(env, s, Close(t)) && s.Holds(s.Pc(t).fd)
    requires s' == Apply(env, s, Close(t))
    ensures ClientsInv(s')
  {
    CoreOf(env, s);
  }

  lemma CloseKeepsCore(env: Env, s: State, t: Thread)
    requires Core(env, s) && Enabled(env, s, Close(t))
    ensures Core(env, Apply(env, s, Close(t)))
  {
    assert s.Pc(t).fd in s.queue ==> EntryInv(s, s.Pc(t).fd);
    assert Critical(s.Pc(t)) <==> s.lock == Some(t);
    if s.Pc(t).fd in s.queue {
      DeleteKeepsCore(env, s, t, Apply(env, s, Close(t)));
    } else {
      ReleaseKeepsCore(env, s, t);
    }
  }

  /** Only the entry fd changes, and it does not lead to a live client. */
  ghost predicate Unlinks(s: State, s': State, fd: int) {
    && s'.clients == s.clients && s'.open == s.open && s'.refused == s.refused
    && (forall k | k in s.queue && k != fd :: k in s'.queue && s'.queue[k] == s.queue[k])
    && (s.Holds(fd) ==> s.clients[s.queue[fd].id].fd == INVALID_SOCKET)
    && (Adding(s.Pc(EventLoop)) ==> s'.Pc(EventLoop) == s.Pc(EventLoop))
  }

  lemma UnlinkKeepsClients(s: State, s': State, fd: int)
    requires ClientsInv(s) && Unlinks(s, s', fd)
    ensures ClientsInv(s')
  {
    forall id: nat | id < |s'.clients|
      ensures ClientInv(s', id)
    {
      assert ClientInv(s, id);
    }
  }

  lemma ClearKeepsCore(env: Env, s: State, t: Thread)
    requires Core(env, s) && Enabled(env, s, Clear(t))
    ensures Core(env, Apply(env, s, Clear(t)))
  {
    var s', fd := Apply(env, s, Clear(t)), s.Pc(t).fd;
    MoveKeepsLock(s, s', t);
    assert Critical(s.Pc(t)) <==> s.lock == Some(t);
    assert s.Dying(fd) && EntryInv(s, fd);
    assert forall k :: (s'.Dying(k) <==> k == fd) && (s.Dying(k) <==> k == fd) && !s'.Closed(k);
    UnlinkKeepsClients(s, s', fd);
    assert s'.queue.Keys == s.queue.Keys;
    UnlinkKeepsEntries(s, s', fd);
  }

  /** What the lock holder has just cleared. */
  lemma ClearedEntry(env: Env, s: State, t: Thread)
    requires Core(env, s) && Enabled(env, s, Erase(t))
    ensures var fd := s.Pc(t).fd;
            && fd in s.queue && s.queue[fd].Null? && forall k :: s.Dying(k) <==> k == fd
  {
    assert Critical(s.Pc(t)) <==> s.lock == Some(t);
    assert s.Dying(s.Pc(t).fd) && EntryInv(s, s.Pc(t).fd);
  }

  lemma EraseKeepsTable(env: Env, s: State, t: Thread, s': State)
    requires Core(env, s) && Enabled(env, s, Erase(t)) && s' == Apply(env, s, Erase(t))
    ensures QueueInv(s') && ClientsInv(s')
  {
    ClearedEntry(env, s, t);
    EraseUnlinks(env, s, t, s');
    UnlinkKeepsClients(s, s', s.Pc(t).fd);
    UnlinkKeepsEntries(s, s', s.Pc(t).fd);
  }

  lemma EraseKeepsOpen(env: Env, s: State, t: Thread, s': State)
    requires Core(env, s) && Enabled(env, s, Erase(t)) && s' == Apply(env, s, Erase(t))
    ensures HandInv(env, s') && OpenInv(s')
  {
    ClearedEntry(env, s, t);
    SmallerMap(s.queue, s.Pc(t).fd);
  }

  lemma EraseKeepsCore(env: Env, s: State, t: Thread)
    requires Core(env, s) && Enabled(env, s, Erase(t))
    ensures Core(env, Apply(env, s, Erase(t)))
  {
    var s' := Apply(env, s, Erase(t));
    MoveKeepsLock(s, s', t);
    EraseKeepsTable(env, s, t, s');
    EraseKeepsOpen(env, s, t, s');
  }

  lemma EraseUnlinks(env: Env, s: State, t: Thread, s': State)
    requires Enabled(env, s, Erase(t)) && s' == Apply(env, s, Erase(t))
    requires s.Pc(t).fd in s.queue && s.queue[s.Pc(t).fd].Null?
    ensures Unlinks(s, s', s.Pc(t).fd) && s'.queue.Keys == s.queue.Keys - {s.Pc(t).fd}
  {
  }

  lemma SmallerMap(m: map<int, Ptr>, k: int)
    ensures |m - {k}| <= |m|
  {
    assert (m - {k}).Keys == m.Keys - {k};
    assert |m - {k}| == |(m - {k}).Keys| && |m.Keys| == |m|;
  }

  lemma UnlinkKeepsEntries(s: State, s': State, fd: int)
    requires QueueInv(s) && Unlinks(s, s', fd) && s'.queue.Keys <= s.queue.Keys
    requires forall k :: k != fd ==> !s.Dying(k) && !s'.Dying(k)
    ensures forall k | k in s'.queue && k != fd :: EntryInv(s', k)
  {
    forall k | k in s'.queue && k != fd
      ensures EntryInv(s', k)
    {
      assert k in s'.queue.Keys;
      assert !s.Dying(k) && !s'.Dying(k);
      assert EntryInv(s, k);
    }
  }

  lemma ParseKeepsCore(env: Env, s: State)
    requires Core(env, s) && Enabled(env, s, Parse)
    ensures Core(env, Apply(env, s, Parse))
  {
    QuietKeepsCore(env, s, Apply(env, s, Parse), EventLoop);
  }

  lemma ServeKeepsCore(env: Env, s: State, w: nat, gps: Point)
    requires Core(env, s) && Enabled(env, s, Serve(w, gps))
    ensures Core(env, Apply(env, s, Serve(w, gps)))
  {
    QuietKeepsCore(env, s, Apply(env, s, Serve(w, gps)), Worker(w));
  }

  predicate QuietStep(step: Step) {
    step.Lookup? || step.Receive? || step.Hangup? || step.Pop? || step.FetchFd?
  }

  function QuietActor(step: Step): Thread {
    if step.Pop? || step.FetchFd? then Worker(step.w) else EventLoop
  }

  lemma QuietStepIsQuiet(env: Env, s: State, step: Step)
    requires Enabled(env, s, step) && QuietStep(step)
    ensures Quiet(s, Apply(env, s, step), QuietActor(step))
  {
  }

  lemma QuietStepKeepsCore(env: Env, s: State, step: Step)
    requires Core(env, s) && Enabled(env, s, step) && QuietStep(step)
    ensures Core(env, Apply(env, s, step))
  {
    QuietStepIsQuiet(env, s, step);
    QuietKeepsCore(env, s, Apply(env, s, step), QuietActor(step));
  }

  lemma InsertStepKeepsCore(env: Env, s: State, step: Step)
    requires Core(env, s) && Enabled(env, s, step)
    requires step.Accept? || step.NewClient? || step.LockInsert? || step.Insert?
    ensures Core(env, Apply(env, s, step))
  {
    match step
    case Accept(fd) => AcceptKeepsCore(env, s, fd);
    case NewClient(x, y) => NewClientKeepsCore(env, s, x, y);
    case LockInsert => LockInsertKeepsCore(env, s);
    case Insert => InsertKeepsCore(env, s);
  }

  lemma KillStepKeepsCore(env: Env, s: State, step: Step)
    requires Core(env, s) && Enabled(env, s, step)
    requires step.LockKill? || step.Close? || step.Clear? || step.Erase?
    ensures Core(env, Apply(env, s, step))
  {
    match step
    case LockKill(t) => LockKillKeepsCore(env, s, t);
    case Close(t) => CloseKeepsCore(env, s, t);
    case Clear(t) => ClearKeepsCore(env, s, t);
    case Erase(t) => EraseKeepsCore(env, s, t);
  }

  lemma StepKeepsCore(env: Env, s: State, step: Step)
    requires Core(env, s) && Enabled(env, s, step)
    ensures Core(env, Apply(env, s, step))
  {
    if step.Parse? {
      ParseKeepsCore(env, s);
    } else if step.Serve? {
      ServeKeepsCore(env, s, step.w, step.gps);
    } else if QuietStep(step) {
      QuietStepKeepsCore(env, s, step);
    } else if step.Accept? || step.NewClient? || step.LockInsert? || step.Insert? {
      InsertStepKeepsCore(env, s, step);
    } else {
      KillStepKeepsCore(env, s, step);
    }
  }
}
