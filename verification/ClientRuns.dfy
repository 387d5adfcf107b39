/** What holds in every state of every run of the connection protocol: safety of the client table,
    order and origin of what is forwarded, and whom the unlocked accesses can meet. */
module ClientRuns {
  import opened Common
  import opened ClientProtocol

  ghost predicate Next(env: Env, s: State, s': State) {
    exists step :: Enabled(env, s, step) && s' == Apply(env, s, step)
  }

  ghost predicate IsRun(env: Env, run: seq<State>) {
    && |run| > 0 && run[0] == START
    && forall i | 0 < i < |run| :: Next(env, run[i - 1], run[i])
  }

  // ---------------------------------------------------------------- histories

  function Notified(rs: seq<Request>): seq<int> {
    if rs == [] then [] else Notified(rs[..|rs| - 1]) + [rs[|rs| - 1].fd]
  }

  function Fds(ts: seq<Taken>): seq<int> {
    seq(|ts|, i requires 0 <= i < |ts| => ts[i].fd)
  }

  /** Among the first n messages taken, fd is the last one that worker w took; INVALID_SOCKET without any. */
  ghost predicate Took(ts: seq<Taken>, n: nat, w: nat, fd: int) {
    && n <= |ts|
    && (|| (fd == INVALID_SOCKET && forall j | 0 <= j < n :: ts[j].w != w)
        || (exists k :: 0 <= k < n && ts[k] == Taken(w, fd) && forall j | k < j < n :: ts[j].w != w))
  }

  /** Every worker's variable holds what it took last. */
  ghost predicate AllTook(ts: seq<Taken>, stale: map<nat, int>) {
    forall w: nat :: Took(ts, |ts|, w, if w in stale then stale[w] else INVALID_SOCKET)
  }

  /** Among the first n requests, the last one of client id came under fd with these fields. */
  ghost predicate Latest(rs: seq<Request>, n: nat, id: nat, fd: int, serial: string, x: string, y: string) {
    && n <= |rs|
    && exists k :: 0 <= k < n && rs[k] == Request(id, fd, serial, x, y) && forall j | k < j < n :: rs[j].id != id
  }

  /** What a forward carries: the latest complete request to that same client, which came under the last
      descriptor that the worker had taken. */
  ghost predicate ForwardInv(env: Env, rs: seq<Request>, ts: seq<Taken>, f: Forward) {
    && f.serial != "" && Took(ts, f.taken, f.w, f.fd) && Latest(rs, f.seen, f.id, f.fd, f.serial, f.x, f.y)
    && env.corrects(f.x, f.y, f.gps)
  }

  ghost predicate FieldsInv(s: State, id: nat)
    requires id < |s.clients|
  {
    var c := s.clients[id];
    c.serial != "" && c.fd != INVALID_SOCKET ==> Latest(s.requests, |s.requests|, id, c.fd, c.serial, c.x, c.y)
  }

  /** Messages are neither lost nor reordered nor invented; a worker goes on with the last one it took;
      what a live client holds and what was forwarded for it is the latest complete request to that same
      object. */
  ghost predicate HistoryInv(env: Env, s: State) {
    && s.pushed == Fds(s.popped) + s.msglist && s.pushed == Notified(s.requests)
    && AllTook(s.popped, s.stale)
    && (forall id: nat | id < |s.clients| :: FieldsInv(s, id))
    && (forall f | f in s.forwards :: ForwardInv(env, s.requests, s.popped, f))
  }

  /** Nothing recorded, no stored field changes; new clients have no serial. */
  ghost predicate SameHistory(s: State, s': State) {
    && s'.pushed == s.pushed && s'.popped == s.popped && s'.msglist == s.msglist && s'.stale == s.stale
    && s'.requests == s.requests && s'.forwards == s.forwards
    && |s.clients| <= |s'.clients|
    && forall id: nat | id < |s'.clients| && s'.clients[id].serial != "" && s'.clients[id].fd != INVALID_SOCKET ::
         id < |s.clients| && SameFields(s'.clients[id], s.clients[id])
  }

  predicate SameFields(c: Client, d: Client) {
    c.fd == d.fd && c.serial == d.serial && c.x == d.x && c.y == d.y
  }

  lemma SameHistoryKept(env: Env, s: State, s': State)
    requires HistoryInv(env, s) && SameHistory(s, s')
    ensures HistoryInv(env, s')
  {
    forall id: nat | id < |s'.clients|
      ensures FieldsInv(s', id)
    {
      if s'.clients[id].serial != "" && s'.clients[id].fd != INVALID_SOCKET {
        assert FieldsInv(s, id);
      }
    }
  }

  lemma FdsAppended(ts: seq<Taken>, t: Taken)
    ensures Fds(ts + [t]) == Fds(ts) + [t.fd]
  {
  }

  /** Messages taken later do not change what had been taken, and the new one is its worker's last. */
  lemma TookKept(ts: seq<Taken>, t: Taken, n: nat, w: nat, fd: int)
    requires Took(ts, n, w, fd)
    ensures Took(ts + [t], n, w, fd)
    ensures n == |ts| && t.w != w ==> Took(ts + [t], n + 1, w, fd)
  {
    if k :| 0 <= k < n && ts[k] == Taken(w, fd) && forall j | k < j < n :: ts[j].w != w {
      assert (ts + [t])[k] == Taken(w, fd);
    }
  }

  lemma NewIsTaken(ts: seq<Taken>, t: Taken)
    ensures Took(ts + [t], |ts| + 1, t.w, t.fd)
  {
    assert (ts + [t])[|ts|] == t;
  }

  lemma NewKeepsTaken(ts: seq<Taken>, stale: map<nat, int>, t: Taken)
    requires AllTook(ts, stale)
    ensures AllTook(ts + [t], stale[t.w := t.fd])
  {
    forall w: nat | w != t.w
      ensures Took(ts + [t], |ts| + 1, w, if w in stale then stale[w] else INVALID_SOCKET)
    {
      TookKept(ts, t, |ts|, w, if w in stale then stale[w] else INVALID_SOCKET);
    }
    NewIsTaken(ts, t);
  }

  lemma PopKeepsHistory(env: Env, s: State, w: nat)
    requires HistoryInv(env, s) && Enabled(env, s, Pop(w)) && s.msglist != []
    ensures HistoryInv(env, Apply(env, s, Pop(w)))
  {
    var s', t := Apply(env, s, Pop(w)), Taken(w, s.msglist[0]);
    FdsAppended(s.popped, t);
    assert s.msglist == [t.fd] + s'.msglist;
    NewKeepsTaken(s.popped, s.stale, t);
    forall id: nat | id < |s'.clients|
      ensures FieldsInv(s', id)
    {
      assert FieldsInv(s, id);
    }
    forall f | f in s'.forwards
      ensures ForwardInv(env, s'.requests, s'.popped, f)
    {
      assert ForwardInv(env, s.requests, s.popped, f);
      TookKept(s.popped, t, f.taken, f.w, f.fd);
    }
  }

  /** Requests that come later do not change what was the latest. */
  lemma LatestKept(rs: seq<Request>, r: Request, n: nat, id: nat, fd: int, serial: string, x: string, y: string)
    requires Latest(rs, n, id, fd, serial, x, y)
    ensures Latest(rs + [r], n, id, fd, serial, x, y)
    ensures n == |rs| && r.id != id ==> Latest(rs + [r], n + 1, id, fd, serial, x, y)
  {
    var k :| 0 <= k < n && rs[k] == Request(id, fd, serial, x, y) && forall j | k < j < n :: rs[j].id != id;
    assert (rs + [r])[k] == rs[k];
  }

  lemma NewIsLatest(rs: seq<Request>, r: Request)
    ensures Latest(rs + [r], |rs| + 1, r.id, r.fd, r.serial, r.x, r.y)
  {
    assert (rs + [r])[|rs|] == r;
  }

  lemma WholeKeepsHistory(env: Env, s: State)
    requires HistoryInv(env, s) && Enabled(env, s, Parse) && s.Pc(EventLoop).got.Whole?
    ensures HistoryInv(env, Apply(env, s, Parse))
  {
    var s', pc := Apply(env, s, Parse), s.Pc(EventLoop);
    var r := Request(pc.id, s.clients[pc.id].fd, pc.got.serial, pc.got.x, pc.got.y);
    assert s'.requests == s.requests + [r] && s'.requests[..|s.requests|] == s.requests;
    forall f | f in s'.forwards
      ensures ForwardInv(env, s'.requests, s'.popped, f)
    {
      assert ForwardInv(env, s.requests, s.popped, f);
      LatestKept(s.requests, r, f.seen, f.id, f.fd, f.serial, f.x, f.y);
    }
    forall id: nat | id < |s'.clients|
      ensures FieldsInv(s', id)
    {
      WholeKeepsFields(env, s, r, id);
    }
  }

  lemma WholeKeepsFields(env: Env, s: State, r: Request, id: nat)
    requires HistoryInv(env, s) && Enabled(env, s, Parse) && s.Pc(EventLoop).got.Whole? && id < |s.clients|
    requires var pc := s.Pc(EventLoop);
             r == Request(pc.id, s.clients[pc.id].fd, pc.got.serial, pc.got.x, pc.got.y)
    ensures FieldsInv(Apply(env, s, Parse), id)
  {
    assert FieldsInv(s, id);
    var c := s.clients[id];
    if id == r.id {
      NewIsLatest(s.requests, r);
    } else if c.serial != "" && c.fd != INVALID_SOCKET {
      LatestKept(s.requests, r, |s.requests|, id, c.fd, c.serial, c.x, c.y);
    }
  }

  lemma ServeKeepsHistory(env: Env, s: State, w: nat, gps: Point)
    requires Core(env, s) && HistoryInv(env, s) && Enabled(env, s, Serve(w, gps))
    ensures HistoryInv(env, Apply(env, s, Serve(w, gps)))
  {
    var s' := Apply(env, s, Serve(w, gps));
    forall id: nat | id < |s'.clients|
      ensures FieldsInv(s', id)
    {
      assert FieldsInv(s, id);
    }
    forall f | f in s'.forwards
      ensures ForwardInv(env, s'.requests, s'.popped, f)
    {
      if f !in s.forwards {
        assert f == s'.forwards[|s.forwards|] && FieldsInv(s, f.id);
        assert EntryInv(s, f.fd);
      }
    }
  }

  lemma DeleteIsSameHistory(env: Env, s: State, step: Step)
    requires Enabled(env, s, step) && (step.Insert? || step.Close?)
    ensures SameHistory(s, Apply(env, s, step))
  {
  }

  lemma OtherIsSameHistory(env: Env, s: State, step: Step)
    requires Enabled(env, s, step) && !step.Insert? && !step.Close? && !(step.Pop? && s.msglist != [])
    requires !step.Serve? && !(step.Parse? && s.Pc(EventLoop).got.Whole?)
    ensures SameHistory(s, Apply(env, s, step))
  {
  }

  lemma StepKeepsHistory(env: Env, s: State, step: Step)
    requires Core(env, s) && HistoryInv(env, s) && Enabled(env, s, step)
    ensures HistoryInv(env, Apply(env, s, step))
  {
    if step.Parse? && s.Pc(EventLoop).got.Whole? {
      WholeKeepsHistory(env, s);
    } else if step.Pop? && s.msglist != [] {
      PopKeepsHistory(env, s, step.w);
    } else if step.Serve? {
      ServeKeepsHistory(env, s, step.w, step.gps);
    } else {
      if step.Insert? || step.Close? {
        DeleteIsSameHistory(env, s, step);
      } else {
        OtherIsSameHistory(env, s, step);
      }
      SameHistoryKept(env, s, Apply(env, s, step));
    }
  }

  // ---------------------------------------------------------------- pointers kept outside the lock

  /** Descriptors of clients are only ever given up. */
  ghost predicate FdsKept(s: State, s': State) {
    && |s.clients| <= |s'.clients|
    && forall id: nat | id < |s.clients| ::
         s'.clients[id].fd == s.clients[id].fd || s'.clients[id].fd == INVALID_SOCKET
  }

  /** Entries are only cleared or erased. */
  ghost predicate EntriesKept(s: State, s': State) {
    forall fd | fd in s'.queue :: fd in s.queue && (s'.queue[fd] == s.queue[fd] || s'.queue[fd] == Null)
  }

  lemma StepKeepsFds(env: Env, s: State, step: Step)
    requires Enabled(env, s, step)
    ensures FdsKept(s, Apply(env, s, step))
  {
  }

  lemma StepKeepsEntries(env: Env, s: State, step: Step)
    requires Core(env, s) && Enabled(env, s, step) && !step.Insert?
    ensures EntriesKept(s, Apply(env, s, step))
  {
    if step.Clear? {
      assert Critical(s.Pc(step.t)) <==> s.lock == Some(step.t);
      assert s.Dying(s.Pc(step.t).fd);
    }
  }

  predicate AtClient(pc: Pc) {
    pc.Reading? || pc.Parsing?
  }

  /** What the event loop is about to read or parse: a client that has or had the descriptor looked up. */
  ghost predicate ReadInv(s: State) {
    var pc := s.Pc(EventLoop);
    AtClient(pc) ==>
      && pc.id < |s.clients|
      && (s.clients[pc.id].fd == pc.fd || s.clients[pc.id].fd == INVALID_SOCKET)
      && (pc.fd in s.queue ==> s.queue[pc.fd] == At(pc.id) || s.queue[pc.fd] == Null)
  }

  /** Only a lookup takes up a new client. */
  lemma StepKeepsClient(env: Env, s: State, step: Step)
    requires Enabled(env, s, step) && !step.Lookup? && AtClient(Apply(env, s, step).Pc(EventLoop))
    ensures var pc, pc' := s.Pc(EventLoop), Apply(env, s, step).Pc(EventLoop);
            AtClient(pc) && pc'.fd == pc.fd && pc'.id == pc.id && !step.Insert?
  {
  }

  lemma ReadInvMoves(s: State, s': State)
    requires ReadInv(s) && FdsKept(s, s') && EntriesKept(s, s')
    requires var pc, pc' := s.Pc(EventLoop), s'.Pc(EventLoop);
             AtClient(pc) && AtClient(pc') && pc'.fd == pc.fd && pc'.id == pc.id
    ensures ReadInv(s')
  {
  }

  lemma LookupKeepsReadInv(env: Env, s: State, fd: int)
    requires Core(env, s) && Enabled(env, s, Lookup(fd))
    ensures ReadInv(Apply(env, s, Lookup(fd)))
  {
    assert fd in s.queue ==> EntryInv(s, fd);
  }

  lemma StepKeepsReadInv(env: Env, s: State, step: Step)
    requires Core(env, s) && ReadInv(s) && Enabled(env, s, step)
    ensures ReadInv(Apply(env, s, step))
  {
    if step.Lookup? {
      LookupKeepsReadInv(env, s, step.fd);
    } else if AtClient(Apply(env, s, step).Pc(EventLoop)) {
      StepKeepsClient(env, s, step);
      StepKeepsFds(env, s, step);
      StepKeepsEntries(env, s, step);
      ReadInvMoves(s, Apply(env, s, step));
    }
  }

  predicate Killing(pc: Pc) {
    pc.KillCalled? || pc.KillLocked? || pc.KillClosed? || pc.KillCleared?
  }

  /** The client a thread has forwarded or could not read, and goes on to kill. */
  function MeantBy(pc: Pc): Option<nat> {
    if pc.Forwarded? then Some(pc.id) else if Killing(pc) then pc.meant else None
  }

  predicate InTheMaking(s: State, id: nat) {
    (s.Pc(EventLoop).Created? || s.Pc(EventLoop).Inserting?) && s.Pc(EventLoop).id == id
  }

  /** It exists, is past its insertion, and has or had the descriptor that the kill is for. */
  ghost predicate MeantInv(s: State, t: Thread) {
    var pc := s.Pc(t);
    MeantBy(pc).Some? ==>
      var id := MeantBy(pc).value;
      && id < |s.clients| && !InTheMaking(s, id)
      && (Killing(pc) ==> s.clients[id].fd == pc.fd || s.clients[id].fd == INVALID_SOCKET)
  }

  ghost predicate AllMeantInv(s: State) {
    forall t: Thread :: MeantInv(s, t)
  }

  lemma ServedIsInserted(env: Env, s: State, fd: int)
    requires Core(env, s) && s.lock.None? && s.Holds(fd)
    ensures !InTheMaking(s, s.queue[fd].id)
  {
    assert EntryInv(s, fd);
  }

  function Actor(step: Step): Thread {
    match step
    case Pop(w) => Worker(w)
    case Serve(w, _) => Worker(w)
    case FetchFd(w, _) => Worker(w)
    case LockKill(t) => t
    case Close(t) => t
    case Clear(t) => t
    case Erase(t) => t
    case _ => EventLoop
  }

  lemma StepMovesActor(env: Env, s: State, step: Step, t: Thread)
    requires Enabled(env, s, step) && t != Actor(step)
    ensures Apply(env, s, step).Pc(t) == s.Pc(t)
  {
  }

  /** Only a new client is put in the making. */
  lemma StepMakesNew(env: Env, s: State, step: Step, id: nat)
    requires Enabled(env, s, step) && id < |s.clients| && InTheMaking(Apply(env, s, step), id)
    ensures InTheMaking(s, id)
  {
    if Actor(step) != EventLoop {
      StepMovesActor(env, s, step, EventLoop);
    }
  }

  lemma ServeMeans(env: Env, s: State, w: nat, gps: Point)
    requires Core(env, s) && Enabled(env, s, Serve(w, gps))
    ensures MeantInv(Apply(env, s, Serve(w, gps)), Worker(w))
  {
    if s.Holds(s.FdOf(w)) {
      ServedIsInserted(env, s, s.FdOf(w));
    }
  }

  lemma ReceiveMeans(env: Env, s: State, got: Recv)
    requires ReadInv(s) && Enabled(env, s, Receive(got))
    ensures MeantInv(Apply(env, s, Receive(got)), EventLoop)
  {
  }

  /** Only a serve or a failed receive takes up a new client to kill, and only a fetch or that receive a
      new descriptor to kill it by. */
  lemma ActorGoesOn(env: Env, s: State, step: Step)
    requires Enabled(env, s, step) && !step.Serve? && !step.Receive?
    ensures var pc, pc' := s.Pc(Actor(step)), Apply(env, s, step).Pc(Actor(step));
            && (MeantBy(pc').Some? ==> MeantBy(pc') == MeantBy(pc))
            && (MeantBy(pc').Some? && !step.FetchFd? ==> Killing(pc) && Killing(pc') && pc'.fd == pc.fd)
  {
  }

  lemma FetchMeans(env: Env, s: State, w: nat, fd: int)
    requires MeantInv(s, Worker(w)) && Enabled(env, s, FetchFd(w, fd))
    ensures MeantInv(Apply(env, s, FetchFd(w, fd)), Worker(w))
  {
  }

  /** The actor goes on with the client it meant, or has just forwarded one. */
  lemma ActorMeans(env: Env, s: State, step: Step)
    requires Core(env, s) && ReadInv(s) && MeantInv(s, Actor(step)) && Enabled(env, s, step)
    ensures MeantInv(Apply(env, s, step), Actor(step))
  {
    if step.Serve? {
      ServeMeans(env, s, step.w, step.gps);
    } else if step.Receive? {
      ReceiveMeans(env, s, step.got);
    } else if step.FetchFd? {
      FetchMeans(env, s, step.w, step.fd);
    } else {
      ActorGoesOn(env, s, step);
      KeepsMeant(env, s, step, Actor(step));
    }
  }

  /** A thread that goes on with the same client and descriptor keeps its claim on it. */
  lemma KeepsMeant(env: Env, s: State, step: Step, t: Thread)
    requires MeantInv(s, t) && Enabled(env, s, step)
    requires var pc, pc' := s.Pc(t), Apply(env, s, step).Pc(t);
             && (MeantBy(pc').Some? ==> MeantBy(pc') == MeantBy(pc))
             && (Killing(pc') && MeantBy(pc').Some? ==> Killing(pc) && pc'.fd == pc.fd)
    ensures MeantInv(Apply(env, s, step), t)
  {
    StepKeepsFds(env, s, step);
    var m := MeantBy(s.Pc(t));
    if m.Some? && m.value < |s.clients| && InTheMaking(Apply(env, s, step), m.value) {
      StepMakesNew(env, s, step, m.value);
    }
  }

  lemma StepKeepsMeantInv(env: Env, s: State, step: Step, t: Thread)
    requires Core(env, s) && ReadInv(s) && MeantInv(s, t) && Enabled(env, s, step)
    ensures MeantInv(Apply(env, s, step), t)
  {
    if t == Actor(step) {
      ActorMeans(env, s, step);
    } else {
      StepMovesActor(env, s, step, t);
      KeepsMeant(env, s, step, t);
    }
  }

  // ---------------------------------------------------------------- whole runs

  ghost predicate Inv(env: Env, s: State) {
    Core(env, s) && HistoryInv(env, s) && ReadInv(s) && AllMeantInv(s)
  }

  lemma StepKeepsInv(env: Env, s: State, step: Step)
    requires Inv(env, s) && Enabled(env, s, step)
    ensures Inv(env, Apply(env, s, step))
  {
    StepKeepsCore(env, s, step);
    StepKeepsHistory(env, s, step);
    StepKeepsReadInv(env, s, step);
    forall t: Thread
      ensures MeantInv(Apply(env, s, step), t)
    {
      StepKeepsMeantInv(env, s, step, t);
    }
  }

  lemma {:induction false} RunsKeepInv(env: Env, run: seq<State>, n: nat)
    requires IsRun(env, run) && n < |run|
    ensures Inv(env, run[n])
  {
    if n > 0 {
      RunsKeepInv(env, run, n - 1);
      assert Next(env, run[n - 1], run[n]);
      var step :| Enabled(env, run[n - 1], step) && run[n] == Apply(env, run[n - 1], step);
      StepKeepsInv(env, run[n - 1], step);
    }
  }

  /** The table never exceeds the limit although its size is tested outside the lock; an entry owns
      its open descriptor unless the lock holder is killing it; no client is deleted twice; every
      open descriptor is in the table, in the event loop's hand, or was refused; an insert never
      finds its descriptor already in the table. */
  ghost predicate Safe(env: Env, s: State) {
    && |s.queue| <= env.maxClients
    && (forall fd | fd in s.queue && !s.Dying(fd) ::
          s.Holds(fd) && s.clients[s.queue[fd].id].fd == fd && fd in s.open)
    && (forall id: nat | id < |s.clients| :: s.clients[id].deletions <= 1)
    && (forall fd: int :: fd in s.open <==> (fd in s.queue && !s.Dying(fd)) || s.InHand(fd) || fd in s.refused)
    && (s.Pc(EventLoop).Inserting? ==> s.Pc(EventLoop).fd !in s.queue)
  }

  lemma InvIsSafe(env: Env, s: State)
    requires Core(env, s)
    ensures Safe(env, s)
  {
    CoreOf(env, s);
    assert Critical(s.Pc(EventLoop)) <==> s.lock == Some(EventLoop);
  }

  /** Every state of every interleaving is safe. */
  lemma EveryRunIsSafe(env: Env, run: seq<State>, n: nat)
    requires IsRun(env, run) && n < |run|
    ensures Safe(env, run[n])
  {
    RunsKeepInv(env, run, n);
    InvIsSafe(env, run[n]);
  }

  /** Closing always closes the entry's own open descriptor, of a client not deleted before. */
  lemma KillClosesOwnDescriptor(env: Env, run: seq<State>, n: nat, t: Thread)
    requires IsRun(env, run) && n < |run| && Enabled(env, run[n], Close(t))
    requires run[n].Pc(t).fd in run[n].queue
    ensures var s := run[n]; var fd := s.Pc(t).fd;
            && s.Holds(fd) && s.clients[s.queue[fd].id].fd == fd
            && s.clients[s.queue[fd].id].deletions == 0
            && Apply(env, s, Close(t)).open == s.open - {fd}
  {
    RunsKeepInv(env, run, n);
    var s := run[n];
    assert Critical(s.Pc(t)) <==> s.lock == Some(t);
    assert EntryInv(s, s.Pc(t).fd);
    assert ClientInv(s, s.queue[s.Pc(t).fd].id);
  }

  /** Messages leave the list in the order they entered, one for each complete request; whatever a worker
      forwards is a correction of the latest complete request to that same client at that time, and this
      request came under the last descriptor that the worker had taken from the list. */
  lemma EveryRunForwardsParsedRequests(env: Env, run: seq<State>, n: nat)
    requires IsRun(env, run) && n < |run|
    ensures run[n].pushed == Fds(run[n].popped) + run[n].msglist == Notified(run[n].requests)
    ensures forall f | f in run[n].forwards ::
              && Took(run[n].popped, f.taken, f.w, f.fd)
              && Latest(run[n].requests, f.seen, f.id, f.fd, f.serial, f.x, f.y) && env.corrects(f.x, f.y, f.gps)
  {
    RunsKeepInv(env, run, n);
    forall f | f in run[n].forwards
      ensures Took(run[n].popped, f.taken, f.w, f.fd)
      ensures Latest(run[n].requests, f.seen, f.id, f.fd, f.serial, f.x, f.y) && env.corrects(f.x, f.y, f.gps)
    {
      assert ForwardInv(env, run[n].requests, run[n].popped, f);
    }
  }

  /** A worker's descriptor is the last one it took, and INVALID_SOCKET as long as it has taken none. */
  lemma EveryWorkerHoldsWhatItTook(env: Env, run: seq<State>, n: nat, w: nat)
    requires IsRun(env, run) && n < |run|
    ensures Took(run[n].popped, |run[n].popped|, w, run[n].FdOf(w))
  {
    RunsKeepInv(env, run, n);
  }

  /** Every turn of a worker under the lock: with fd the last descriptor it took, the live client that the
      table has under fd is forwarded, once, if a serial was received for it; otherwise nothing is. */
  lemma EveryTurnServesWhatWasTaken(env: Env, run: seq<State>, n: nat, w: nat, gps: Point, fd: int)
    requires IsRun(env, run) && n < |run| && Enabled(env, run[n], Serve(w, gps))
    requires Took(run[n].popped, |run[n].popped|, w, fd)
    ensures var s, s' := run[n], Apply(env, run[n], Serve(w, gps));
            && s'.clients == s.clients && s'.queue == s.queue && s'.requests == s.requests
            && (fd in s.queue <==> s.Holds(fd) && s.clients[s.queue[fd].id].fd == fd)
            && s'.forwards == s.forwards +
               if fd !in s.queue || s.clients[s.queue[fd].id].serial == "" then []
               else
                 var id := s.queue[fd].id;
                 var c := s.clients[id];
                 [Forward(w, fd, id, c.serial, c.x, c.y, gps, |s.requests|, |s.popped|)]
  {
    RunsKeepInv(env, run, n);
    assert Took(run[n].popped, |run[n].popped|, w, run[n].FdOf(w));
    TookUnique(run[n].popped, |run[n].popped|, w, fd, run[n].FdOf(w));
    if fd in run[n].queue {
      assert EntryInv(run[n], fd);
    }
  }

  lemma TookUnique(ts: seq<Taken>, n: nat, w: nat, fd: int, gd: int)
    requires Took(ts, n, w, fd) && Took(ts, n, w, gd)
    ensures fd == gd
  {
  }

  // ---------------------------------------------------------------- whom the unlocked accesses meet

  /** The lookup of DoRead hands on a client unless the entry is missing or just cleared, and the
      client handed on is already deleted exactly while the lock holder has not yet cleared the entry
      it has deleted. */
  lemma LookupFindsDeletedExactly(env: Env, run: seq<State>, n: nat, fd: int)
    requires IsRun(env, run) && n < |run|
    ensures run[n].Holds(fd) <==> fd in run[n].queue && !run[n].Cleared(fd)
    ensures run[n].Holds(fd) ==>
              (run[n].clients[run[n].queue[fd].id].deletions == 1 <==> run[n].Closed(fd))
  {
    RunsKeepInv(env, run, n);
    if fd in run[n].queue {
      assert EntryInv(run[n], fd);
      assert run[n].Holds(fd) ==> ClientInv(run[n], run[n].queue[fd].id);
    }
  }

  /** When the read goes on to recv, and then to parse, the client is deleted exactly when its entry has
      been erased meanwhile or is being killed: no other client can have come under its descriptor. */
  lemma ReceiveMeetsDeletedExactly(env: Env, run: seq<State>, n: nat)
    requires IsRun(env, run) && n < |run| && AtClient(run[n].Pc(EventLoop))
    ensures var s := run[n]; var pc := s.Pc(EventLoop);
            && pc.id < |s.clients|
            && (s.clients[pc.id].deletions == 1 <==> pc.fd !in s.queue || s.Dying(pc.fd))
            && (s.clients[pc.id].deletions == 0 ==> s.clients[pc.id].fd == pc.fd && s.queue[pc.fd] == At(pc.id))
  {
    RunsKeepInv(env, run, n);
    var s := run[n];
    var pc := s.Pc(EventLoop);
    assert ClientInv(s, pc.id);
    if pc.fd in s.queue {
      assert EntryInv(s, pc.fd);
    }
  }

  /** A failed receive calls a kill for the client read, by the descriptor looked up if it is still there. */
  lemma FailedReceiveCallsKill(env: Env, run: seq<State>, n: nat)
    requires IsRun(env, run) && n < |run| && run[n].Pc(EventLoop).Reading?
    ensures var s := run[n]; var pc := s.Pc(EventLoop);
            && pc.id < |s.clients| && Enabled(env, s, Receive(Failed))
            && Apply(env, s, Receive(Failed)).Pc(EventLoop) ==
               KillCalled(if s.clients[pc.id].deletions == 0 then pc.fd else INVALID_SOCKET, Some(pc.id))
  {
    RunsKeepInv(env, run, n);
    assert ClientInv(run[n], run[n].Pc(EventLoop).id);
  }

  /** The kill of a worker, or of a failed receive, deletes the client it is meant for exactly when nobody
      has deleted it before, which is exactly when the entry still leads to it; otherwise it deletes
      whatever client has come under that descriptor since. */
  lemma KillsItsClientExactly(env: Env, run: seq<State>, n: nat, t: Thread)
    requires IsRun(env, run) && n < |run| && run[n].Pc(t).KillLocked? && run[n].Pc(t).meant.Some?
    ensures var s := run[n]; var fd := s.Pc(t).fd; var id := s.Pc(t).meant.value;
            var s' := Apply(env, s, Close(t));
            && id < |s.clients| == |s'.clients|
            && (s.clients[id].deletions == 0 <==> fd in s.queue && s.queue[fd] == At(id))
            && (s.clients[id].deletions == 0 ==> s'.clients[id].deletions == 1)
            && (s.clients[id].deletions == 1 && fd in s.queue ==>
                  && s.Holds(fd) && s.queue[fd].id != id
                  && s.clients[s.queue[fd].id].deletions == 0 && s'.clients[s.queue[fd].id].deletions == 1)
  {
    RunsKeepInv(env, run, n);
    var s := run[n];
    var fd, id := s.Pc(t).fd, s.Pc(t).meant.value;
    assert Critical(s.Pc(t)) <==> s.lock == Some(t);
    assert MeantInv(s, t);
    assert ClientInv(s, id);
    if fd in s.queue {
      assert EntryInv(s, fd);
      assert ClientInv(s, s.queue[fd].id);
    }
  }

  lemma {:induction false} RefusedKept(env: Env, run: seq<State>, m: nat, n: nat)
    requires IsRun(env, run) && m <= n < |run|
    ensures run[m].refused <= run[n].refused
    decreases n
  {
    if m < n {
      RefusedKept(env, run, m, n - 1);
      assert Next(env, run[n - 1], run[n]);
    }
  }

  /** A connection refused for lack of room is never closed: its descriptor stays open for good. */
  lemma RefusedStaysOpen(env: Env, run: seq<State>, m: nat, n: nat, fd: int)
    requires IsRun(env, run) && m <= n < |run| && fd in run[m].refused
    ensures fd in run[n].open
  {
    RefusedKept(env, run, m, n);
    EveryRunIsSafe(env, run, n);
  }

  // ---------------------------------------------------------------- runs that show it

  lemma Extend(env: Env, run: seq<State>, step: Step) returns (longer: seq<State>)
    requires IsRun(env, run) && Enabled(env, run[|run| - 1], step)
    ensures IsRun(env, longer) && |longer| == |run| + 1
    ensures longer[|longer| - 1] == Apply(env, run[|run| - 1], step)
  {
    longer := run + [Apply(env, run[|run| - 1], step)];
    forall i | 0 < i < |longer|
      ensures Next(env, longer[i - 1], longer[i])
    {
      if i < |run| {
        assert Next(env, run[i - 1], run[i]);
      }
    }
  }

  /** The state in which fd has been accepted and inserted as a new client. */
  function Connected(s: State, fd: int): State {
    s.(open := s.open + {fd}, clients := s.clients + [Client(fd, "", "?", "?", 0)],
       queue := s.queue[fd := At(|s.clients|)]).Go(EventLoop, Top)
  }

  lemma Connect(env: Env, run: seq<State>, fd: int) returns (longer: seq<State>)
    requires IsRun(env, run)
    requires var s := run[|run| - 1];
             && s.Pc(EventLoop).Top? && s.lock.None? && |s.queue| < env.maxClients
             && 0 <= fd && fd !in s.open && fd !in s.queue
    ensures IsRun(env, longer) && longer[|longer| - 1] == Connected(run[|run| - 1], fd)
  {
    longer := Extend(env, run, Accept(fd));
    longer := Extend(env, longer, NewClient("?", "?"));
    longer := Extend(env, longer, LockInsert);
    longer := Extend(env, longer, Insert);
    assert longer[|longer| - 1].pcs == Connected(run[|run| - 1], fd).pcs;
  }

  /** The state in which thread t has killed the client under its descriptor. */
  function Killed(s: State, t: Thread): State
    requires s.Pc(t).KillCalled? && s.Holds(s.Pc(t).fd)
  {
    Deleted(s, s.queue[s.Pc(t).fd].id).(queue := s.queue - {s.Pc(t).fd}).Go(t, Top)
  }

  lemma Kill(env: Env, run: seq<State>, t: Thread) returns (longer: seq<State>)
    requires IsRun(env, run)
    requires var s := run[|run| - 1]; s.Pc(t).KillCalled? && s.lock.None? && s.Holds(s.Pc(t).fd)
    ensures IsRun(env, longer) && longer[|longer| - 1] == Killed(run[|run| - 1], t)
  {
    longer := Extend(env, run, LockKill(t));
    longer := Extend(env, longer, Close(t));
    longer := Extend(env, longer, Clear(t));
    longer := Extend(env, longer, Erase(t));
    var s, r := longer[|longer| - 1], Killed(run[|run| - 1], t);
    assert s.pcs == r.pcs;
    assert s.queue == r.queue;
  }

  /** Worker 0 has forwarded client 0 and fetched its descriptor. */
  function Served(gps: Point): State {
    Connected(START, 5).(
      clients := [Client(5, "s", "1.00", "2.00", 0)], stale := map[0 := 5],
      pushed := [5], popped := [Taken(0, 5)], requests := [Request(0, 5, "s", "1.00", "2.00")],
      forwards := [Forward(0, 5, 0, "s", "1.00", "2.00", gps, 1, 1)],
      pcs := map[EventLoop := Top, Worker(0) := KillCalled(5, Some(0))])
  }

  lemma ServeOne(env: Env, gps: Point) returns (run: seq<State>)
    requires env.maxClients > 0 && env.corrects("1.00", "2.00", gps)
    ensures IsRun(env, run) && run[|run| - 1] == Served(gps)
  {
    run := ReceiveOne(env);
    run := Extend(env, run, Pop(0));
    run := Extend(env, run, Serve(0, gps));
    run := Extend(env, run, FetchFd(0, 5));
    assert run[|run| - 1].pcs == Served(gps).pcs;
    assert run[|run| - 1].clients == Served(gps).clients;
  }

  lemma ReceiveOne(env: Env) returns (run: seq<State>)
    requires env.maxClients > 0
    ensures IsRun(env, run)
    ensures run[|run| - 1] ==
            Connected(START, 5).(clients := [Client(5, "s", "1.00", "2.00", 0)], msglist := [5],
                                 pushed := [5], requests := [Request(0, 5, "s", "1.00", "2.00")])
  {
    run := Connect(env, [START], 5);
    run := Extend(env, run, Lookup(5));
    run := Extend(env, run, Receive(Whole("s", "1.00", "2.00")));
    run := Extend(env, run, Parse);
    assert run[|run| - 1].pcs == map[EventLoop := Top];
    assert run[|run| - 1].clients == [Client(5, "s", "1.00", "2.00", 0)];
  }

  /** Descriptor 5 connects, sends a request and is served by worker 0; while that worker is inside
      DoKill another read event for 5 is handled, and the lookup hands on the deleted client. */
  lemma LookupOfDeletedHappens(env: Env, gps: Point) returns (run: seq<State>)
    requires env.maxClients > 0 && env.corrects("1.00", "2.00", gps)
    ensures IsRun(env, run)
    ensures var s := run[|run| - 1];
            s.Pc(EventLoop) == Reading(5, 0) && |s.clients| == 1 && s.clients[0].deletions == 1
  {
    run := ServeOne(env, gps);
    run := Extend(env, run, LockKill(Worker(0)));
    run := Extend(env, run, Close(Worker(0)));
    run := Extend(env, run, Lookup(5));
  }

  /** The lookup comes first, and the whole kill of worker 0 fits between it and the receive: the
      client is gone although nobody is killing anything any more. */
  lemma ReceiveOfErasedHappens(env: Env, gps: Point) returns (run: seq<State>)
    requires env.maxClients > 0 && env.corrects("1.00", "2.00", gps)
    ensures IsRun(env, run)
    ensures var s := run[|run| - 1];
            && s.Pc(EventLoop) == Reading(5, 0) && |s.clients| == 1 && s.clients[0].deletions == 1
            && 5 !in s.queue && s.lock.None? && Enabled(env, s, Receive(Failed))
  {
    run := ServeOne(env, gps);
    run := Extend(env, run, Lookup(5));
    run := Kill(env, run, Worker(0));
  }

  /** Client 0 hangs up after worker 0 has fetched its descriptor; a new connection gets the same
      descriptor, and the worker's kill deletes that new client. */
  lemma WorkerKillsAnotherHappens(env: Env, gps: Point) returns (run: seq<State>)
    requires env.maxClients > 0 && env.corrects("1.00", "2.00", gps)
    ensures IsRun(env, run)
    ensures var s := run[|run| - 1];
            |s.clients| == 2 && s.clients[0].deletions == 1 && s.clients[1].deletions == 1
  {
    run := ServeOne(env, gps);
    run := Extend(env, run, Hangup(5));
    run := Kill(env, run, EventLoop);
    assert run[|run| - 1].queue == map[];
    run := Connect(env, run, 5);
    run := Kill(env, run, Worker(0));
  }

  /** A kill between recv and parse: parse then works on a deleted client. */
  lemma ParseOfErasedHappens(env: Env, gps: Point) returns (run: seq<State>)
    requires env.maxClients > 0 && env.corrects("1.00", "2.00", gps)
    ensures IsRun(env, run)
    ensures var s := run[|run| - 1];
            && s.Pc(EventLoop) == Parsing(5, 0, Partial) && |s.clients| == 1 && s.clients[0].deletions == 1
            && 5 !in s.queue && s.lock.None? && Enabled(env, s, Parse)
  {
    run := ServeOne(env, gps);
    run := Extend(env, run, Lookup(5));
    run := Extend(env, run, Receive(Partial));
    run := Kill(env, run, Worker(0));
  }

  /** Two complete requests on one connection before any worker is there. */
  lemma ReceiveTwo(env: Env) returns (run: seq<State>)
    requires env.maxClients > 0
    ensures IsRun(env, run)
    ensures var s := run[|run| - 1];
            && s.lock.None? && s.pcs == map[EventLoop := Top] && s.queue == map[5 := At(0)]
            && s.clients == [Client(5, "s", "3.00", "4.00", 0)]
            && s.msglist == [5, 5] && s.popped == [] && s.forwards == []
            && s.requests == [Request(0, 5, "s", "1.00", "2.00"), Request(0, 5, "s", "3.00", "4.00")]
  {
    run := ReceiveOne(env);
    run := Extend(env, run, Lookup(5));
    run := Extend(env, run, Receive(Whole("s", "3.00", "4.00")));
    run := Extend(env, run, Parse);
    assert run[|run| - 1].pcs == map[EventLoop := Top];
  }

  /** Two workers then forward the second request twice, and nobody ever forwards the first. */
  lemma LatestForwardedTwiceHappens(env: Env, gps: Point) returns (run: seq<State>)
    requires env.maxClients > 0 && env.corrects("3.00", "4.00", gps)
    ensures IsRun(env, run)
    ensures var s := run[|run| - 1]; var f := Forward(0, 5, 0, "s", "3.00", "4.00", gps, 2, 2);
            s.forwards == [f, f.(w := 1)] && |s.requests| == 2 && s.requests[0].x == "1.00" && s.msglist == []
  {
    run := ReceiveTwo(env);
    run := Extend(env, run, Pop(0));
    run := Extend(env, run, Pop(1));
    run := Extend(env, run, Serve(0, gps));
    run := Extend(env, run, Serve(1, gps));
  }

  /** Clients 5 and 6 each send a request. */
  lemma ReceiveFromTwo(env: Env) returns (run: seq<State>)
    requires env.maxClients > 1
    ensures IsRun(env, run)
    ensures var s := run[|run| - 1];
            && s.lock.None? && s.pcs == map[EventLoop := Top] && s.queue == map[5 := At(0), 6 := At(1)]
            && s.clients == [Client(5, "s", "1.00", "2.00", 0), Client(6, "t", "3.00", "4.00", 0)]
            && s.msglist == [5, 6] && s.popped == [] && s.forwards == [] && |s.requests| == 2
  {
    run := ReceiveOne(env);
    run := Connect(env, run, 6);
    run := Extend(env, run, Lookup(6));
    run := Extend(env, run, Receive(Whole("t", "3.00", "4.00")));
    run := Extend(env, run, Parse);
    assert run[|run| - 1].pcs == map[EventLoop := Top];
  }

  /** The worker that comes first serves the client whose message was first, the next one the other. */
  lemma TwoServedInOrder(env: Env, p: Point, q: Point) returns (run: seq<State>)
    requires env.maxClients > 1 && env.corrects("1.00", "2.00", p) && env.corrects("3.00", "4.00", q)
    ensures IsRun(env, run)
    ensures var s := run[|run| - 1];
            && s.popped == [Taken(0, 5), Taken(1, 6)] && s.msglist == []
            && s.forwards == [Forward(1, 6, 1, "t", "3.00", "4.00", q, 2, 2),
                              Forward(0, 5, 0, "s", "1.00", "2.00", p, 2, 2)]
  {
    run := ReceiveFromTwo(env);
    run := Extend(env, run, Pop(0));
    run := Extend(env, run, Pop(1));
    run := Extend(env, run, Serve(1, q));
    run := Extend(env, run, Serve(0, p));
  }

  /** A connection that breaks before its request is deleted and its descriptor closed. */
  lemma FailedReceiveHappens(env: Env) returns (run: seq<State>)
    requires env.maxClients > 0
    ensures IsRun(env, run)
    ensures var s := run[|run| - 1];
            s.queue == map[] && s.open == {} && |s.clients| == 1 && s.clients[0].deletions == 1
  {
    run := Connect(env, [START], 5);
    run := Extend(env, run, Lookup(5));
    run := Extend(env, run, Receive(Failed));
    run := Kill(env, run, EventLoop);
    assert run[|run| - 1].queue == map[];
  }

  /** With no room, an accepted descriptor is refused at once. */
  lemma RefusedHappens(env: Env) returns (run: seq<State>)
    requires env.maxClients == 0
    ensures IsRun(env, run) && run[|run| - 1].refused == {5} && run[|run| - 1].open == {5}
  {
    run := [START];
    run := Extend(env, run, Accept(5));
    run := Extend(env, run, NewClient("?", "?"));
  }
}
