/**
 The rendezvous of clients and servers in `ipc/src/lib.rs`.

 Clients find a server in a cookie file, which they lock. A client that finds no
 server, or fails to contact it, starts one, and gives it a cookie; the server
 serves whoever sends that cookie. Servers that start themselves do the same, but
 publish the cookie first (`bootstrap`).

 Every client is at some point of its call. Contacting a server may fail, and
 clients and servers may fail at any time.
 */
module Rendezvous {
  import opened Bytes

  type Client = nat
  type Address = nat
  type Cookie = nat

  /** The cookie file: nothing, a cookie without a usable address, or both. */
  datatype File = Empty | Damaged | Entry(cookie: Cookie, addr: Address)

  /** A connection: what was sent, and whether more can come. */
  datatype Connection = Connection(sent: Option<Cookie>, closed: bool)

  /**
   A server: the cookie that was minted for it, the one it received first, and its
   connections, of which it has accepted some.
   */
  datatype Server = Server(
    alive: bool, minted: Cookie, adopted: Option<Cookie>, conns: seq<Connection>, accepted: nat, turnedAway: bool)

  datatype Phase =
    | Idle
    // With the file locked:
    | Opened(bootstrap: bool)
    | Contacting(bootstrap: bool, addr: Address, cookie: Cookie)
    | Greeting(bootstrap: bool, addr: Address, cookie: Cookie, slot: nat)
    | Clearing
    | Starting(bootstrap: bool)
    | Introducing(addr: Address, cookie: Cookie, external: bool)
    | Confiding(addr: Address, cookie: Cookie, external: bool, slot: nat)
    | Truncating(addr: Address, cookie: Cookie)
    | WritingCookie(addr: Address, cookie: Cookie)
    | WritingAddress(addr: Address, cookie: Cookie)
    | Closing(addr: Address, cookie: Cookie)
    // With the file closed:
    | Calling(addr: Address, cookie: Cookie)
    | Sending(addr: Address, cookie: Cookie, slot: nat)

  /**
   The state of all clients and servers. `unreachable` are the servers that a client
   with the lock failed to contact, and `registered` those that were in the file.
   */
  datatype Variables = Variables(
    clients: seq<Phase>, lock: Option<Client>, file: File, servers: map<Address, Server>,
    unreachable: set<Address>, registered: seq<Address>)

  predicate HasLock(p: Phase) {
    !p.Idle? && !p.Calling? && !p.Sending?
  }

  predicate HasSlot(p: Phase) {
    p.Greeting? || p.Confiding? || p.Sending?
  }

  predicate HasTarget(p: Phase) {
    !p.Idle? && !p.Opened? && !p.Clearing? && !p.Starting?
  }

  /** Such a client failed to contact the registered server, if there was one. */
  predicate Replaces(p: Phase) {
    || p.Clearing? || p.Starting? || p.Introducing? || p.Confiding?
    || p.Truncating? || p.WritingCookie? || p.WritingAddress?
  }

  datatype Step =
    | Open(i: Client, bootstrap: bool)
    | Read(i: Client)
    | Contact(i: Client)
    | ContactFails(i: Client)
    | Greet(i: Client)
    | GreetFails(i: Client)
    | Clear(i: Client)
    | Start(i: Client, addr: Address, cookie: Cookie, external: bool)
    | Introduce(i: Client)
    | Confide(i: Client)
    | Truncate(i: Client)
    | WriteCookie(i: Client)
    | WriteAddress(i: Client)
    | Close(i: Client)
    | Call(i: Client)
    | Send(i: Client)
    | Abort(i: Client)
    | Accept(addr: Address)
    | Die(addr: Address)

  predicate Listening(v: Variables, addr: Address) {
    addr in v.servers && v.servers[addr].alive
  }

  /** With `reuse`, a server may get the address of one that is gone. */
  predicate IsFree(v: Variables, addr: Address, reuse: bool) {
    addr in v.servers ==> reuse && !v.servers[addr].alive
  }

  predicate SlotExists(v: Variables, p: Phase) {
    HasSlot(p) ==> p.addr in v.servers && p.slot < |v.servers[p.addr].conns|
  }

  predicate CanAccept(s: Server) {
    s.alive && s.accepted < |s.conns| && (s.conns[s.accepted].sent.Some? || s.conns[s.accepted].closed)
  }

  predicate Enabled(v: Variables, step: Step, reuse: bool) {
    if step.Accept? then step.addr in v.servers && CanAccept(v.servers[step.addr])
    else if step.Die? then Listening(v, step.addr)
    else
      && step.i < |v.clients|
      && var p := v.clients[step.i];
      && SlotExists(v, p)
      && match step
         case Open(_, _) => p.Idle? && v.lock.None?
         case Read(_) => p.Opened?
         case Contact(_) => p.Contacting? && Listening(v, p.addr)
         case ContactFails(_) => p.Contacting?
         case Greet(_) => p.Greeting?
         case GreetFails(_) => p.Greeting? && p.bootstrap
         case Clear(_) => p.Clearing?
         case Start(_, addr, _, external) => p.Starting? && IsFree(v, addr, reuse) && !(p.bootstrap && external)
         case Introduce(_) => p.Introducing? && Listening(v, p.addr)
         case Confide(_) => p.Confiding?
         case Truncate(_) => p.Truncating?
         case WriteCookie(_) => p.WritingCookie?
         case WriteAddress(_) => p.WritingAddress?
         case Close(_) => p.Closing?
         case Call(_) => p.Calling? && Listening(v, p.addr)
         case Send(_) => p.Sending?
         case Abort(_) => !p.Idle?
  }

  function Connected(s: Server): Server {
    s.(conns := s.conns + [Connection(None, false)])
  }

  function Receives(s: Server, slot: nat, c: Connection): Server
    requires slot < |s.conns|
  {
    s.(conns := s.conns[slot := c])
  }

  /** The server takes the first cookie for its own, and compares the others to it. */
  function Accepts(s: Server): Server
    requires CanAccept(s)
  {
    var c := s.conns[s.accepted].sent;
    var next := s.(accepted := s.accepted + 1);
    if s.adopted.None? then (if c.Some? then next.(adopted := c) else s.(alive := false))
    else if c.Some? && c != s.adopted then next.(turnedAway := true)
    else next
  }

  /** What a client finds in the file. */
  function Found(file: File, bootstrap: bool): Phase {
    match file
    case Empty => Starting(bootstrap)
    case Damaged => if bootstrap then Starting(true) else Clearing
    case Entry(cookie, addr) => Contacting(bootstrap, addr, cookie)
  }

  function MoveTo(v: Variables, i: Client, p: Phase): Variables
    requires i < |v.clients|
  {
    v.(clients := v.clients[i := p], lock := if HasLock(v.clients[i]) && !HasLock(p) then None else v.lock)
  }

  function WithServer(v: Variables, addr: Address, s: Server): Variables {
    v.(servers := v.servers[addr := s])
  }

  /** The client gives up: its connection, if it has one, is closed. */
  function HangUp(v: Variables, p: Phase): (w: Variables)
    requires SlotExists(v, p)
    ensures w == v.(servers := w.servers)
  {
    if HasSlot(p)
    then
      var s := v.servers[p.addr];
      WithServer(v, p.addr, Receives(s, p.slot, s.conns[p.slot].(closed := true)))
    else v
  }

  function SendCookie(v: Variables, p: Phase): (w: Variables)
    requires SlotExists(v, p) && HasSlot(p)
    ensures w == v.(servers := w.servers)
  {
    var s := v.servers[p.addr];
    WithServer(v, p.addr, Receives(s, p.slot, s.conns[p.slot].(sent := Some(p.cookie))))
  }

  function Connect(v: Variables, addr: Address): (w: Variables)
    requires addr in v.servers
    ensures w == v.(servers := w.servers)
  {
    WithServer(v, addr, Connected(v.servers[addr]))
  }

  function Apply(v: Variables, step: Step, reuse: bool): Variables
    requires Enabled(v, step, reuse)
  {
    if step.Accept? then WithServer(v, step.addr, Accepts(v.servers[step.addr]))
    else if step.Die? then WithServer(v, step.addr, v.servers[step.addr].(alive := false))
    else
      var i := step.i;
      var p := v.clients[i];
      match step
      case Open(_, bootstrap) => MoveTo(v, i, Opened(bootstrap)).(lock := Some(i))
      case Read(_) => MoveTo(v, i, Found(v.file, p.bootstrap))
      case Contact(_) =>
        MoveTo(Connect(v, p.addr), i, Greeting(p.bootstrap, p.addr, p.cookie, |v.servers[p.addr].conns|))
      case ContactFails(_) =>
        MoveTo(v, i, if p.bootstrap then Starting(true) else Clearing).(unreachable := v.unreachable + {p.addr})
      case Greet(_) => MoveTo(SendCookie(v, p), i, Idle)
      case GreetFails(_) => MoveTo(HangUp(v, p), i, Starting(true)).(unreachable := v.unreachable + {p.addr})
      case Clear(_) => MoveTo(v, i, Idle).(file := Empty)
      case Start(_, addr, cookie, external) =>
        MoveTo(WithServer(v, addr, Server(true, cookie, None, [], 0, false)), i,
               if p.bootstrap then Truncating(addr, cookie) else Introducing(addr, cookie, external))
      case Introduce(_) =>
        MoveTo(Connect(v, p.addr), i, Confiding(p.addr, p.cookie, p.external, |v.servers[p.addr].conns|))
      case Confide(_) =>
        MoveTo(SendCookie(v, p), i, if p.external then Truncating(p.addr, p.cookie) else Closing(p.addr, p.cookie))
      case Truncate(_) => MoveTo(v, i, WritingCookie(p.addr, p.cookie)).(file := Empty)
      case WriteCookie(_) => MoveTo(v, i, WritingAddress(p.addr, p.cookie)).(file := Damaged)
      case WriteAddress(_) =>
        MoveTo(v, i, Closing(p.addr, p.cookie))
        .(file := Entry(p.cookie, p.addr), registered := v.registered + [p.addr])
      case Close(_) => MoveTo(v, i, Calling(p.addr, p.cookie))
      case Call(_) => MoveTo(Connect(v, p.addr), i, Sending(p.addr, p.cookie, |v.servers[p.addr].conns|))
      case Send(_) => MoveTo(SendCookie(v, p), i, Idle)
      case Abort(_) => MoveTo(HangUp(v, p), i, Idle)
  }

  /** No call is under way, and the file is left over from servers that are gone. */
  predicate Init(v: Variables) {
    && (forall i :: 0 <= i < |v.clients| ==> v.clients[i].Idle?)
    && v.lock.None? && v.unreachable == {}
    && (v.file.Entry? ==> v.file.addr in v.servers && v.servers[v.file.addr].minted == v.file.cookie)
    && (forall a :: a in v.servers ==> v.servers[a] == Server(false, v.servers[a].minted, None, [], 0, false))
    && v.registered == if v.file.Entry? then [v.file.addr] else []
  }

  ghost predicate Next(v: Variables, v': Variables, reuse: bool) {
    exists step :: Enabled(v, step, reuse) && v' == Apply(v, step, reuse)
  }

  ghost predicate IsRun(run: seq<Variables>, reuse: bool) {
    && run != [] && Init(run[0])
    && forall k :: 0 < k < |run| ==> Next(run[k - 1], run[k], reuse)
  }

  // ----- The lock is held by one client

  ghost predicate LockInv(v: Variables) {
    forall i :: 0 <= i < |v.clients| ==> (HasLock(v.clients[i]) <==> v.lock == Some(i))
  }

  lemma LockKept(v: Variables, step: Step, reuse: bool)
    requires LockInv(v) && Enabled(v, step, reuse)
    ensures LockInv(Apply(v, step, reuse))
  {
    hide Apply, Accepts;
    var w := Apply(v, step, reuse);
    if step.Accept? || step.Die? {
      ServersOnly(v, step, reuse);
    } else {
      LockMoves(v, step, reuse);
      assert forall j :: 0 <= j < |v.clients| && j != step.i ==> w.clients[j] == v.clients[j];
    }
  }

  lemma ServersOnly(v: Variables, step: Step, reuse: bool)
    requires Enabled(v, step, reuse) && (step.Accept? || step.Die?)
    ensures Apply(v, step, reuse) == v.(servers := Apply(v, step, reuse).servers)
  {
    hide Accepts;
  }

  /** Only opening the file takes the lock, and only its holder gives it back. */
  lemma LockMoves(v: Variables, step: Step, reuse: bool)
    requires Enabled(v, step, reuse) && !step.Accept? && !step.Die?
    ensures var w, i := Apply(v, step, reuse), step.i;
            && |w.clients| == |v.clients| && w.clients == v.clients[i := w.clients[i]]
            && (step.Open? ==> v.lock.None? && w.lock == Some(i) && HasLock(w.clients[i]) && !HasLock(v.clients[i]))
            && (!step.Open? ==> HasLock(w.clients[i]) ==> HasLock(v.clients[i]))
            && (!step.Open? ==> w.lock == if HasLock(v.clients[i]) && !HasLock(w.clients[i]) then None else v.lock)
  {
    hide HangUp, SendCookie, Connect, Accepts;
  }

  // ----- The cookies agree

  /** A server received no other cookie than the one that was minted for it, and turned nobody away. */
  ghost predicate ServerAgrees(s: Server) {
    && (s.adopted.Some? ==> s.adopted == Some(s.minted))
    && (forall k :: 0 <= k < |s.conns| && s.conns[k].sent.Some? ==> s.conns[k].sent == Some(s.minted))
    && !s.turnedAway
  }

  ghost predicate Agreement(v: Variables) {
    forall a :: a in v.servers ==> ServerAgrees(v.servers[a])
  }

  predicate Knows(v: Variables, addr: Address, cookie: Cookie) {
    addr in v.servers && v.servers[addr].minted == cookie
  }

  ghost predicate ClientAgrees(v: Variables, p: Phase) {
    (HasTarget(p) ==> Knows(v, p.addr, p.cookie)) && SlotExists(v, p)
  }

  ghost predicate CookieInv(v: Variables) {
    && Agreement(v)
    && (v.file.Entry? ==> Knows(v, v.file.addr, v.file.cookie))
    && forall i :: 0 <= i < |v.clients| ==> ClientAgrees(v, v.clients[i])
  }

  lemma ServerChanged(v: Variables, addr: Address, s: Server)
    requires CookieInv(v) && ServerAgrees(s)
    requires addr in v.servers ==> s.minted == v.servers[addr].minted && |s.conns| >= |v.servers[addr].conns|
    ensures CookieInv(WithServer(v, addr, s))
  {
    hide ServerAgrees;
    var w := WithServer(v, addr, s);
    forall i | 0 <= i < |w.clients| ensures ClientAgrees(w, w.clients[i]) {
      assert ClientAgrees(v, v.clients[i]);
    }
  }

  lemma ClientMoved(v: Variables, i: Client, p: Phase)
    requires CookieInv(v) && i < |v.clients| && ClientAgrees(v, p)
    ensures CookieInv(MoveTo(v, i, p))
  {
    hide ServerAgrees;
    var w := MoveTo(v, i, p);
    forall j | 0 <= j < |w.clients| ensures ClientAgrees(w, w.clients[j]) {
      assert j != i ==> ClientAgrees(v, v.clients[j]);
    }
  }

  lemma FileChanged(v: Variables, file: File, lock: Option<Client>, unreachable: set<Address>, registered: seq<Address>)
    requires CookieInv(v) && (file.Entry? ==> Knows(v, file.addr, file.cookie))
    ensures CookieInv(v.(file := file, lock := lock, unreachable := unreachable, registered := registered))
  {
    hide ServerAgrees;
    var w := v.(file := file, lock := lock, unreachable := unreachable, registered := registered);
    forall j | 0 <= j < |w.clients| ensures ClientAgrees(w, w.clients[j]) {
      assert ClientAgrees(v, v.clients[j]);
    }
  }

  lemma ConnectedAgrees(v: Variables, addr: Address)
    requires CookieInv(v) && addr in v.servers
    ensures CookieInv(Connect(v, addr))
  {
    ServerChanged(v, addr, Connected(v.servers[addr]));
  }

  lemma SentAgrees(v: Variables, p: Phase)
    requires CookieInv(v) && ClientAgrees(v, p) && HasSlot(p)
    ensures CookieInv(SendCookie(v, p))
  {
    var s := v.servers[p.addr];
    ServerChanged(v, p.addr, Receives(s, p.slot, s.conns[p.slot].(sent := Some(p.cookie))));
  }

  lemma HangUpAgrees(v: Variables, p: Phase)
    requires CookieInv(v) && ClientAgrees(v, p)
    ensures CookieInv(HangUp(v, p))
  {
    if HasSlot(p) {
      var s := v.servers[p.addr];
      assert s.conns[p.slot].sent.Some? ==> s.conns[p.slot].sent == Some(s.minted);
      ServerChanged(v, p.addr, Receives(s, p.slot, s.conns[p.slot].(closed := true)));
    }
  }

  lemma AcceptAgrees(v: Variables, addr: Address)
    requires CookieInv(v) && addr in v.servers && CanAccept(v.servers[addr])
    ensures CookieInv(WithServer(v, addr, Accepts(v.servers[addr])))
  {
    ServerChanged(v, addr, Accepts(v.servers[addr]));
  }

  lemma CookieKept(v: Variables, step: Step)
    requires CookieInv(v) && Enabled(v, step, false)
    ensures CookieInv(Apply(v, step, false))
  {
    hide CookieInv, ServerAgrees, SendCookie, HangUp, Connect, Accepts, LockInv;
    if step.Accept? {
      AcceptAgrees(v, step.addr);
    } else if step.Die? {
      DeathAgrees(v, step.addr);
    } else {
      var i, p := step.i, v.clients[step.i];
      Unfolded(v, i);
      if step.Contact? || step.Introduce? || step.Call? {
        ConnectKept(v, step);
      } else if step.Greet? || step.Confide? || step.Send? {
        SendKept(v, step);
      } else if step.GreetFails? || step.Abort? {
        HangUpKept(v, step);
      } else if step.Start? {
        var q := Apply(v, step, false).clients[i];
        NewServerAgrees(v, step.addr, step.cookie);
        ClientMoved(WithServer(v, step.addr, Server(true, step.cookie, None, [], 0, false)), i, q);
      } else {
        var v' := Apply(v, step, false);
        ClientMoved(v, i, v'.clients[i]);
        FileChanged(MoveTo(v, i, v'.clients[i]), v'.file, v'.lock, v'.unreachable, v'.registered);
      }
    }
  }

  lemma ConnectKept(v: Variables, step: Step)
    requires CookieInv(v) && Enabled(v, step, false) && (step.Contact? || step.Introduce? || step.Call?)
    ensures CookieInv(Apply(v, step, false))
  {
    hide CookieInv, ServerAgrees;
    var i, p := step.i, v.clients[step.i];
    Unfolded(v, i);
    ConnectedAgrees(v, p.addr);
    ClientMoved(Connect(v, p.addr), i, Apply(v, step, false).clients[i]);
  }

  lemma SendKept(v: Variables, step: Step)
    requires CookieInv(v) && Enabled(v, step, false) && (step.Greet? || step.Confide? || step.Send?)
    ensures CookieInv(Apply(v, step, false))
  {
    hide CookieInv, ServerAgrees;
    var i, p := step.i, v.clients[step.i];
    Unfolded(v, i);
    SentAgrees(v, p);
    ClientMoved(SendCookie(v, p), i, Apply(v, step, false).clients[i]);
  }

  lemma HangUpKept(v: Variables, step: Step)
    requires CookieInv(v) && Enabled(v, step, false) && (step.GreetFails? || step.Abort?)
    ensures CookieInv(Apply(v, step, false))
  {
    hide CookieInv, ServerAgrees;
    var i, p := step.i, v.clients[step.i];
    Unfolded(v, i);
    HangUpAgrees(v, p);
    var v' := Apply(v, step, false);
    ClientMoved(HangUp(v, p), i, v'.clients[i]);
    var w := MoveTo(HangUp(v, p), i, v'.clients[i]);
    Unfolded(w, i);
    FileChanged(w, w.file, w.lock, v'.unreachable, w.registered);
  }

  lemma Unfolded(v: Variables, i: Client)
    requires CookieInv(v) && i < |v.clients|
    ensures ClientAgrees(v, v.clients[i]) && (v.file.Entry? ==> Knows(v, v.file.addr, v.file.cookie))
  {
  }

  lemma DeathAgrees(v: Variables, addr: Address)
    requires CookieInv(v) && addr in v.servers
    ensures CookieInv(WithServer(v, addr, v.servers[addr].(alive := false)))
  {
    ServerChanged(v, addr, v.servers[addr].(alive := false));
  }

  lemma NewServerAgrees(v: Variables, addr: Address, cookie: Cookie)
    requires CookieInv(v) && addr !in v.servers
    ensures CookieInv(WithServer(v, addr, Server(true, cookie, None, [], 0, false)))
  {
    ServerChanged(v, addr, Server(true, cookie, None, [], 0, false));
  }

  // ----- A registered server is replaced only if it could not be contacted

  ghost predicate AllIn(registered: seq<Address>, unreachable: set<Address>) {
    forall j :: 0 <= j < |registered| ==> registered[j] in unreachable
  }

  ghost predicate AllUnreachable(v: Variables) {
    AllIn(v.registered, v.unreachable)
  }

  ghost predicate ClientRegisters(v: Variables, p: Phase) {
    && (p.Contacting? || p.Greeting? ==> v.file == Entry(p.cookie, p.addr))
    && (Replaces(p) ==> AllUnreachable(v))
  }

  ghost predicate FileInv(v: Variables) {
    && (forall j :: 0 <= j < |v.registered| - 1 ==> v.registered[j] in v.unreachable)
    && (v.file.Entry? ==> v.registered != [] && v.registered[|v.registered| - 1] == v.file.addr)
    && (!v.file.Entry? ==> AllUnreachable(v))
  }

  ghost predicate RegistrationInv(v: Variables) {
    && LockInv(v) && FileInv(v)
    && forall i :: 0 <= i < |v.clients| ==> ClientRegisters(v, v.clients[i])
  }

  lemma RegistrationKept(v: Variables, step: Step, reuse: bool)
    requires RegistrationInv(v) && Enabled(v, step, reuse)
    ensures RegistrationInv(Apply(v, step, reuse))
  {
    hide Apply, Enabled, ClientRegisters, FileInv;
    LockKept(v, step, reuse);
    FileKept(v, step, reuse);
    var v' := Apply(v, step, reuse);
    SameClients(v, step, reuse);
    forall j | 0 <= j < |v'.clients| ensures ClientRegisters(v', v'.clients[j]) {
      if !step.Accept? && !step.Die? && j == step.i {
        MoverKept(v, step, reuse);
      } else {
        OthersKept(v, step, reuse, j);
      }
    }
  }

  lemma SameClients(v: Variables, step: Step, reuse: bool)
    requires Enabled(v, step, reuse)
    ensures var v' := Apply(v, step, reuse);
            && |v'.clients| == |v.clients|
            && (forall j :: 0 <= j < |v.clients| && (step.Accept? || step.Die? || j != step.i) ==>
                  v'.clients[j] == v.clients[j])
            && (step.Accept? || step.Die? || !HasLock(v.clients[step.i]) ==>
                  v'.file == v.file && v'.unreachable == v.unreachable && v'.registered == v.registered)
            && v.unreachable <= v'.unreachable
            && (v'.registered != v.registered ==> step.WriteAddress?)
            && (v'.file != v.file ==> step.Clear? || step.Truncate? || step.WriteCookie? || step.WriteAddress?)
  {
    hide HangUp, SendCookie, Connect, Accepts;
  }

  lemma FileKept(v: Variables, step: Step, reuse: bool)
    requires RegistrationInv(v) && Enabled(v, step, reuse)
    ensures FileInv(Apply(v, step, reuse))
  {
    hide HangUp, SendCookie, Connect, Accepts, LockInv;
    if !step.Accept? && !step.Die? {
      assert ClientRegisters(v, v.clients[step.i]);
    }
  }

  lemma MoverKept(v: Variables, step: Step, reuse: bool)
    requires RegistrationInv(v) && Enabled(v, step, reuse) && !step.Accept? && !step.Die?
    ensures ClientRegisters(Apply(v, step, reuse), Apply(v, step, reuse).clients[step.i])
  {
    hide HangUp, SendCookie, Connect, LockInv, FileInv, AllIn;
    assert ClientRegisters(v, v.clients[step.i]);
    LastUnreachable(v);
  }

  /** If the server in the file is unreachable, all are. */
  lemma LastUnreachable(v: Variables)
    requires FileInv(v)
    ensures v.file.Entry? ==> AllIn(v.registered, v.unreachable + {v.file.addr})
    ensures !v.file.Entry? ==> AllUnreachable(v)
  {
  }

  /** A client that replaces the entry, or contacts its server, has the lock, so no other client interferes. */
  lemma OthersKept(v: Variables, step: Step, reuse: bool, j: Client)
    requires RegistrationInv(v) && Enabled(v, step, reuse) && j < |v.clients|
    requires step.Accept? || step.Die? || j != step.i
    ensures |Apply(v, step, reuse).clients| == |v.clients|
    ensures ClientRegisters(Apply(v, step, reuse), Apply(v, step, reuse).clients[j])
  {
    hide Apply, FileInv;
    SameClients(v, step, reuse);
    assert ClientRegisters(v, v.clients[j]);
    if HasLock(v.clients[j]) && !step.Accept? && !step.Die? {
      assert !HasLock(v.clients[step.i]);
    }
  }

  // ----- Over every run

  lemma {:induction false} RunKeepsCookies(run: seq<Variables>, k: nat)
    requires IsRun(run, false) && k < |run|
    ensures CookieInv(run[k])
  {
    if k > 0 {
      hide CookieInv, Apply, Enabled;
      RunKeepsCookies(run, k - 1);
      assert Next(run[k - 1], run[k], false);
      var step :| Enabled(run[k - 1], step, false) && run[k] == Apply(run[k - 1], step, false);
      CookieKept(run[k - 1], step);
    }
  }

  lemma {:induction false} RunKeepsRegistration(run: seq<Variables>, reuse: bool, k: nat)
    requires IsRun(run, reuse) && k < |run|
    ensures RegistrationInv(run[k])
  {
    if k > 0 {
      hide RegistrationInv, Apply, Enabled;
      RunKeepsRegistration(run, reuse, k - 1);
      assert Next(run[k - 1], run[k], reuse);
      var step :| Enabled(run[k - 1], step, reuse) && run[k] == Apply(run[k - 1], step, reuse);
      RegistrationKept(run[k - 1], step, reuse);
    }
  }

  /** The client with the lock. */
  ghost predicate IsHolder(v: Variables, i: Client) {
    v.lock == Some(i) && i < |v.clients|
  }

  ghost predicate HolderReplaces(v: Variables) {
    exists i: Client :: IsHolder(v, i) && Replaces(v.clients[i])
  }

  lemma EntryStep(v: Variables, step: Step, reuse: bool)
    requires RegistrationInv(v) && Enabled(v, step, reuse)
    requires v.file.Entry? && Apply(v, step, reuse).file != v.file
    ensures v.file.addr in v.unreachable && !step.Accept? && !step.Die? && IsHolder(v, step.i)
    ensures Replaces(v.clients[step.i])
  {
    assert !step.Accept? && !step.Die?;
    assert step.Clear? || step.Truncate? || step.WriteCookie? || step.WriteAddress?;
    assert ClientRegisters(v, v.clients[step.i]);
  }

  /**
   The entry of the file is replaced or removed only by the client with the lock,
   after a client with the lock failed to contact its server.
   */
  lemma EntryReplaced(run: seq<Variables>, reuse: bool, k: nat)
    requires IsRun(run, reuse) && 0 < k < |run| && run[k - 1].file.Entry? && run[k].file != run[k - 1].file
    ensures run[k - 1].file.addr in run[k - 1].unreachable
    ensures HolderReplaces(run[k - 1])
  {
    hide Apply, Enabled, RegistrationInv;
    RunKeepsRegistration(run, reuse, k - 1);
    assert Next(run[k - 1], run[k], reuse);
    var step :| Enabled(run[k - 1], step, reuse) && run[k] == Apply(run[k - 1], step, reuse);
    EntryStep(run[k - 1], step, reuse);
  }

  /** Of two servers that are registered, the first was found unreachable. */
  lemma SecondRegistration(run: seq<Variables>, reuse: bool, k: nat, i: nat, j: nat)
    requires IsRun(run, reuse) && k < |run| && i < j < |run[k].registered|
    ensures run[k].registered[i] in run[k].unreachable
  {
    RunKeepsRegistration(run, reuse, k);
  }

  /** A client finds that it cannot contact the server of the file. */
  ghost predicate Fails(p: Phase, addr: Address) {
    (p.Contacting? || (p.Greeting? && p.bootstrap)) && p.addr == addr
  }

  ghost predicate HolderFails(v: Variables, addr: Address) {
    exists i: Client :: IsHolder(v, i) && Fails(v.clients[i], addr)
  }

  lemma UnreachableStep(v: Variables, step: Step, reuse: bool, addr: Address)
    requires RegistrationInv(v) && Enabled(v, step, reuse)
    requires addr in Apply(v, step, reuse).unreachable && addr !in v.unreachable
    ensures v.file.Entry? && v.file.addr == addr && !step.Accept? && !step.Die? && IsHolder(v, step.i)
    ensures Fails(v.clients[step.i], addr)
  {
    assert step.ContactFails? || step.GreetFails?;
    assert ClientRegisters(v, v.clients[step.i]);
  }

  /** A server is found unreachable only by the client with the lock, which read its address from the file. */
  lemma FoundUnreachable(run: seq<Variables>, reuse: bool, k: nat, addr: Address)
    requires IsRun(run, reuse) && 0 < k < |run| && addr in run[k].unreachable && addr !in run[k - 1].unreachable
    ensures run[k - 1].file.Entry? && run[k - 1].file.addr == addr
    ensures HolderFails(run[k - 1], addr)
  {
    hide Apply, Enabled, RegistrationInv;
    RunKeepsRegistration(run, reuse, k - 1);
    assert Next(run[k - 1], run[k], reuse);
    var step :| Enabled(run[k - 1], step, reuse) && run[k] == Apply(run[k - 1], step, reuse);
    UnreachableStep(run[k - 1], step, reuse, addr);
  }

  // ----- Addresses that are used again

  function Pair(p: Phase, q: Phase, lock: Option<Client>, servers: map<Address, Server>): Variables {
    Variables([p, q], lock, Empty, servers, {}, [])
  }

  function Only(a: Address, alive: bool, cookie: Cookie, conns: seq<Connection>): map<Address, Server> {
    map[a := Server(alive, cookie, None, conns, 0, false)]
  }

  const PENDING := Connection(None, false)

  /**
   A client starts a server, which dies before the client calls it. Another client
   starts a server at the same address, and the first client calls that one.
   */
  function Mishap(a: Address, c: Cookie, d: Cookie): seq<Variables> {
    var told := [Connection(Some(c), false)];
    var next := Introducing(a, d, false);
    [ Pair(Idle, Idle, None, map[]),
      Pair(Opened(false), Idle, Some(0), map[]),
      Pair(Starting(false), Idle, Some(0), map[]),
      Pair(Introducing(a, c, false), Idle, Some(0), Only(a, true, c, [])),
      Pair(Confiding(a, c, false, 0), Idle, Some(0), Only(a, true, c, [PENDING])),
      Pair(Closing(a, c), Idle, Some(0), Only(a, true, c, told)),
      Pair(Calling(a, c), Idle, None, Only(a, true, c, told)),
      Pair(Calling(a, c), Idle, None, Only(a, false, c, told)),
      Pair(Calling(a, c), Opened(false), Some(1), Only(a, false, c, told)),
      Pair(Calling(a, c), Starting(false), Some(1), Only(a, false, c, told)),
      Pair(Calling(a, c), next, Some(1), Only(a, true, d, [])),
      Pair(Sending(a, c, 0), next, Some(1), Only(a, true, d, [PENDING])),
      Pair(Idle, next, Some(1), Only(a, true, d, told))
    ]
  }

  lemma Takes(v: Variables, step: Step, v': Variables)
    requires Enabled(v, step, true)
    requires var w := Apply(v, step, true);
             && w.clients == v'.clients && w.lock == v'.lock && w.servers == v'.servers
             && w.file == v'.file && w.unreachable == v'.unreachable && w.registered == v'.registered
    ensures Next(v, v', true)
  {
    assert v' == Apply(v, step, true);
  }

  lemma OpenAndRead(p: Phase, servers: map<Address, Server>)
    requires !HasLock(p) && !HasSlot(p)
    ensures Next(Pair(p, Idle, None, servers), Pair(p, Opened(false), Some(1), servers), true)
    ensures Next(Pair(p, Opened(false), Some(1), servers), Pair(p, Starting(false), Some(1), servers), true)
    ensures Next(Pair(Idle, Idle, None, servers), Pair(Opened(false), Idle, Some(0), servers), true)
    ensures Next(Pair(Opened(false), Idle, Some(0), servers), Pair(Starting(false), Idle, Some(0), servers), true)
  {
    hide Next;
    Takes(Pair(p, Idle, None, servers), Open(1, false), Pair(p, Opened(false), Some(1), servers));
    Takes(Pair(p, Opened(false), Some(1), servers), Read(1), Pair(p, Starting(false), Some(1), servers));
    Takes(Pair(Idle, Idle, None, servers), Open(0, false), Pair(Opened(false), Idle, Some(0), servers));
    Takes(Pair(Opened(false), Idle, Some(0), servers), Read(0), Pair(Starting(false), Idle, Some(0), servers));
  }

  lemma StartFirst(a: Address, c: Cookie)
    ensures Next(Pair(Starting(false), Idle, Some(0), map[]),
                 Pair(Introducing(a, c, false), Idle, Some(0), Only(a, true, c, [])), true)
  {
    hide Next;
    Takes(Pair(Starting(false), Idle, Some(0), map[]), Start(0, a, c, false),
          Pair(Introducing(a, c, false), Idle, Some(0), Only(a, true, c, [])));
  }

  lemma StartSecond(a: Address, c: Cookie, d: Cookie, conns: seq<Connection>)
    ensures Next(Pair(Calling(a, c), Starting(false), Some(1), Only(a, false, c, conns)),
                 Pair(Calling(a, c), Introducing(a, d, false), Some(1), Only(a, true, d, [])), true)
  {
    hide Next;
    Takes(Pair(Calling(a, c), Starting(false), Some(1), Only(a, false, c, conns)), Start(1, a, d, false),
          Pair(Calling(a, c), Introducing(a, d, false), Some(1), Only(a, true, d, [])));
  }

  lemma ConnectFirst(a: Address, c: Cookie)
    ensures Next(Pair(Introducing(a, c, false), Idle, Some(0), Only(a, true, c, [])),
                 Pair(Confiding(a, c, false, 0), Idle, Some(0), Only(a, true, c, [PENDING])), true)
  {
    hide Next;
    var v := Pair(Introducing(a, c, false), Idle, Some(0), Only(a, true, c, []));
    assert Connected(v.servers[a]).conns == [PENDING];
    Takes(v, Introduce(0), Pair(Confiding(a, c, false, 0), Idle, Some(0), Only(a, true, c, [PENDING])));
  }

  lemma ConnectAgain(a: Address, c: Cookie, d: Cookie, q: Phase)
    ensures Next(Pair(Calling(a, c), q, Some(1), Only(a, true, d, [])),
                 Pair(Sending(a, c, 0), q, Some(1), Only(a, true, d, [PENDING])), true)
  {
    hide Next;
    var v := Pair(Calling(a, c), q, Some(1), Only(a, true, d, []));
    assert Connected(v.servers[a]).conns == [PENDING];
    Takes(v, Call(0), Pair(Sending(a, c, 0), q, Some(1), Only(a, true, d, [PENDING])));
  }

  lemma SendFirst(a: Address, c: Cookie)
    ensures Next(Pair(Confiding(a, c, false, 0), Idle, Some(0), Only(a, true, c, [PENDING])),
                 Pair(Closing(a, c), Idle, Some(0), Only(a, true, c, [Connection(Some(c), false)])), true)
  {
    hide Next;
    assert [PENDING][0 := Connection(Some(c), false)] == [Connection(Some(c), false)];
    Takes(Pair(Confiding(a, c, false, 0), Idle, Some(0), Only(a, true, c, [PENDING])), Confide(0),
          Pair(Closing(a, c), Idle, Some(0), Only(a, true, c, [Connection(Some(c), false)])));
  }

  lemma SendAgain(a: Address, c: Cookie, d: Cookie, q: Phase)
    ensures Next(Pair(Sending(a, c, 0), q, Some(1), Only(a, true, d, [PENDING])),
                 Pair(Idle, q, Some(1), Only(a, true, d, [Connection(Some(c), false)])), true)
  {
    hide Next;
    assert [PENDING][0 := Connection(Some(c), false)] == [Connection(Some(c), false)];
    Takes(Pair(Sending(a, c, 0), q, Some(1), Only(a, true, d, [PENDING])), Send(0),
          Pair(Idle, q, Some(1), Only(a, true, d, [Connection(Some(c), false)])));
  }

  lemma CloseAndDie(a: Address, c: Cookie, conns: seq<Connection>)
    ensures Next(Pair(Closing(a, c), Idle, Some(0), Only(a, true, c, conns)),
                 Pair(Calling(a, c), Idle, None, Only(a, true, c, conns)), true)
    ensures Next(Pair(Calling(a, c), Idle, None, Only(a, true, c, conns)),
                 Pair(Calling(a, c), Idle, None, Only(a, false, c, conns)), true)
  {
    hide Next;
    Takes(Pair(Closing(a, c), Idle, Some(0), Only(a, true, c, conns)), Close(0),
          Pair(Calling(a, c), Idle, None, Only(a, true, c, conns)));
    Takes(Pair(Calling(a, c), Idle, None, Only(a, true, c, conns)), Die(a),
          Pair(Calling(a, c), Idle, None, Only(a, false, c, conns)));
  }

  lemma BothIdle()
    ensures Init(Pair(Idle, Idle, None, map[]))
  {
  }

  lemma MishapIsRun(a: Address, c: Cookie, d: Cookie)
    ensures IsRun(Mishap(a, c, d), true)
  {
    hide Next, Pair, Only;
    var told := [Connection(Some(c), false)];
    OpenAndRead(Calling(a, c), map[]);
    OpenAndRead(Calling(a, c), Only(a, false, c, told));
    StartFirst(a, c);
    ConnectFirst(a, c);
    SendFirst(a, c);
    CloseAndDie(a, c, told);
    StartSecond(a, c, d, told);
    ConnectAgain(a, c, d, Introducing(a, d, false));
    SendAgain(a, c, d, Introducing(a, d, false));
    assert Init(Mishap(a, c, d)[0]) by { BothIdle(); }
  }

  lemma MishapDisagrees(a: Address, c: Cookie, d: Cookie)
    requires c != d
    ensures |Mishap(a, c, d)| == 13 && !Agreement(Mishap(a, c, d)[12])
  {
    var v := Mishap(a, c, d)[12];
    assert v.servers[a].conns[0].sent == Some(c);
    assert !ServerAgrees(v.servers[a]);
  }

  /** All cookies agree in every run exactly if servers get addresses that no server had before. */
  lemma AgreementIff(reuse: bool)
    ensures (forall run, k :: IsRun(run, reuse) && 0 <= k < |run| ==> Agreement(run[k])) <==> !reuse
  {
    hide IsRun, Agreement, Mishap;
    if reuse {
      MishapIsRun(0, 1, 2);
      MishapDisagrees(0, 1, 2);
    } else {
      forall run, k | IsRun(run, reuse) && 0 <= k < |run| ensures Agreement(run[k]) {
        RunKeepsCookies(run, k);
      }
    }
  }
}
