/** The event loop as a step system: events registered for descriptors, and the Sockets they share. */
module EventLoop {
  import opened Text
  import opened CgiParsing
  import opened Iteration

  type Fd = int
  type SocketId = nat

  datatype Flag = EpollIn | EpollOut

  /** What a Socket records about its CGI script; `readSize` holds garbage before the first read. */
  datatype CgiRes = CgiRes(fd: Fd, readSize: int, kind: ResponseType)

  datatype Socket = Socket(fd: Fd, responseSet: bool, cgi: Option<CgiRes>)

  datatype ReadStat = Unread | ReadNoRequest | WaitRequest | WaitHeader | WaitBody | ReadComplete

  datatype EventState = Read | ReadAgain | ReadFinished | ReadDisconnect | Write | WriteAgain | Del | Err

  datatype Event =
    | ListenToClient(listenFd: Fd, connFd: Fd, last: Option<SocketId>)
    | ReceiveRequest(socket: SocketId, stat: ReadStat, next: Option<Event>, del: bool)
    | CgiWrite(socket: SocketId, done: bool)
    | CgiRead(socket: SocketId, created: bool, parsed: ResponseType)
    | CgiResponse(socket: SocketId, sentLast: bool, err: bool)
    | ResponseToTheClient(socket: SocketId, state: EventState)

  /**
   The maps of the server, every Socket ever created, and the Sockets that have been freed, counted so
   that a second `delete` would show.
   */
  datatype Server = Server(listeners: set<Fd>, events: map<Fd, Event>, epoll: map<Fd, Flag>,
                           sockets: map<SocketId, Socket>, freed: multiset<SocketId>)

  // ---------------------------------------------------------------------------------------------
  // What the system calls and the parsers can report to an event

  datatype Progress = More | All | Failed

  datatype Report =
    | Accepted(conn: Option<Fd>)
    | NoRequest
    | Incomplete(stat: ReadStat)
    | RequestError
    | StaticRequest
    | CgiRequest(fd: Fd, hasBody: bool, garbage: int)
    | Sent(progress: Progress)
    | CgiReadError
    | CgiRejected(n: nat, parsed: ResponseType)
    | CgiParsed(n: nat, parsed: ResponseType)
    | Answered(sentLast: bool, err: bool)

  predicate Live(s: Server, id: SocketId) {
    id in s.sockets && id !in s.freed
  }

  function OpenFds(s: Server): set<Fd> {
    s.listeners
    + (set id | id in s.sockets && Live(s, id) :: s.sockets[id].fd)
    + (set id | id in s.sockets && Live(s, id) && s.sockets[id].cgi.Some? :: s.sockets[id].cgi.value.fd)
  }

  predicate HasDocument(t: ResponseType) {
    t == Document || t == ClientRedirectDocument
  }

  /**
   Reports that can reach the event `e`: new descriptors are not open yet, and the output of a script is
   parsed as `ParserReports` below says.
   */
  predicate CanReport(s: Server, e: Event, r: Report) {
    match e
    case ListenToClient(_, _, _) => r.Accepted? && (r.conn.Some? ==> r.conn.value !in OpenFds(s))
    case ReceiveRequest(_, _, _, _) =>
      || r.NoRequest? || r.RequestError? || r.StaticRequest?
      || (r.Incomplete? && r.stat in {WaitRequest, WaitHeader, WaitBody})
      || (r.CgiRequest? && r.fd !in OpenFds(s))
    case CgiWrite(_, _) => r.Sent?
    case CgiRead(_, _, parsed) =>
      || r.CgiReadError?
      || (parsed == ToBeDetermined && r.CgiRejected? && r.parsed in {ToBeDetermined, ErrorType})
      || (parsed == ToBeDetermined && r.CgiParsed? && r.n > 0 && (r.parsed == ToBeDetermined || HasDocument(r.parsed)))
      || (HasDocument(parsed) && r.CgiParsed? && r.parsed == parsed)
    case CgiResponse(_, sentLast, err) => r.Answered? && (sentLast ==> r.sentLast) && (err ==> r.err)
    case ResponseToTheClient(_, _) => r.Sent?
  }

  /**
   Output that a script has written reaches its event as a report it can get, unless it is a redirection
   without a document: the parser rejects empty output while the type of the reply is open, and nothing
   once it is not, when it also sticks to the type.
   */
  lemma ParserReports(s: Server, id: SocketId, created: bool, pieces: seq<string>, output: string)
    requires Run(INITIAL, pieces).Some?
    ensures
      var st := Run(INITIAL, pieces).value;
      var e := CgiRead(id, created, st.kind);
      match Step(st, output)
      case None => st.kind == ToBeDetermined
        && forall t | t in {ToBeDetermined, ErrorType} :: CanReport(s, e, CgiRejected(|output|, t))
      case Some(next) => next.kind in {LocalRedirect, ClientRedirect} || CanReport(s, e, CgiParsed(|output|, next.kind))
  {
    var st := Run(INITIAL, pieces).value;
    RunIsProper(INITIAL, pieces);
    StepIsProper(st, output);
  }

  /** Nothing that the system calls and the parsers can come up with is left out. */
  lemma EveryReport(s: Server, e: Event, conn: Fd, stat: ReadStat, hasBody: bool, garbage: int, p: Progress)
    requires conn !in s.listeners && stat in {WaitRequest, WaitHeader, WaitBody}
    requires forall id | id in s.sockets && Live(s, id) ::
               s.sockets[id].fd != conn && (s.sockets[id].cgi.Some? ==> s.sockets[id].cgi.value.fd != conn)
    ensures e.ListenToClient? ==> CanReport(s, e, Accepted(None)) && CanReport(s, e, Accepted(Some(conn)))
    ensures e.ReceiveRequest? ==>
      && CanReport(s, e, NoRequest) && CanReport(s, e, Incomplete(stat)) && CanReport(s, e, RequestError)
      && CanReport(s, e, StaticRequest) && CanReport(s, e, CgiRequest(conn, hasBody, garbage))
    ensures e.CgiWrite? || e.ResponseToTheClient? ==> CanReport(s, e, Sent(p))
    ensures e.CgiRead? ==> CanReport(s, e, CgiReadError)
    ensures e.CgiResponse? ==>
      && CanReport(s, e, Answered(true, true)) && (!e.err ==> CanReport(s, e, Answered(true, false)))
      && (!e.sentLast ==> CanReport(s, e, Answered(false, true)))
      && (!e.sentLast && !e.err ==> CanReport(s, e, Answered(false, false)))
  {
  }

  // ---------------------------------------------------------------------------------------------
  // The methods of the events

  /** The Sockets and scripts that the methods below dereference are there. */
  predicate WellLinked(s: Server, e: Event) {
    e.ListenToClient? ||
    (&& e.socket in s.sockets
     && (e.CgiWrite? || e.CgiRead? || e.CgiResponse? ==> s.sockets[e.socket].cgi.Some?)
     && (e.ReceiveRequest? && e.next.Some? ==> IsScriptEvent(e.next.value, e.socket)))
  }

  predicate IsScriptEvent(e: Event, id: SocketId) {
    (e.CgiWrite? || e.CgiRead?) && e.socket == id
  }

  /** `Do`, on the event and on the Socket; `accept` errors make it throw after it has stored the result. */
  function DoEvent(s: Server, e: Event, r: Report): Event {
    match e
    case ListenToClient(_, _, _) =>
      if r.Accepted? then e.(connFd := if r.conn.Some? then r.conn.value else -1) else e
    case ReceiveRequest(id, _, _, _) =>
      if r.NoRequest? then e.(stat := ReadNoRequest)
      else if r.Incomplete? then e.(stat := r.stat)
      else if r.RequestError? then e.(del := true)
      else if r.StaticRequest? then e.(stat := ReadComplete, next := None)
      else if r.CgiRequest? then
        e.(stat := ReadComplete,
           next := Some(if r.hasBody then CgiWrite(id, false) else CgiRead(id, false, ToBeDetermined)))
      else e
    case CgiWrite(_, _) => if r.Sent? then e.(done := r.progress != More) else e
    case CgiRead(_, _, _) => if r.CgiRejected? || r.CgiParsed? then e.(parsed := r.parsed) else e
    case CgiResponse(_, _, _) => if r.Answered? then e.(sentLast := r.sentLast, err := r.err) else e
    case ResponseToTheClient(_, _) =>
      if r.Sent? then e.(state := if r.progress == More then WriteAgain else Del) else e
  }

  function DoSocket(sock: Socket, e: Event, r: Report): Socket {
    if e.ReceiveRequest? then
      if r.RequestError? || r.StaticRequest? then sock.(responseSet := true)
      else if r.CgiRequest? then sock.(cgi := Some(CgiRes(r.fd, r.garbage, ToBeDetermined)))
      else sock
    else if e.CgiRead? && sock.cgi.Some? then
      if r.CgiReadError? then sock.(cgi := Some(sock.cgi.value.(readSize := -1)))
      else if r.CgiRejected? then sock.(responseSet := true, cgi := Some(sock.cgi.value.(readSize := r.n)))
      else if r.CgiParsed? then sock.(cgi := Some(sock.cgi.value.(readSize := r.n, kind := r.parsed)))
      else sock
    else sock
  }

  predicate Throws(e: Event, r: Report) {
    e.ListenToClient? && r.Accepted? && r.conn.None?
  }

  /** `State()` */
  function StateOf(s: Server, e: Event): EventState
    requires WellLinked(s, e)
  {
    match e
    case ListenToClient(_, _, _) => Read
    case ReceiveRequest(_, stat, next, del) =>
      if next.Some? then Del
      else if stat == ReadNoRequest then ReadDisconnect
      else if stat == ReadComplete then ReadFinished
      else if del then Err
      else ReadAgain
    case CgiWrite(_, done) => if done then Del else Write
    case CgiRead(id, _, _) =>
      if s.sockets[id].cgi.value.readSize == 0 || s.sockets[id].responseSet then Del else Read
    case CgiResponse(id, sentLast, err) =>
      if s.sockets[id].cgi.value.readSize == 0 && (sentLast || err) then Del else Write
    case ResponseToTheClient(_, state) => state
  }

  /** `NextEvent()` */
  function NextOf(e: Event): Option<Event> {
    match e
    case ReceiveRequest(id, stat, next, del) =>
      if next.None? && (stat == ReadComplete || del) then Some(ResponseToTheClient(id, Write)) else None
    case CgiWrite(id, done) => if done then Some(CgiRead(id, false, ToBeDetermined)) else None
    case _ => None
  }

  /** `Handle()`: the descriptor whose registration changes, and to what. */
  function HandleOf(s: Server, e: Event): Option<(Fd, Flag)>
    requires WellLinked(s, e)
  {
    match e
    case ReceiveRequest(id, stat, _, del) =>
      if stat == ReadComplete || del then Some((s.sockets[id].fd, EpollOut)) else None
    case CgiWrite(id, done) => if done then Some((s.sockets[id].cgi.value.fd, EpollIn)) else None
    case _ => None
  }

  datatype Published = Nothing | Published(fd: Fd, flag: Flag, event: Event)

  /** Whether a `CgiRead` gives up on the script and answers with an error. */
  predicate GivesUp(s: Server, e: Event)
    requires e.CgiRead? && WellLinked(s, e)
  {
    !e.created &&
    (s.sockets[e.socket].responseSet ||
     (s.sockets[e.socket].cgi.value.readSize <= 0 && e.parsed == ToBeDetermined))
  }

  /** `PublishNewEvent()`; for a listener `sid` is the Socket it creates. */
  function PublishOf(s: Server, e: Event, sid: SocketId): Published
    requires WellLinked(s, e)
  {
    match e
    case ListenToClient(_, conn, _) => Published(conn, EpollIn, ReceiveRequest(sid, Unread, None, false))
    case ReceiveRequest(id, _, next, _) =>
      if next.None? || s.sockets[id].cgi.None? then Nothing
      else Published(s.sockets[id].cgi.value.fd, if next.value.CgiRead? then EpollIn else EpollOut, next.value)
    case CgiRead(id, created, parsed) =>
      if created then Nothing
      else if GivesUp(s, e) then Published(s.sockets[id].fd, EpollOut, ResponseToTheClient(id, Write))
      else if HasDocument(parsed) then Published(s.sockets[id].fd, EpollOut, CgiResponse(id, false, false))
      else Nothing
    case _ => Nothing
  }

  /** The event and the Socket after `PublishNewEvent()`. */
  function PublishedEvent(s: Server, e: Event, sid: SocketId): Event
    requires WellLinked(s, e)
  {
    if e.ListenToClient? then e.(last := Some(sid))
    else if e.CgiRead? && PublishOf(s, e, sid).Published? then e.(created := true)
    else e
  }

  /** The Socket an event frees in its destructor. */
  function Frees(e: Event): multiset<SocketId> {
    if e.CgiResponse? || e.ResponseToTheClient? then multiset{e.socket} else multiset{}
  }

  // ---------------------------------------------------------------------------------------------
  // One round of Server::EventExec for a ready descriptor

  function AfterDo(s: Server, fd: Fd, r: Report): Server
    requires fd in s.events
  {
    var e := s.events[fd];
    s.(events := s.events[fd := DoEvent(s, e, r)],
       sockets := if e.ListenToClient? || e.socket !in s.sockets then s.sockets
                  else s.sockets[e.socket := DoSocket(s.sockets[e.socket], e, r)])
  }

  function AfterHandle(s: Server, fd: Fd): Server
    requires fd in s.events && WellLinked(s, s.events[fd])
  {
    match HandleOf(s, s.events[fd])
    case None => s
    case Some((f, flag)) => s.(epoll := s.epoll[f := flag])
  }

  function AfterRegister(s: Server, fd: Fd, sid: SocketId): Server
    requires fd in s.events && WellLinked(s, s.events[fd])
  {
    var e := s.events[fd];
    var p := PublishOf(s, e, sid);
    var sockets :=
      if e.ListenToClient? then s.sockets[sid := Socket(e.connFd, false, None)]
      else if e.CgiRead? && GivesUp(s, e) then s.sockets[e.socket := s.sockets[e.socket].(responseSet := true)]
      else s.sockets;
    var events := s.events[fd := PublishedEvent(s, e, sid)];
    if p.Nothing? then s.(events := events, sockets := sockets)
    else
      s.(events := events[p.fd := p.event], sockets := sockets,
         epoll := if p.fd in s.epoll then s.epoll else s.epoll[p.fd := p.flag])
  }

  function AfterNext(s: Server, fd: Fd): Server
    requires fd in s.events && WellLinked(s, s.events[fd])
  {
    var e := s.events[fd];
    var next := NextOf(e);
    if next.Some? then s.(events := s.events[fd := next.value], freed := s.freed + Frees(e))
    else if StateOf(s, e) == ReadDisconnect then
      s.(events := s.events - {fd}, epoll := s.epoll - {fd},
         freed := s.freed + (if e.ListenToClient? then multiset{} else multiset{e.socket}) + Frees(e))
    else if StateOf(s, e) == Del then
      s.(events := s.events - {fd}, epoll := s.epoll - {fd}, freed := s.freed + Frees(e))
    else s
  }

  // ---------------------------------------------------------------------------------------------
  // The invariant

  /** The direction an event waits for. */
  function Wanted(e: Event): Flag {
    if e.CgiWrite? || e.CgiResponse? || e.ResponseToTheClient? then EpollOut else EpollIn
  }

  /** The event registered for `f` belongs to `f`, waits for what it wants, and uses a live Socket. */
  predicate EventOk(s: Server, f: Fd)
    requires f in s.events && f in s.epoll
  {
    var e := s.events[f];
    && s.epoll[f] == Wanted(e)
    && (!e.ListenToClient? ==> Live(s, e.socket))
    && WellLinked(s, e)
    && match e
       case ListenToClient(listen, _, _) => listen == f && f in s.listeners
       case ReceiveRequest(id, stat, next, del) =>
         && s.sockets[id].fd == f && s.sockets[id].cgi.None? && !s.sockets[id].responseSet
         && next.None? && !del && stat !in {ReadComplete, ReadNoRequest}
       case CgiWrite(id, done) => s.sockets[id].cgi.value.fd == f && !done && !s.sockets[id].responseSet
       case CgiRead(id, created, parsed) =>
         && s.sockets[id].cgi.value.fd == f && (parsed == ToBeDetermined || HasDocument(parsed))
         && !s.sockets[id].responseSet
         && (created <==> HasDocument(parsed))
         && (created ==> s.sockets[id].cgi.value.readSize != 0)
       case CgiResponse(id, _, _) => s.sockets[id].fd == f
       case ResponseToTheClient(id, state) => s.sockets[id].fd == f && state in {Write, WriteAgain}
  }

  /** The event registered for `f` uses the Socket `id`. */
  predicate Holds(s: Server, f: Fd, id: SocketId) {
    f in s.events && !s.events[f].ListenToClient? && s.events[f].socket == id
  }

  /** The events that hold on to a live Socket, through which one of them will free it. */
  predicate SocketOk(s: Server, id: SocketId)
    requires id in s.sockets
  {
    var sock := s.sockets[id];
    && sock.fd !in s.listeners
    && match sock.cgi
       case None =>
         Holds(s, sock.fd, id) && (s.events[sock.fd].ReceiveRequest? || s.events[sock.fd].ResponseToTheClient?)
       case Some(cgi) =>
         && cgi.fd != sock.fd && cgi.fd !in s.listeners
         && if cgi.fd in s.events then
              && Holds(s, cgi.fd, id) && (s.events[cgi.fd].CgiWrite? || s.events[cgi.fd].CgiRead?)
              && if s.events[cgi.fd].CgiRead? && s.events[cgi.fd].created
                 then Holds(s, sock.fd, id) && s.events[sock.fd].CgiResponse?
                 else sock.fd !in s.events
            else
              && Holds(s, sock.fd, id)
              && (s.events[sock.fd].ResponseToTheClient? || (s.events[sock.fd].CgiResponse? && cgi.readSize == 0))
  }

  function FdsOf(sock: Socket): set<Fd> {
    {sock.fd} + if sock.cgi.Some? then {sock.cgi.value.fd} else {}
  }

  ghost predicate Invariant(s: Server) {
    && s.events.Keys == s.epoll.Keys
    && (forall f <- s.events :: EventOk(s, f))
    && (forall l <- s.listeners :: l in s.events && s.events[l].ListenToClient?)
    && (forall id <- s.sockets | Live(s, id) :: SocketOk(s, id))
    && (forall i <- s.sockets, j <- s.sockets | Live(s, i) && Live(s, j) && i != j ::
          FdsOf(s.sockets[i]) !! FdsOf(s.sockets[j]))
    && (forall id <- s.freed :: id in s.sockets && s.freed[id] == 1)
  }

  /** In a state as it should be, the event for `fd` gets the report `r`; a listener creates the Socket `sid`. */
  ghost predicate Enabled(s: Server, fd: Fd, r: Report, sid: SocketId) {
    Invariant(s) && fd in s.events && CanReport(s, s.events[fd], r) && sid !in s.sockets
  }

  lemma DoKeepsLinks(s: Server, fd: Fd, r: Report)
    requires fd in s.events && WellLinked(s, s.events[fd])
    ensures var s' := AfterDo(s, fd, r); fd in s'.events && WellLinked(s', s'.events[fd])
  {
  }

  lemma RegisterKeepsLinks(s: Server, fd: Fd, sid: SocketId)
    requires fd in s.events && WellLinked(s, s.events[fd])
    ensures var s' := AfterRegister(s, fd, sid); fd in s'.events && WellLinked(s', s'.events[fd])
  {
  }

  /** `Do`, `Handle`, `RegisterNewEvent`, `NextEvent`; an exception from `Do` skips the rest. */
  ghost function Exec(s: Server, fd: Fd, r: Report, sid: SocketId): Server
    requires fd in s.events && WellLinked(s, s.events[fd])
  {
    DoKeepsLinks(s, fd, r);
    if Throws(s.events[fd], r) then AfterDo(s, fd, r)
    else
      var handled := AfterHandle(AfterDo(s, fd, r), fd);
      assert WellLinked(handled, handled.events[fd]);
      RegisterKeepsLinks(handled, fd, sid);
      AfterNext(AfterRegister(handled, fd, sid), fd)
  }

  // ---------------------------------------------------------------------------------------------
  // A step changes one Socket and the events registered for its descriptors

  ghost function OldFds(s: Server, id: SocketId): set<Fd> {
    if id in s.sockets then FdsOf(s.sockets[id]) else {}
  }

  /** From `s` to `s'` nothing changes but the Socket `id`, its descriptors, and what a listener remembers. */
  ghost predicate ChangesOnly(s: Server, s': Server, id: SocketId) {
    var F := OldFds(s, id) + OldFds(s', id);
    && s'.listeners == s.listeners && s'.events.Keys == s'.epoll.Keys
    && (forall i | i != id :: i in s'.sockets <==> i in s.sockets)
    && (forall i <- s.sockets | i != id :: s'.sockets[i] == s.sockets[i])
    && (forall i | i != id :: s'.freed[i] == s.freed[i])
    && (forall f | f !in F :: f in s'.events <==> f in s.events)
    && (forall f <- s.events | f in s.epoll && f !in F :: s'.epoll[f] == s.epoll[f]
         && (s'.events[f] == s.events[f]
             || (f in s.listeners && s'.events[f].ListenToClient? && s'.events[f].listenFd == f)))
  }

  /** What the changed Socket and the events for its descriptors have to satisfy afterwards. */
  ghost predicate LocallyOk(s: Server, s': Server, id: SocketId) {
    var F := OldFds(s, id) + OldFds(s', id);
    && id in s'.sockets && s'.freed[id] <= 1
    && (OldFds(s', id) - OldFds(s, id)) !! OpenFds(s)
    && (forall f <- F | f in s'.events :: f in s'.epoll && EventOk(s', f) && Holds(s', f, id))
    && (Live(s', id) ==> SocketOk(s', id))
  }

  /**
   What a round for `fd` does: nothing but the Socket `id` of its event and the events for its descriptors
   changes, of which all but the one for `fd` stay, and a Socket that is freed is not freed again.
   */
  ghost predicate LocalStep(s: Server, s': Server, fd: Fd, id: SocketId) {
    && ChangesOnly(s, s', id) && LocallyOk(s, s', id)
    && id in s.sockets && s.freed[id] <= s'.freed[id]
    && forall f <- s.events | f != fd :: f in s'.events && s'.events[f] == s.events[f]
  }

  /** A Socket shares no descriptor with others, before and after. */
  lemma FdsStayApart(s: Server, s': Server, id: SocketId, j: SocketId)
    requires Invariant(s) && (id !in s.sockets || Live(s, id))
    requires ChangesOnly(s, s', id) && LocallyOk(s, s', id)
    requires j != id && j in s.sockets && Live(s, j)
    ensures FdsOf(s.sockets[j]) !! OldFds(s, id) + OldFds(s', id)
  {
    assert FdsOf(s.sockets[j]) <= OpenFds(s);
  }

  lemma ListenersStayApart(s: Server, s': Server, id: SocketId)
    requires Invariant(s) && (id !in s.sockets || Live(s, id))
    requires LocallyOk(s, s', id)
    ensures s.listeners !! OldFds(s, id) + OldFds(s', id)
  {
    assert s.listeners <= OpenFds(s);
    if id in s.sockets {
      assert SocketOk(s, id);
    }
  }

  lemma OtherEventOk(s: Server, s': Server, id: SocketId, f: Fd)
    requires Invariant(s) && (id !in s.sockets || Live(s, id))
    requires ChangesOnly(s, s', id) && LocallyOk(s, s', id)
    requires f in s'.events && f !in OldFds(s, id) + OldFds(s', id)
    ensures EventOk(s', f)
  {
    assert EventOk(s, f);
  }

  lemma OtherSocketOk(s: Server, s': Server, id: SocketId, j: SocketId)
    requires Invariant(s) && (id !in s.sockets || Live(s, id))
    requires ChangesOnly(s, s', id) && LocallyOk(s, s', id)
    requires j != id && j in s'.sockets && Live(s', j)
    ensures SocketOk(s', j)
  {
    FdsStayApart(s, s', id, j);
    assert SocketOk(s, j);
  }

  lemma LocalChangeKeepsInvariant(s: Server, s': Server, id: SocketId)
    requires Invariant(s) && (id !in s.sockets || Live(s, id))
    requires ChangesOnly(s, s', id) && LocallyOk(s, s', id)
    ensures Invariant(s')
  {
    ListenersStayApart(s, s', id);
    forall f <- s'.events ensures EventOk(s', f) {
      if f !in OldFds(s, id) + OldFds(s', id) {
        OtherEventOk(s, s', id, f);
      }
    }
    forall j <- s'.sockets | Live(s', j) ensures SocketOk(s', j) {
      if j != id {
        OtherSocketOk(s, s', id, j);
      }
    }
    forall i <- s'.sockets, j <- s'.sockets | Live(s', i) && Live(s', j) && i != j
      ensures FdsOf(s'.sockets[i]) !! FdsOf(s'.sockets[j])
    {
      if i == id {
        FdsStayApart(s, s', id, j);
      } else if j == id {
        FdsStayApart(s, s', id, i);
      }
    }
  }

  // ---------------------------------------------------------------------------------------------
  // The step of each kind of event

  lemma RegisteredAreOpen(s: Server)
    requires Invariant(s)
    ensures s.events.Keys <= OpenFds(s)
  {
    forall f <- s.events ensures f in OpenFds(s) {
      assert EventOk(s, f);
    }
  }

  /** The listener for `fd` has accepted `c` and created the Socket `sid` with its first event. */
  ghost function AfterAccept(s: Server, fd: Fd, c: Fd, sid: SocketId): Server {
    s.(events := s.events[fd := ListenToClient(fd, c, Some(sid))][c := ReceiveRequest(sid, Unread, None, false)],
       epoll := s.epoll[c := EpollIn],
       sockets := s.sockets[sid := Socket(c, false, None)])
  }

  lemma ListenAccepts(s: Server, fd: Fd, r: Report, sid: SocketId)
    requires Enabled(s, fd, r, sid) && s.events[fd].ListenToClient? && r.conn.Some?
    ensures WellLinked(s, s.events[fd]) && r.conn.value !in s.events
    ensures Exec(s, fd, r, sid) == AfterAccept(s, fd, r.conn.value, sid)
  {
    assert EventOk(s, fd);
    RegisteredAreOpen(s);
  }

  lemma AcceptIsLocal(s: Server, fd: Fd, c: Fd, sid: SocketId)
    requires fd in s.listeners && fd in s.events && s.events[fd].ListenToClient? && s.events.Keys == s.epoll.Keys
    requires c !in OpenFds(s) && c !in s.events && sid !in s.sockets && s.freed[sid] == 0
    ensures ChangesOnly(s, AfterAccept(s, fd, c, sid), sid)
    ensures LocallyOk(s, AfterAccept(s, fd, c, sid), sid)
  {
  }

  lemma ListenIsLocal(s: Server, fd: Fd, r: Report, sid: SocketId)
    requires Enabled(s, fd, r, sid) && s.events[fd].ListenToClient? && r.conn.Some?
    ensures WellLinked(s, s.events[fd])
    ensures ChangesOnly(s, Exec(s, fd, r, sid), sid)
    ensures LocallyOk(s, Exec(s, fd, r, sid), sid)
  {
    ListenAccepts(s, fd, r, sid);
    assert EventOk(s, fd);
    assert s.freed[sid] == 0;
    AcceptIsLocal(s, fd, r.conn.value, sid);
  }

  /** `s` with `e` registered for `fd`, in place of what was there, and the Socket of `e` replaced. */
  ghost function Replaced(s: Server, fd: Fd, e: Event, sock: Socket): Server
    requires !e.ListenToClient?
  {
    s.(events := s.events[fd := e], epoll := s.epoll[fd := Wanted(e)], sockets := s.sockets[e.socket := sock])
  }

  ghost function Removed(s: Server, fd: Fd): Server {
    s.(events := s.events - {fd}, epoll := s.epoll - {fd})
  }

  ghost function Freed(s: Server, fd: Fd, id: SocketId): Server {
    Removed(s, fd).(freed := s.freed + multiset{id})
  }

  /** The event and its Socket are replaced, and the Socket keeps its descriptors. */
  lemma InPlace(s: Server, fd: Fd, e: Event, sock: Socket)
    requires !e.ListenToClient? && Live(s, e.socket) && Holds(s, fd, e.socket) && s.events.Keys == s.epoll.Keys
    requires fd in FdsOf(sock) && FdsOf(sock) == FdsOf(s.sockets[e.socket])
    requires var s' := Replaced(s, fd, e, sock);
             && EventOk(s', fd) && SocketOk(s', e.socket)
             && forall f <- FdsOf(sock) | f in s.events && f != fd :: EventOk(s', f) && Holds(s, f, e.socket)
    ensures LocalStep(s, Replaced(s, fd, e, sock), fd, e.socket)
  {
  }

  /** So they are, and the Socket gets a second event, registered for its other descriptor `f`. */
  lemma Joined(s: Server, fd: Fd, f: Fd, second: Event, e: Event, sock: Socket)
    requires !e.ListenToClient? && Live(s, e.socket) && Holds(s, fd, e.socket) && s.events.Keys == s.epoll.Keys
    requires !second.ListenToClient? && second.socket == e.socket
    requires fd != f && f !in s.events && FdsOf(sock) == {fd, f} == FdsOf(s.sockets[e.socket])
    requires var s' := Replaced(Replaced(s, f, second, s.sockets[e.socket]), fd, e, sock);
             EventOk(s', fd) && EventOk(s', f) && SocketOk(s', e.socket)
    ensures LocalStep(s, Replaced(Replaced(s, f, second, s.sockets[e.socket]), fd, e, sock), fd, e.socket)
  {
  }

  /** The Socket goes on with another event, registered for its other descriptor `f`. */
  lemma HandedOver(s: Server, fd: Fd, f: Fd, e: Event, sock: Socket)
    requires !e.ListenToClient? && Live(s, e.socket) && Holds(s, fd, e.socket) && s.events.Keys == s.epoll.Keys
    requires f !in s.events && FdsOf(s.sockets[e.socket]) <= FdsOf(sock) == {fd, f}
    requires fd in FdsOf(s.sockets[e.socket]) && (f in FdsOf(s.sockets[e.socket]) || f !in OpenFds(s))
    requires var s' := Replaced(Removed(s, fd), f, e, sock); EventOk(s', f) && SocketOk(s', e.socket)
    ensures LocalStep(s, Replaced(Removed(s, fd), f, e, sock), fd, e.socket)
  {
  }

  /** The first event of a script, which reads a body if there is one to write. */
  function FirstOfScript(id: SocketId, hasBody: bool): Event {
    if hasBody then CgiWrite(id, false) else CgiRead(id, false, ToBeDetermined)
  }

  /** The Socket after a read of `n` bytes of output, or a read that has failed. */
  function WithOutput(sock: Socket, n: int, kind: ResponseType): Socket
    requires sock.cgi.Some?
  {
    sock.(cgi := Some(sock.cgi.value.(readSize := n, kind := kind)))
  }

  /** What the invariant says about the event `e` for `fd`, its Socket `sock` and the events for its descriptors. */
  ghost predicate Local(s: Server, fd: Fd, r: Report, sid: SocketId, e: Event, sock: Socket) {
    && fd in s.events && s.events[fd] == e && !e.ListenToClient? && Live(s, e.socket) && s.sockets[e.socket] == sock
    && s.events.Keys == s.epoll.Keys && (e.ReceiveRequest? && r.CgiRequest? ==> r.fd !in s.events)
    && SocketOk(s, e.socket) && EventOk(s, fd) && (forall f <- FdsOf(sock) | f in s.events :: EventOk(s, f))
    && CanReport(s, e, r) && sid !in s.sockets
  }

  lemma LocalHolds(s: Server, fd: Fd, r: Report, sid: SocketId) returns (e: Event, sock: Socket)
    requires Enabled(s, fd, r, sid) && !s.events[fd].ListenToClient?
    ensures e == s.events[fd] && Local(s, fd, r, sid, e, sock)
  {
    assert EventOk(s, fd);
    RegisteredAreOpen(s);
    e, sock := s.events[fd], s.sockets[s.events[fd].socket];
  }

  /** The client is gone: event and registration go, and the Socket is freed. */
  lemma ReceiveDisconnects(s: Server, fd: Fd, r: Report, sid: SocketId, e: Event, sock: Socket)
    requires Local(s, fd, r, sid, e, sock) && e.ReceiveRequest? && r.NoRequest?
    ensures var s' := Exec(s, fd, r, sid);
            && s' == Freed(s, fd, e.socket)
            && LocalStep(s, s', fd, e.socket)
            && s'.freed[e.socket] == 1 && fd !in s'.events && fd !in s'.epoll && FdsOf(sock) == {fd}
  {
  }

  lemma ReceiveWaitsExec(s: Server, fd: Fd, r: Report, sid: SocketId, e: Event, sock: Socket)
    requires Local(s, fd, r, sid, e, sock) && e.ReceiveRequest? && r.Incomplete?
    ensures Exec(s, fd, r, sid) == Replaced(s, fd, ReceiveRequest(e.socket, r.stat, None, false), sock)
  {
  }

  lemma ReceiveWaits(s: Server, fd: Fd, r: Report, sid: SocketId, e: Event, sock: Socket)
    requires Local(s, fd, r, sid, e, sock) && e.ReceiveRequest? && r.Incomplete?
    ensures var s' := Exec(s, fd, r, sid);
            && LocalStep(s, s', fd, e.socket)
            && Live(s', e.socket) && s'.events[fd].ReceiveRequest? && s'.epoll[fd] == EpollIn
  {
    ReceiveWaitsExec(s, fd, r, sid, e, sock);
    var s' := Exec(s, fd, r, sid);
    InPlace(s, fd, s'.events[fd], s'.sockets[e.socket]);
  }

  lemma ReceiveAnswersExec(s: Server, fd: Fd, r: Report, sid: SocketId, e: Event, sock: Socket)
    requires Local(s, fd, r, sid, e, sock) && e.ReceiveRequest? && (r.RequestError? || r.StaticRequest?)
    ensures Exec(s, fd, r, sid) == Replaced(s, fd, ResponseToTheClient(e.socket, Write), sock.(responseSet := true))
  {
  }

  lemma ReceiveAnswers(s: Server, fd: Fd, r: Report, sid: SocketId, e: Event, sock: Socket)
    requires Local(s, fd, r, sid, e, sock) && e.ReceiveRequest? && (r.RequestError? || r.StaticRequest?)
    ensures var s' := Exec(s, fd, r, sid);
            && LocalStep(s, s', fd, e.socket)
            && Live(s', e.socket) && s'.events[fd] == ResponseToTheClient(e.socket, Write) && s'.epoll[fd] == EpollOut
  {
    ReceiveAnswersExec(s, fd, r, sid, e, sock);
    var s' := Exec(s, fd, r, sid);
    InPlace(s, fd, s'.events[fd], s'.sockets[e.socket]);
  }

  /** The state when the script has been started and the registration of the connection changed. */
  ghost function ScriptStarted(s: Server, fd: Fd, r: Report, e: Event, sock: Socket): Server
    requires e.ReceiveRequest? && r.CgiRequest?
  {
    s.(events := s.events[fd := ReceiveRequest(e.socket, ReadComplete, Some(FirstOfScript(e.socket, r.hasBody)), false)],
       epoll := s.epoll[fd := EpollOut],
       sockets := s.sockets[e.socket := sock.(cgi := Some(CgiRes(r.fd, r.garbage, ToBeDetermined)))])
  }

  lemma ScriptIsStarted(s: Server, fd: Fd, r: Report, sid: SocketId, e: Event, sock: Socket)
    requires Local(s, fd, r, sid, e, sock) && e.ReceiveRequest? && r.CgiRequest?
    ensures WellLinked(AfterDo(s, fd, r), AfterDo(s, fd, r).events[fd])
    ensures AfterHandle(AfterDo(s, fd, r), fd) == ScriptStarted(s, fd, r, e, sock)
  {
  }

  lemma ScriptIsRegistered(s: Server, fd: Fd, r: Report, sid: SocketId, e: Event, sock: Socket)
    requires Local(s, fd, r, sid, e, sock) && e.ReceiveRequest? && r.CgiRequest?
    ensures var s1 := ScriptStarted(s, fd, r, e, sock);
            && WellLinked(s1, s1.events[fd])
            && var first := FirstOfScript(e.socket, r.hasBody);
               AfterRegister(s1, fd, sid)
               == s1.(events := s1.events[r.fd := first], epoll := s1.epoll[r.fd := Wanted(first)])
  {
  }

  lemma ReceiveStartsScriptExec(s: Server, fd: Fd, r: Report, sid: SocketId, e: Event, sock: Socket)
    requires Local(s, fd, r, sid, e, sock) && e.ReceiveRequest? && r.CgiRequest?
    ensures Exec(s, fd, r, sid) == Replaced(
              Removed(s, fd), r.fd, FirstOfScript(e.socket, r.hasBody),
              sock.(cgi := Some(CgiRes(r.fd, r.garbage, ToBeDetermined))))
  {
    ScriptIsStarted(s, fd, r, sid, e, sock);
    ScriptIsRegistered(s, fd, r, sid, e, sock);
  }

  /** A script is started: its event takes over the Socket, and the connection is no longer monitored. */
  lemma ReceiveStartsScript(s: Server, fd: Fd, r: Report, sid: SocketId, e: Event, sock: Socket)
    requires Local(s, fd, r, sid, e, sock) && e.ReceiveRequest? && r.CgiRequest?
    ensures var s' := Exec(s, fd, r, sid);
            && LocalStep(s, s', fd, e.socket)
            && Live(s', e.socket) && FdsOf(s'.sockets[e.socket]) == {fd, r.fd}
            && fd !in s'.events && fd !in s'.epoll
            && (r.hasBody ==> s'.events[r.fd] == CgiWrite(e.socket, false) && s'.epoll[r.fd] == EpollOut)
            && (!r.hasBody ==>
                  s'.events[r.fd] == CgiRead(e.socket, false, ToBeDetermined) && s'.epoll[r.fd] == EpollIn)
  {
    ReceiveStartsScriptExec(s, fd, r, sid, e, sock);
    var s' := Exec(s, fd, r, sid);
    HandedOver(s, fd, r.fd, s'.events[r.fd], s'.sockets[e.socket]);
  }

  lemma CgiWriteContinues(s: Server, fd: Fd, r: Report, sid: SocketId, e: Event, sock: Socket)
    requires Local(s, fd, r, sid, e, sock) && e.CgiWrite? && r.progress == More
    ensures var s' := Exec(s, fd, r, sid);
            && s' == s
            && LocalStep(s, s', fd, e.socket)
            && Live(s', e.socket)
  {
  }

  lemma CgiWriteFinishes(s: Server, fd: Fd, r: Report, sid: SocketId, e: Event, sock: Socket)
    requires Local(s, fd, r, sid, e, sock) && e.CgiWrite? && r.progress != More
    ensures var s' := Exec(s, fd, r, sid);
            && s' == Replaced(s, fd, CgiRead(e.socket, false, ToBeDetermined), sock)
            && LocalStep(s, s', fd, e.socket)
            && Live(s', e.socket)
            && s'.events[fd] == CgiRead(e.socket, false, ToBeDetermined) && s'.epoll[fd] == EpollIn
  {
  }

  lemma CgiReadRejectsExec(s: Server, fd: Fd, r: Report, sid: SocketId, e: Event, sock: Socket)
    requires Local(s, fd, r, sid, e, sock) && e.CgiRead? && r.CgiRejected?
    ensures Exec(s, fd, r, sid) == Replaced(Removed(s, fd), sock.fd, ResponseToTheClient(e.socket, Write),
              WithOutput(sock, r.n, sock.cgi.value.kind).(responseSet := true))
  {
  }

  lemma CgiReadRejects(s: Server, fd: Fd, r: Report, sid: SocketId, e: Event, sock: Socket)
    requires Local(s, fd, r, sid, e, sock) && e.CgiRead? && r.CgiRejected?
    ensures var s' := Exec(s, fd, r, sid);
            && LocalStep(s, s', fd, e.socket)
            && Live(s', e.socket) && fd !in s'.events && fd !in s'.epoll
            && s'.events[sock.fd] == ResponseToTheClient(e.socket, Write)
  {
    CgiReadRejectsExec(s, fd, r, sid, e, sock);
    var s' := Exec(s, fd, r, sid);
    HandedOver(s, fd, sock.fd, s'.events[sock.fd], s'.sockets[e.socket]);
  }

  lemma CgiReadGivesUpExec(s: Server, fd: Fd, r: Report, sid: SocketId, e: Event, sock: Socket)
    requires Local(s, fd, r, sid, e, sock) && e.CgiRead? && r.CgiReadError? && !e.created
    ensures Exec(s, fd, r, sid) == Replaced(Removed(s, fd), sock.fd, ResponseToTheClient(e.socket, Write),
              WithOutput(sock, -1, sock.cgi.value.kind).(responseSet := true))
  {
  }

  lemma CgiReadGivesUp(s: Server, fd: Fd, r: Report, sid: SocketId, e: Event, sock: Socket)
    requires Local(s, fd, r, sid, e, sock) && e.CgiRead? && r.CgiReadError? && !e.created
    ensures var s' := Exec(s, fd, r, sid);
            && LocalStep(s, s', fd, e.socket)
            && Live(s', e.socket) && fd !in s'.events && fd !in s'.epoll
            && s'.events[sock.fd] == ResponseToTheClient(e.socket, Write)
  {
    CgiReadGivesUpExec(s, fd, r, sid, e, sock);
    var s' := Exec(s, fd, r, sid);
    HandedOver(s, fd, sock.fd, s'.events[sock.fd], s'.sockets[e.socket]);
  }

  lemma CgiReadRetriesExec(s: Server, fd: Fd, r: Report, sid: SocketId, e: Event, sock: Socket)
    requires Local(s, fd, r, sid, e, sock) && e.CgiRead? && r.CgiReadError? && e.created
    ensures Exec(s, fd, r, sid) == Replaced(s, fd, e, WithOutput(sock, -1, sock.cgi.value.kind))
  {
  }

  lemma CgiReadRetries(s: Server, fd: Fd, r: Report, sid: SocketId, e: Event, sock: Socket)
    requires Local(s, fd, r, sid, e, sock) && e.CgiRead? && r.CgiReadError? && e.created
    ensures var s' := Exec(s, fd, r, sid);
            && LocalStep(s, s', fd, e.socket)
            && Live(s', e.socket) && Holds(s', fd, e.socket) && Holds(s', sock.fd, e.socket)
  {
    CgiReadRetriesExec(s, fd, r, sid, e, sock);
    var s' := Exec(s, fd, r, sid);
    InPlace(s, fd, s'.events[fd], s'.sockets[e.socket]);
  }

  lemma CgiReadWaitsExec(s: Server, fd: Fd, r: Report, sid: SocketId, e: Event, sock: Socket)
    requires Local(s, fd, r, sid, e, sock) && e.CgiRead? && r.CgiParsed? && r.parsed == ToBeDetermined
    ensures Exec(s, fd, r, sid) == Replaced(s, fd, CgiRead(e.socket, false, ToBeDetermined),
              WithOutput(sock, r.n, r.parsed))
  {
  }

  lemma CgiReadWaits(s: Server, fd: Fd, r: Report, sid: SocketId, e: Event, sock: Socket)
    requires Local(s, fd, r, sid, e, sock) && e.CgiRead? && r.CgiParsed? && r.parsed == ToBeDetermined
    ensures var s' := Exec(s, fd, r, sid);
            && LocalStep(s, s', fd, e.socket)
            && Live(s', e.socket) && Holds(s', fd, e.socket) && sock.fd !in s'.events
  {
    CgiReadWaitsExec(s, fd, r, sid, e, sock);
    var s' := Exec(s, fd, r, sid);
    InPlace(s, fd, s'.events[fd], s'.sockets[e.socket]);
  }

  lemma CgiReadPublishesExec(s: Server, fd: Fd, r: Report, sid: SocketId, e: Event, sock: Socket)
    requires Local(s, fd, r, sid, e, sock) && e.CgiRead? && r.CgiParsed? && !e.created && HasDocument(r.parsed)
    ensures Exec(s, fd, r, sid) == Replaced(
              Replaced(s, sock.fd, CgiResponse(e.socket, false, false), sock),
              fd, CgiRead(e.socket, true, r.parsed), WithOutput(sock, r.n, r.parsed))
  {
  }

  /** The header is there: from now on the script's event and the response share the Socket. */
  lemma CgiReadPublishes(s: Server, fd: Fd, r: Report, sid: SocketId, e: Event, sock: Socket)
    requires Local(s, fd, r, sid, e, sock) && e.CgiRead? && r.CgiParsed? && !e.created && HasDocument(r.parsed)
    ensures var s' := Exec(s, fd, r, sid);
            && LocalStep(s, s', fd, e.socket)
            && Live(s', e.socket) && s'.events[fd] == CgiRead(e.socket, true, r.parsed) && s'.epoll[fd] == EpollIn
            && s'.events[sock.fd] == CgiResponse(e.socket, false, false) && s'.epoll[sock.fd] == EpollOut
  {
    CgiReadPublishesExec(s, fd, r, sid, e, sock);
    var s' := Exec(s, fd, r, sid);
    Joined(s, fd, sock.fd, s'.events[sock.fd], s'.events[fd], s'.sockets[e.socket]);
  }

  lemma CgiReadContinuesExec(s: Server, fd: Fd, r: Report, sid: SocketId, e: Event, sock: Socket)
    requires Local(s, fd, r, sid, e, sock) && e.CgiRead? && r.CgiParsed? && e.created && r.n != 0
    ensures Exec(s, fd, r, sid) == Replaced(s, fd, e, WithOutput(sock, r.n, r.parsed))
  {
  }

  lemma CgiReadContinues(s: Server, fd: Fd, r: Report, sid: SocketId, e: Event, sock: Socket)
    requires Local(s, fd, r, sid, e, sock) && e.CgiRead? && r.CgiParsed? && e.created && r.n != 0
    ensures var s' := Exec(s, fd, r, sid);
            && LocalStep(s, s', fd, e.socket)
            && Live(s', e.socket) && Holds(s', fd, e.socket) && Holds(s', sock.fd, e.socket)
  {
    CgiReadContinuesExec(s, fd, r, sid, e, sock);
    var s' := Exec(s, fd, r, sid);
    InPlace(s, fd, s'.events[fd], s'.sockets[e.socket]);
  }

  /** The end of the output: the Socket is left to the response. */
  lemma CgiReadEnds(s: Server, fd: Fd, r: Report, sid: SocketId, e: Event, sock: Socket)
    requires Local(s, fd, r, sid, e, sock) && e.CgiRead? && r.CgiParsed? && e.created && r.n == 0
    ensures var s' := Exec(s, fd, r, sid);
            && s' == Removed(s, fd).(sockets := s.sockets[e.socket := WithOutput(sock, 0, r.parsed)])
            && LocalStep(s, s', fd, e.socket)
            && Live(s', e.socket) && fd !in s'.events && fd !in s'.epoll && Holds(s', sock.fd, e.socket)
  {
  }

  /** While the reader is there, or something is to be sent, the Socket lives. */
  lemma CgiResponseContinues(s: Server, fd: Fd, r: Report, sid: SocketId, e: Event, sock: Socket)
    requires Local(s, fd, r, sid, e, sock) && e.CgiResponse? && !(sock.cgi.value.readSize == 0 && (r.sentLast || r.err))
    ensures var s' := Exec(s, fd, r, sid);
            && s' == Replaced(s, fd, CgiResponse(e.socket, r.sentLast, r.err), sock)
            && LocalStep(s, s', fd, e.socket)
            && Live(s', e.socket) && Holds(s', fd, e.socket)
            && (sock.cgi.value.fd in s.events ==> Holds(s', sock.cgi.value.fd, e.socket))
  {
  }

  /** The Socket is freed when the reader is gone and everything has been sent or nothing can be. */
  lemma CgiResponseFinishes(s: Server, fd: Fd, r: Report, sid: SocketId, e: Event, sock: Socket)
    requires Local(s, fd, r, sid, e, sock) && e.CgiResponse? && sock.cgi.value.readSize == 0 && (r.sentLast || r.err)
    ensures var s' := Exec(s, fd, r, sid);
            && s' == Freed(s, fd, e.socket)
            && LocalStep(s, s', fd, e.socket)
            && s'.freed[e.socket] == 1 && fd !in s'.events && fd !in s'.epoll && sock.cgi.value.fd !in s'.events
  {
  }

  lemma ResponseContinues(s: Server, fd: Fd, r: Report, sid: SocketId, e: Event, sock: Socket)
    requires Local(s, fd, r, sid, e, sock) && e.ResponseToTheClient? && r.progress == More
    ensures var s' := Exec(s, fd, r, sid);
            && s' == Replaced(s, fd, ResponseToTheClient(e.socket, WriteAgain), sock)
            && LocalStep(s, s', fd, e.socket)
            && Live(s', e.socket) && Holds(s', fd, e.socket)
  {
  }

  /** The response is finished, one way or the other: event and registration go, and the Socket is freed. */
  lemma ResponseFinishes(s: Server, fd: Fd, r: Report, sid: SocketId, e: Event, sock: Socket)
    requires Local(s, fd, r, sid, e, sock) && e.ResponseToTheClient? && r.progress != More
    ensures var s' := Exec(s, fd, r, sid);
            && s' == Freed(s, fd, e.socket)
            && LocalStep(s, s', fd, e.socket)
            && s'.freed[e.socket] == 1 && forall f <- FdsOf(sock) :: f !in s'.events && f !in s'.epoll
  {
  }

  // ---------------------------------------------------------------------------------------------
  // Every step of every run

  /** Each round changes one Socket and its events only. */
  lemma StepIsLocal(s: Server, fd: Fd, r: Report, sid: SocketId)
    requires Enabled(s, fd, r, sid) && !s.events[fd].ListenToClient?
    ensures WellLinked(s, s.events[fd]) && Live(s, s.events[fd].socket)
    ensures LocalStep(s, Exec(s, fd, r, sid), fd, s.events[fd].socket)
  {
    var e, sock := LocalHolds(s, fd, r, sid);
    match e {
      case ReceiveRequest(_, _, _, _) => ReceiveIsLocal(s, fd, r, sid, e, sock);
      case CgiWrite(_, _) =>
        if r.progress == More {
          CgiWriteContinues(s, fd, r, sid, e, sock);
        } else {
          CgiWriteFinishes(s, fd, r, sid, e, sock);
        }
      case CgiRead(_, _, _) => CgiReadIsLocal(s, fd, r, sid, e, sock);
      case CgiResponse(_, _, _) =>
        if sock.cgi.value.readSize == 0 && (r.sentLast || r.err) {
          CgiResponseFinishes(s, fd, r, sid, e, sock);
        } else {
          CgiResponseContinues(s, fd, r, sid, e, sock);
        }
      case ResponseToTheClient(_, _) =>
        if r.progress == More {
          ResponseContinues(s, fd, r, sid, e, sock);
        } else {
          ResponseFinishes(s, fd, r, sid, e, sock);
        }
    }
  }

  lemma ReceiveIsLocal(s: Server, fd: Fd, r: Report, sid: SocketId, e: Event, sock: Socket)
    requires Local(s, fd, r, sid, e, sock) && e.ReceiveRequest?
    ensures LocalStep(s, Exec(s, fd, r, sid), fd, s.events[fd].socket)
  {
    if r.NoRequest? {
      ReceiveDisconnects(s, fd, r, sid, e, sock);
    } else if r.Incomplete? {
      ReceiveWaits(s, fd, r, sid, e, sock);
    } else if r.CgiRequest? {
      ReceiveStartsScript(s, fd, r, sid, e, sock);
    } else {
      ReceiveAnswers(s, fd, r, sid, e, sock);
    }
  }

  lemma CgiReadIsLocal(s: Server, fd: Fd, r: Report, sid: SocketId, e: Event, sock: Socket)
    requires Local(s, fd, r, sid, e, sock) && e.CgiRead?
    ensures LocalStep(s, Exec(s, fd, r, sid), fd, s.events[fd].socket)
  {
    if r.CgiRejected? {
      CgiReadRejects(s, fd, r, sid, e, sock);
    } else if r.CgiReadError? && !e.created {
      CgiReadGivesUp(s, fd, r, sid, e, sock);
    } else if r.CgiReadError? {
      CgiReadRetries(s, fd, r, sid, e, sock);
    } else if r.parsed == ToBeDetermined {
      CgiReadWaits(s, fd, r, sid, e, sock);
    } else if !e.created {
      CgiReadPublishes(s, fd, r, sid, e, sock);
    } else if r.n != 0 {
      CgiReadContinues(s, fd, r, sid, e, sock);
    } else {
      CgiReadEnds(s, fd, r, sid, e, sock);
    }
  }

  lemma ListenFails(s: Server, fd: Fd, e: Event)
    requires Invariant(s) && fd in s.events && s.events[fd].ListenToClient?
    requires e.ListenToClient? && e.listenFd == s.events[fd].listenFd
    ensures Invariant(s.(events := s.events[fd := e]))
  {
    var s' := s.(events := s.events[fd := e]);
    assert EventOk(s, fd);
    forall f <- s'.events ensures EventOk(s', f) {
      assert EventOk(s, f);
    }
    forall id <- s'.sockets | Live(s', id) ensures SocketOk(s', id) {
      assert SocketOk(s, id);
    }
  }

  lemma StepKeepsInvariant(s: Server, fd: Fd, r: Report, sid: SocketId)
    requires Enabled(s, fd, r, sid)
    ensures Invariant(Exec(s, fd, r, sid))
  {
    if !s.events[fd].ListenToClient? {
      StepIsLocal(s, fd, r, sid);
      LocalChangeKeepsInvariant(s, Exec(s, fd, r, sid), s.events[fd].socket);
    } else {
      if r.conn.Some? {
        ListenIsLocal(s, fd, r, sid);
        LocalChangeKeepsInvariant(s, Exec(s, fd, r, sid), sid);
      } else {
        ListenFails(s, fd, s.events[fd].(connFd := -1));
      }
    }
  }

  /** Other events stay registered, so every descriptor of a batch still has its event when its turn comes. */
  lemma StepKeepsOthers(s: Server, fd: Fd, r: Report, sid: SocketId, f: Fd)
    requires Enabled(s, fd, r, sid) && f in s.events && f != fd
    ensures f in Exec(s, fd, r, sid).events && Exec(s, fd, r, sid).events[f] == s.events[f]
  {
    assert EventOk(s, fd);
    if !s.events[fd].ListenToClient? {
      StepIsLocal(s, fd, r, sid);
    } else if r.conn.Some? {
      ListenAccepts(s, fd, r, sid);
    }
  }

  lemma FreedPointwise(freed: multiset<SocketId>, freed': multiset<SocketId>)
    requires forall i :: freed[i] <= freed'[i]
    ensures freed <= freed'
  {
  }

  /** Nothing that has been freed is freed again or comes back. */
  lemma StepFreesOnce(s: Server, fd: Fd, r: Report, sid: SocketId)
    requires Enabled(s, fd, r, sid)
    ensures s.freed <= Exec(s, fd, r, sid).freed
  {
    if !s.events[fd].ListenToClient? {
      StepIsLocal(s, fd, r, sid);
      FreedPointwise(s.freed, Exec(s, fd, r, sid).freed);
    } else if r.conn.Some? {
      ListenAccepts(s, fd, r, sid);
    } else {
      assert Exec(s, fd, r, sid) == AfterDo(s, fd, r);
    }
  }

  ghost function Initial(listeners: set<Fd>): Server {
    Server(listeners, map l | l in listeners :: ListenToClient(l, -1, None), map l | l in listeners :: EpollIn,
           map[], multiset{})
  }

  /** A turn for `fd` finds an event, the Socket that it uses, not freed, and the script if it needs one. */
  predicate IsDefined(s: Server, fd: Fd) {
    && fd in s.events && WellLinked(s, s.events[fd])
    && (s.events[fd].ListenToClient? || Live(s, s.events[fd].socket))
  }

  /**
   One turn of the loop, for a descriptor `fd` that is monitored, whatever state the server is in. If the turn
   is not defined, it may lead anywhere.
   */
  ghost predicate Turn(s: Server, fd: Fd, r: Report, sid: SocketId, s': Server) {
    && fd in s.epoll && sid !in s.sockets
    && (IsDefined(s, fd) ==> CanReport(s, s.events[fd], r) && s' == Exec(s, fd, r, sid))
  }

  ghost predicate Steps(s: Server, s': Server) {
    exists fd, r, sid :: Turn(s, fd, r, sid, s')
  }

  /** Whatever is monitored, the next turn for it is defined; no Socket is freed twice, and none is lost. */
  ghost predicate Safe(s: Server) {
    && s.events.Keys == s.epoll.Keys && (forall f <- s.epoll :: IsDefined(s, f))
    && (forall id :: s.freed[id] <= 1)
    && (forall id <- s.sockets | id !in s.freed :: exists f <- FdsOf(s.sockets[id]) :: Holds(s, f, id))
  }

  /** In every run from the start, whatever is ready when and whatever it reports, every state is safe. */
  lemma RunsAreSafe(listeners: set<Fd>, run: seq<Server>)
    requires IsRun(listeners, run)
    ensures forall s <- run :: Invariant(s) && Safe(s)
  {
    InitialHolds(listeners);
    for i := 0 to |run| - 1
      invariant forall j | 0 <= j <= i :: Invariant(run[j])
    {
      assert Steps(run[i], run[i + 1]);
      TurnKeepsInvariant(run[i], run[i + 1]);
    }
    forall s <- run ensures Invariant(s) && Safe(s) {
      InvariantMeans(s);
    }
  }

  lemma TurnKeepsInvariant(s: Server, s': Server)
    requires Invariant(s) && Steps(s, s')
    ensures Invariant(s')
  {
    var fd, r, sid :| Turn(s, fd, r, sid, s');
    InvariantMeans(s);
    StepKeepsInvariant(s, fd, r, sid);
  }

  lemma InitialHolds(listeners: set<Fd>)
    ensures Invariant(Initial(listeners))
  {
  }

  /**
   A listener is the exception: it keeps the pointer to the Socket of its last connection. If that
   connection is closed at once, the pointer dangles.
   */
  lemma ListenerKeepsFreed(s: Server, fd: Fd, conn: Fd, sid: SocketId, sid': SocketId)
    requires Enabled(s, fd, Accepted(Some(conn)), sid) && s.events[fd].ListenToClient?
    requires sid' !in s.sockets && sid' != sid
    ensures var accepted := Exec(s, fd, Accepted(Some(conn)), sid);
            && Enabled(accepted, conn, NoRequest, sid')
            && fd in Exec(accepted, conn, NoRequest, sid').events
            && Exec(accepted, conn, NoRequest, sid').events[fd] == ListenToClient(fd, conn, Some(sid))
            && sid in Exec(accepted, conn, NoRequest, sid').freed
  {
    var accepted := Exec(s, fd, Accepted(Some(conn)), sid);
    assert EventOk(s, fd);
    ListenAccepts(s, fd, Accepted(Some(conn)), sid);
    StepKeepsInvariant(s, fd, Accepted(Some(conn)), sid);
    var e, sock := LocalHolds(accepted, conn, NoRequest, sid');
    ReceiveDisconnects(accepted, conn, NoRequest, sid', e, sock);
  }

  lemma InvariantMeans(s: Server)
    requires Invariant(s)
    ensures Safe(s)
  {
    forall f <- s.epoll ensures IsDefined(s, f) {
      assert f in s.events && EventOk(s, f);
    }
    forall id ensures s.freed[id] <= 1 {
      if id in s.freed { assert s.freed[id] == 1; }
    }
    forall id <- s.sockets | id !in s.freed ensures exists f <- FdsOf(s.sockets[id]) :: Holds(s, f, id) {
      assert SocketOk(s, id);
    }
  }

  // ---------------------------------------------------------------------------------------------
  // The class

  lemma StepCreates(s: Server, fd: Fd, r: Report, sid: SocketId)
    requires Enabled(s, fd, r, sid)
    ensures forall id <- Exec(s, fd, r, sid).sockets :: id in s.sockets || id == sid
  {
    if !s.events[fd].ListenToClient? {
      StepIsLocal(s, fd, r, sid);
    } else if r.conn.Some? {
      ListenAccepts(s, fd, r, sid);
    } else {
      assert Exec(s, fd, r, sid) == AfterDo(s, fd, r);
    }
  }

  /** All events but those for `done` are still registered. */
  ghost predicate KeepsBut(events: map<Fd, Event>, events': map<Fd, Event>, done: seq<Fd>) {
    forall f <- events | f !in done :: f in events' && events'[f] == events[f]
  }

  lemma KeepsOneMore(events: map<Fd, Event>, events': map<Fd, Event>, events'': map<Fd, Event>, done: seq<Fd>, fd: Fd)
    requires KeepsBut(events, events', done) && KeepsBut(events', events'', [fd])
    ensures KeepsBut(events, events'', done + [fd])
  {
    forall f <- events | f !in done + [fd] ensures f in events'' && events''[f] == events[f] {
      assert f !in done && f !in [fd];
    }
  }

  lemma StepIsSafe(s: Server, fd: Fd, r: Report, sid: SocketId)
    requires Enabled(s, fd, r, sid)
    ensures var s' := Exec(s, fd, r, sid);
            && Invariant(s') && s.freed <= s'.freed
            && (forall id <- s'.sockets :: id in s.sockets || id == sid)
            && KeepsBut(s.events, s'.events, [fd])
  {
    StepKeepsInvariant(s, fd, r, sid);
    StepFreesOnce(s, fd, r, sid);
    StepCreates(s, fd, r, sid);
    forall f <- s.events | f != fd
      ensures f in Exec(s, fd, r, sid).events && Exec(s, fd, r, sid).events[f] == s.events[f]
    {
      StepKeepsOthers(s, fd, r, sid, f);
    }
  }

  /** A turn: for which descriptor, with what report, and the Socket that a listener creates. */
  datatype Execution = Execution(fd: Fd, report: Report, sid: SocketId)

  /** A turn that is defined, and what it leads to. */
  ghost predicate Executes(s: Server, e: Execution, s': Server) {
    && IsDefined(s, e.fd) && CanReport(s, s.events[e.fd], e.report) && e.sid !in s.sockets
    && s' == Exec(s, e.fd, e.report, e.sid)
  }

  /** Turns of the descriptors in `ready`, from the first on, and the states before, between and after them. */
  ghost predicate IsBatch(run: seq<Server>, turns: seq<Execution>, ready: seq<Fd>) {
    IsTrace(Executes, run, turns) && |turns| <= |ready| && forall i | 0 <= i < |turns| :: turns[i].fd == ready[i]
  }

  lemma TurnIsExecuted(s: Server, fd: Fd, r: Report, sid: SocketId)
    requires Enabled(s, fd, r, sid)
    ensures Executes(s, Execution(fd, r, sid), Exec(s, fd, r, sid))
  {
    assert EventOk(s, fd);
  }

  lemma ExecutedTurnSteps(s: Server, e: Execution, s': Server)
    requires Invariant(s) && Executes(s, e, s')
    ensures Steps(s, s') && Invariant(s')
  {
    assert Turn(s, e.fd, e.report, e.sid, s');
    TurnKeepsInvariant(s, s');
  }

  /** A run of the loop from the start. */
  ghost predicate IsRun(listeners: set<Fd>, run: seq<Server>) {
    run != [] && run[0] == Initial(listeners) && IsPath(Steps, run)
  }

  lemma BatchSteps(batch: seq<Server>, turns: seq<Execution>)
    requires IsTrace(Executes, batch, turns) && Invariant(batch[0])
    ensures IsPath(Steps, batch)
  {
    for n := 0 to |turns|
      invariant forall i | 0 <= i < n :: Steps(batch[i], batch[i + 1])
      invariant Invariant(batch[n])
    {
      ExecutedTurnSteps(batch[n], turns[n], batch[n + 1]);
    }
  }

  /** A batch that goes on where a run has come to makes it a longer run. */
  lemma BatchExtendsRun(listeners: set<Fd>, run: seq<Server>, batch: seq<Server>, turns: seq<Execution>,
                        ready: seq<Fd>)
    requires IsRun(listeners, run) && IsBatch(batch, turns, ready) && batch[0] == run[|run| - 1]
    ensures IsRun(listeners, run + batch[1..])
  {
    RunsAreSafe(listeners, run);
    BatchSteps(batch, turns);
    JoinPaths(Steps, run, batch);
  }

  /** The dullest report each event can get. */
  function DullReport(e: Event): Report {
    match e
    case ListenToClient(_, _, _) => Accepted(None)
    case ReceiveRequest(_, _, _, _) => Incomplete(WaitRequest)
    case CgiRead(_, _, _) => CgiReadError
    case CgiResponse(_, sentLast, err) => Answered(sentLast, err)
    case _ => Sent(More)
  }

  class EventServer {
    const listeners: set<Fd>
    var eventMap: map<Fd, Event>
    var epollMap: map<Fd, Flag>
    var sockets: map<SocketId, Socket>
    var freed: multiset<SocketId>
    var created: nat  // Sockets so far

    ghost predicate Valid()
      reads this
    {
      Invariant(State()) && forall id <- sockets :: id < created
    }

    ghost function State(): Server
      reads this
    {
      Server(listeners, eventMap, epollMap, sockets, freed)
    }

    constructor (listeners: set<Fd>)
      ensures State() == Initial(listeners) && Valid()
    {
      this.listeners := listeners;
      eventMap := map l | l in listeners :: ListenToClient(l, -1, None);
      epollMap := map l | l in listeners :: EpollIn;
      sockets, freed, created := map[], multiset{}, 0;
    }

    /** `Do` of the event registered for `fd`. */
    method Do(fd: Fd, r: Report) returns (threw: bool)
      requires fd in eventMap && WellLinked(State(), eventMap[fd])
      modifies this`eventMap, this`epollMap, this`sockets, this`freed
      ensures State() == AfterDo(old(State()), fd, r) && threw == Throws(old(eventMap[fd]), r)
    {
      var event := eventMap[fd];
      threw := Throws(event, r);
      eventMap := eventMap[fd := DoEvent(Server(listeners, eventMap, epollMap, sockets, freed), event, r)];
      if !event.ListenToClient? {
        sockets := sockets[event.socket := DoSocket(sockets[event.socket], event, r)];
      }
    }

    method Handle(fd: Fd)
      requires fd in eventMap && WellLinked(State(), eventMap[fd])
      modifies this`epollMap
      ensures State() == AfterHandle(old(State()), fd)
    {
      var mod := HandleOf(Server(listeners, eventMap, epollMap, sockets, freed), eventMap[fd]);
      if mod.Some? {
        epollMap := epollMap[mod.value.0 := mod.value.1];
      }
    }

    method AddEventToMonitored(fd: Fd, event: Event, flag: Flag)
      modifies this`eventMap, this`epollMap
      ensures eventMap == old(eventMap)[fd := event]
      ensures epollMap == if fd in old(epollMap) then old(epollMap) else old(epollMap)[fd := flag]
    {
      eventMap := eventMap[fd := event];
      if fd !in epollMap {
        epollMap := epollMap[fd := flag];
      }
    }

    method RegisterNewEvent(fd: Fd, newSocket: SocketId)
      requires fd in eventMap && WellLinked(State(), eventMap[fd])
      modifies this`eventMap, this`epollMap, this`sockets, this`freed
      ensures State() == AfterRegister(old(State()), fd, newSocket)
    {
      var s := Server(listeners, eventMap, epollMap, sockets, freed);
      var event := eventMap[fd];
      var published := PublishOf(s, event, newSocket);
      eventMap := eventMap[fd := PublishedEvent(s, event, newSocket)];
      if event.ListenToClient? {
        sockets := sockets[newSocket := Socket(event.connFd, false, None)];
      } else if event.CgiRead? && GivesUp(s, event) {
        sockets := sockets[event.socket := sockets[event.socket].(responseSet := true)];
      }
      if published.Nothing? {
        return;
      }
      AddEventToMonitored(published.fd, published.event, published.flag);
    }

    method NextEvent(fd: Fd)
      requires fd in eventMap && WellLinked(State(), eventMap[fd])
      modifies this`eventMap, this`epollMap, this`sockets, this`freed
      ensures State() == AfterNext(old(State()), fd)
    {
      var event := eventMap[fd];
      var next := NextOf(event);
      var state := StateOf(Server(listeners, eventMap, epollMap, sockets, freed), event);
      if next.Some? {
        freed := freed + Frees(event);
        eventMap := eventMap[fd := next.value];
      } else if state == ReadDisconnect {
        epollMap := epollMap - {fd};
        if !event.ListenToClient? {
          freed := freed + multiset{event.socket};
        }
        freed := freed + Frees(event);
        eventMap := eventMap - {fd};
      } else if state == Del {
        epollMap := epollMap - {fd};
        freed := freed + Frees(event);
        eventMap := eventMap - {fd};
      }
    }

    /**
     One batch of ready descriptors, each registered when the batch was taken: their events are executed, one
     after the other and each once, whatever the system calls report. Every descriptor still has its event when
     its turn comes. A read of a request may throw what nothing catches; then the process is gone in the middle
     of the batch, with that event in place.
     */
    method EventExec(ready: seq<Fd>)
      returns (gone: bool, ghost turns: seq<Execution>, ghost run: seq<Server>)
      requires Valid()
      requires forall i | 0 <= i < |ready| :: ready[i] in eventMap
      requires forall i, j | 0 <= i < j < |ready| :: ready[i] != ready[j]
      modifies this
      ensures Valid() && old(freed) <= freed
      ensures KeepsBut(old(eventMap), eventMap, ready)
      ensures IsBatch(run, turns, ready) && run[0] == old(State()) && run[|turns|] == State()
      ensures !gone ==> |turns| == |ready|
      ensures gone ==> var k := |turns|; k < |ready| && ready[k] in eventMap && eventMap[ready[k]].ReceiveRequest?
    {
      turns, run := [], [State()];
      for i := 0 to |ready|
        invariant Valid() && old(freed) <= freed
        invariant KeepsBut(old(eventMap), eventMap, ready[..i])
        invariant |turns| == i && IsBatch(run, turns, ready) && run[0] == old(State()) && run[i] == State()
      {
        var fd := ready[i];
        assert fd !in ready[..i];
        gone := Aborts(eventMap[fd]);
        if gone { return; }
        assert ready[..i + 1] == ready[..i] + [fd];
        turns, run := ExecNext(old(eventMap), ready, fd, turns, run);
      }
      assert ready[..|ready|] == ready;
      gone := false;
    }

    /** The next turn of a batch, with the turns before it. */
    method ExecNext(ghost events: map<Fd, Event>, ghost ready: seq<Fd>, fd: Fd,
                    ghost turns: seq<Execution>, ghost run: seq<Server>)
      returns (ghost turns': seq<Execution>, ghost run': seq<Server>)
      requires Valid() && fd in eventMap && IsBatch(run, turns, ready) && run[|turns|] == State()
      requires |turns| < |ready| && ready[|turns|] == fd && KeepsBut(events, eventMap, ready[..|turns|])
      modifies this
      ensures Valid() && old(freed) <= freed && KeepsBut(events, eventMap, ready[..|turns|] + [fd])
      ensures IsBatch(run', turns', ready) && |turns'| == |turns| + 1 && run' == run + [State()]
    {
      ghost var before, sid := State(), created;
      var report := ExecOne(fd);
      TurnIsExecuted(before, fd, report, sid);
      KeepsOneMore(events, before.events, eventMap, ready[..|turns|], fd);
      turns', run' := turns + [Execution(fd, report, sid)], run + [State()];
      ExtendTrace(Executes, run, turns, Execution(fd, report, sid), State());
    }

    /** Any read of a request may be the one in which the decoder runs out of its buffer. */
    method Aborts(event: Event) returns (gone: bool)
      ensures gone ==> event.ReceiveRequest?
    {
      gone := *;
      gone := gone && event.ReceiveRequest?;
    }

    /** The body of the loop, with whatever report the environment comes up with. */
    method ExecOne(fd: Fd) returns (report: Report)
      requires Valid() && fd in eventMap
      modifies this
      ensures Valid() && Enabled(old(State()), fd, report, old(created))
      ensures State() == Exec(old(State()), fd, report, old(created))
      ensures old(freed) <= freed && KeepsBut(old(eventMap), eventMap, [fd])
    {
      report := Poll(eventMap[fd]);
      ExecReported(fd, report);
    }

    method ExecReported(fd: Fd, report: Report)
      requires Valid() && Enabled(State(), fd, report, created)
      modifies this
      ensures Valid() && State() == Exec(old(State()), fd, report, old(created))
      ensures old(freed) <= freed && KeepsBut(old(eventMap), eventMap, [fd])
    {
      StepIsSafe(State(), fd, report, created);
      Round(fd, report, created);
      created := created + 1;
    }

    /** Any report the event can get. */
    method Poll(event: Event) returns (report: Report)
      ensures CanReport(State(), event, report)
    {
      report := *;
      if !CanReport(Server(listeners, eventMap, epollMap, sockets, freed), event, report) {
        report := DullReport(event);
      }
    }

    method Round(fd: Fd, report: Report, newSocket: SocketId)
      requires Enabled(State(), fd, report, newSocket)
      modifies this`eventMap, this`epollMap, this`sockets, this`freed
      ensures State() == Exec(old(State()), fd, report, newSocket)
    {
      ghost var s := State();
      assert EventOk(s, fd);
      var threw := Do(fd, report);
      if !threw {
        DoKeepsLinks(s, fd, report);
        Handle(fd);
        assert WellLinked(State(), eventMap[fd]);
        RegisterKeepsLinks(State(), fd, newSocket);
        RegisterNewEvent(fd, newSocket);
        NextEvent(fd);
      }
    }
  }
}
