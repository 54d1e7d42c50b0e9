/** The RPC server: its connection and task tables, and what each callback sends.  A connection is its non-null
    address; each callback is one atomic step. */
module RpcServers {
  import opened Assets
  import opened Options
  import opened Splitting

  type Ptr = x: int | 0 <= x < 0x1_0000_0000_0000_0000
  type Connection = x: Ptr | x != 0 witness 1
  type Id = x: int | 0 <= x < 0x1_0000_0000

  type Outputs = s: seq<string> | |s| == 6 witness ["", "", "", "", "", ""]

  const NULL: Ptr := 0

  const KV_ENGINE_MSG_TYPE_MIN := 1234
  const KV_ENGINE_MSG_TYPE_GET_ASSETS := 1238
  const KV_ENGINE_MSG_TYPE_CENTER_AGENT_POST := 1239
  const KV_ENGINE_MSG_TYPE_MAX := 1244

  datatype Task = Task(conn: Ptr, id: Id, mtype: Id)

  /** What std::map's operator[] inserts for a key it does not find. */
  const EMPTY: Task := Task(NULL, 0, 0)

  datatype Message = KvMessage(id: Id, mtype: Id, data: string) | TextMessage(cmd: int, text: string)

  datatype Notification = KvRequest(id: Id, mtype: Id, data: string) | Scan(tag: Ptr, text: string) | StopScan

  /** A message sent to a client, or a notification handed to the other modules. */
  datatype Output = Send(to: Ptr, message: Message) | Notify(notification: Notification)

  datatype Server = Server(tasks: map<Id, Task>, connected: map<Ptr, Ptr>, mainConn: Ptr, assets: string,
                           out: seq<Output>)

  /** outputs are the results of the six asset commands, should they be run. */
  datatype Event = Connect(conn: Connection)
                 | Request(conn: Connection, id: Id, mtype: Id, checksumOk: bool, data: string, outputs: Outputs)
                 | DataMessage(conn: Connection, cmd: int, text: Option<string>)
                 | Close(conn: Connection)
                 | PostData(buffer: Option<string>)
                 | Reply(id: Id, mtype: Id, payload: string)

  const DATA_SIZE := 4096

  const ERROR_DATA: string := [0xFF as char]

  predicate ValidType(mtype: Id) {
    KV_ENGINE_MSG_TYPE_MIN < mtype < KV_ENGINE_MSG_TYPE_MAX
  }

  // ----- lookups -----

  ghost predicate IsLeast(k: Id, ids: set<Id>) {
    k in ids && forall j :: j in ids ==> k <= j
  }

  lemma {:induction false} LeastExists(ids: set<Id>)
    requires ids != {}
    ensures exists k :: IsLeast(k, ids)
  {
    var x :| x in ids;
    var rest := ids - {x};
    if rest == {} {
      assert ids == {x};
      assert IsLeast(x, ids);
    } else {
      LeastExists(rest);
      var k :| IsLeast(k, rest);
      assert ids == rest + {x};
      assert IsLeast(if x <= k then x else k, ids);
    }
  }

  ghost function Least(ids: set<Id>): (k: Id)
    requires ids != {}
    ensures IsLeast(k, ids)
  {
    LeastExists(ids);
    var k :| IsLeast(k, ids);
    k
  }

  ghost function OfType(tasks: map<Id, Task>, mtype: Id): set<Id> {
    set k | k in tasks && tasks[k].mtype == mtype
  }

  /** FindTask: std::map iterates in key order, so it finds the least id. */
  ghost function Find(tasks: map<Id, Task>, mtype: Id): Option<Task> {
    var ids := OfType(tasks, mtype);
    if ids == {} then None else Some(tasks[Least(ids)])
  }

  function At(tasks: map<Id, Task>, id: Id): Task {
    if id in tasks then tasks[id] else EMPTY
  }

  // ----- the steps; with insert false, lookups leave the table alone -----

  function Sent(s: Server, to: Ptr, message: Message): Server {
    if to == NULL then s else s.(out := s.out + [Send(to, message)])
  }

  /** KVEngineDoResponse without a connection. */
  ghost function Respond(insert: bool, s: Server, id: Id, mtype: Id, data: string): Server {
    if id != 0 then
      Sent(if insert then s.(tasks := s.tasks[id := At(s.tasks, id)]) else s,
           At(s.tasks, id).conn, KvMessage(id, mtype, data))
    else if mtype != 0 then
      match Find(s.tasks, mtype)
      case None => s
      case Some(t) => Sent(s, t.conn, KvMessage(t.id, mtype, data))
    else s
  }

  function WithAssets(s: Server, outputs: Outputs): Server {
    if s.assets == "" then s.(assets := Assembled(Gathered(outputs))) else s
  }

  predicate Registers(e: Event) {
    e.Request? && e.checksumOk && ValidType(e.mtype)
  }

  function OnRequest(s: Server, e: Event): Server
    requires e.Request?
  {
    if !Registers(e) then Sent(s, e.conn, KvMessage(e.id, e.mtype, ERROR_DATA))
    else
      var s1 := s.(tasks := s.tasks[e.id := Task(e.conn, e.id, e.mtype)]);
      if e.mtype == KV_ENGINE_MSG_TYPE_CENTER_AGENT_POST then s1
      else if e.mtype == KV_ENGINE_MSG_TYPE_GET_ASSETS then
        var s2 := WithAssets(s1, e.outputs);
        Sent(s2, e.conn, KvMessage(e.id, e.mtype, s2.assets))
      else s1.(out := s1.out + [Notify(KvRequest(e.id, e.mtype, e.data))])
  }

  /** The C string that a message carries; empty if it carries none. */
  function ScanText(text: Option<string>): string {
    match text
    case None => ""
    case Some(t) => Until(t, '\0')
  }

  /** The messages on which the server does what C leaves undefined: the text to be scanned and its NUL do not fit
      into the 4096 octets they are copied to. */
  predicate Overruns(e: Event) {
    e.DataMessage? && e.cmd == 9528 && |ScanText(e.text)| >= DATA_SIZE
  }

  /** What a data message does; if it overruns, what it has done up to then. */
  function OnData(s: Server, conn: Connection, cmd: int, text: Option<string>): Server {
    var t := ScanText(text);
    if cmd == 9528 then
      if |t| >= DATA_SIZE then s
      else Sent(if t != "" then s.(out := s.out + [Notify(Scan(conn, t))]) else s, conn, TextMessage(9528, "OKAY"))
    else if cmd == 9527 then s.(mainConn := conn)
    else s
  }

  function OnClose(s: Server, conn: Connection): Server {
    Server(map k | k in s.tasks && s.tasks[k].conn != conn :: s.tasks[k],
           s.connected[conn := NULL],
           if s.mainConn == conn then NULL else s.mainConn,
           s.assets,
           s.out + if s.mainConn == conn then [Notify(StopScan)] else [])
  }

  ghost function Step(insert: bool, s: Server, e: Event): Server {
    match e
    case Connect(conn) => s.(connected := s.connected[conn := conn])
    case Request(_, _, _, _, _, _) => OnRequest(s, e)
    case DataMessage(conn, cmd, text) => OnData(s, conn, cmd, text)
    case Close(conn) => OnClose(s, conn)
    case PostData(buffer) => if buffer.Some? then Sent(s, s.mainConn, TextMessage(9527, buffer.value)) else s
    case Reply(id, mtype, payload) => Respond(insert, s, id, mtype, payload)
  }

  // ----- the server object -----

  class RpcServer {
    var msgConnMaps: map<Id, Task>
    var mapConn: map<Ptr, Ptr>
    var connectRef: Ptr
    const assets: AssetString
    var out: seq<Output>

    function Current(): Server
      reads this, assets
    {
      Server(msgConnMaps, mapConn, connectRef, assets.assets, out)
    }

    constructor ()
      ensures Current() == Server(map[], map[], NULL, "", []) && fresh(assets)
    {
      assets := new AssetString();
      msgConnMaps, mapConn, connectRef, out := map[], map[], NULL, [];
    }

    method OnConnect(conn: Connection)
      modifies this
      ensures Current() == Step(true, old(Current()), Connect(conn))
    {
      mapConn := mapConn[conn := conn];
    }

    method OnReceiveKVEngine(conn: Connection, id: Id, mtype: Id, checksumOk: bool, data: string, outputs: Outputs)
      modifies this, assets
      ensures Current() == Step(true, old(Current()), Request(conn, id, mtype, checksumOk, data, outputs))
    {
      if !checksumOk || mtype <= KV_ENGINE_MSG_TYPE_MIN || mtype >= KV_ENGINE_MSG_TYPE_MAX {
        DoResponseTo(id, mtype, ERROR_DATA, conn);
        return;
      }
      msgConnMaps := msgConnMaps[id := Task(conn, id, mtype)];
      if mtype == KV_ENGINE_MSG_TYPE_CENTER_AGENT_POST {
      } else if mtype == KV_ENGINE_MSG_TYPE_GET_ASSETS {
        if |assets.assets| == 0 {
          assets.GetAssets(outputs);
          assert assets.assets == Assembled(Gathered(outputs));
        }
        DoResponseTo(id, mtype, assets.assets, conn);
      } else {
        out := out + [Notify(KvRequest(id, mtype, data))];
      }
    }

    method OnDataRecv(conn: Connection, cmd: int, text: Option<string>) returns (faulted: bool)
      modifies this
      ensures faulted == Overruns(DataMessage(conn, cmd, text))
      ensures Current() == Step(true, old(Current()), DataMessage(conn, cmd, text))
    {
      faulted := false;
      if cmd == 9528 {
        if text.Some? && |Until(text.value, '\0')| > 0 {
          var data := new char[DATA_SIZE](_ => '\0');
          faulted := StrCpy(data, text.value);
          if faulted {
            return;
          }
          out := out + [Notify(Scan(conn, Until(data[..], '\0')))];
        }
        out := out + [Send(conn, TextMessage(9528, "OKAY"))];
      } else if cmd == 9527 {
        connectRef := conn;
      }
    }

    method OnCloseConnection(conn: Connection)
      modifies this
      ensures Current() == Step(true, old(Current()), Close(conn))
    {
      mapConn := mapConn[conn := NULL];
      if connectRef == conn {
        connectRef := NULL;
        out := out + [Notify(StopScan)];
      }
      ghost var tasks := msgConnMaps;
      var rest := msgConnMaps.Keys;
      while rest != {}
        invariant rest <= msgConnMaps.Keys <= tasks.Keys
        invariant forall k :: k in tasks ==> (k in msgConnMaps <==> k in rest || tasks[k].conn != conn)
        invariant forall k :: k in msgConnMaps ==> msgConnMaps[k] == tasks[k]
        invariant mapConn == old(mapConn)[conn := NULL]
        invariant connectRef == if old(connectRef) == conn then NULL else old(connectRef)
        invariant out == old(out) + if old(connectRef) == conn then [Notify(StopScan)] else []
        decreases rest
      {
        var k :| k in rest;
        if msgConnMaps[k].conn == conn {
          msgConnMaps := msgConnMaps - {k};
        }
        rest := rest - {k};
      }
    }

    method OnPostData(buffer: Option<string>)
      modifies this
      ensures Current() == Step(true, old(Current()), PostData(buffer))
    {
      if buffer.None? {
        return;
      }
      if connectRef != NULL {
        out := out + [Send(connectRef, TextMessage(9527, buffer.value))];
      }
    }

    method FindTask(mtype: Id) returns (t: Option<Task>)
      ensures t == Find(msgConnMaps, mtype)
    {
      var rest := msgConnMaps.Keys;
      while rest != {}
        invariant rest <= msgConnMaps.Keys
        invariant forall j, k :: j in msgConnMaps && j !in rest && k in rest ==> j < k
        invariant forall j :: j in msgConnMaps && j !in rest ==> msgConnMaps[j].mtype != mtype
        decreases rest
      {
        var k := First(rest);
        if msgConnMaps[k].mtype == mtype {
          assert k in OfType(msgConnMaps, mtype);
          return Some(msgConnMaps[k]);
        }
        rest := rest - {k};
      }
      assert OfType(msgConnMaps, mtype) == {};
      t := None;
    }

    method DoResponseTo(id: Id, mtype: Id, data: string, conn: Connection)
      modifies this
      ensures Current() == Sent(old(Current()), conn, KvMessage(id, mtype, data))
    {
      out := out + [Send(conn, KvMessage(id, mtype, data))];
    }

    // KVEngineDoResponse with conn == NULL
    method DoResponse(id: Id, mtype: Id, data: string)
      modifies this
      ensures Current() == Step(true, old(Current()), Reply(id, mtype, data))
    {
      var replyId, conn := id, NULL;
      if id != 0 {
        if id !in msgConnMaps {
          msgConnMaps := msgConnMaps[id := EMPTY];
        }
        conn := msgConnMaps[id].conn;
      } else if mtype != 0 {
        var t := FindTask(mtype);
        if t.Some? {
          replyId, conn := t.value.id, t.value.conn;
        }
      }
      if conn == NULL {
        return;
      }
      out := out + [Send(conn, KvMessage(replyId, mtype, data))];
    }
  }

  /** strcpy; from ends at its first NUL, or with one behind it.  faulted: to is too small for it. */
  method StrCpy(to: array<char>, from: string) returns (faulted: bool)
    modifies to
    ensures faulted == (|Until(from, '\0')| >= to.Length)
    ensures !faulted ==> Until(to[..], '\0') == Until(from, '\0')
  {
    ghost var text := Until(from, '\0');
    var i := 0;
    while i < |from| && from[i] != '\0'
      invariant 0 <= i <= |text| && i <= to.Length
      invariant forall j :: 0 <= j < i ==> to[j] == text[j]
    {
      if i == to.Length {
        return true;
      }
      to[i] := from[i];
      i := i + 1;
    }
    assert i == |text|;
    if i == to.Length {
      return true;
    }
    to[i] := '\0';
    UntilUnique(to[..], '\0', text);
    faulted := false;
  }

  // the next key in the order of a std::map
  method First(ids: set<Id>) returns (k: Id)
    requires ids != {}
    ensures k in ids && forall j :: j in ids ==> k <= j
  {
    k :| k in ids;
    var rest := ids - {k};
    while rest != {}
      invariant rest <= ids && k in ids
      invariant forall j :: j in ids && j !in rest ==> k <= j
      decreases rest
    {
      var j :| j in rest;
      if j < k {
        k := j;
      }
      rest := rest - {j};
    }
  }

  /** A text without NUL is forwarded and acknowledged if it has at most 4095 octets; otherwise the message overruns,
      and nothing is sent. */
  lemma LongTextOverruns(s: Server, conn: Connection, text: string)
    requires '\0' !in text && text != ""
    ensures var e := DataMessage(conn, 9528, Some(text));
            && (Overruns(e) <==> |text| >= 4096)
            && Step(true, s, e).out
               == if |text| >= 4096 then s.out
                  else s.out + [Notify(Scan(conn, text)), Send(conn, TextMessage(9528, "OKAY"))]
  {
    UntilUnique(text, '\0', text);
    assert s.out + [Notify(Scan(conn, text))] + [Send(conn, TextMessage(9528, "OKAY"))]
        == s.out + [Notify(Scan(conn, text)), Send(conn, TextMessage(9528, "OKAY"))];
    hide Until;
  }

  lemma OverrunsExactly(e: Event)
    ensures Overruns(e)
       <==> e.DataMessage? && e.cmd == 9528 && e.text.Some? && |Until(e.text.value, '\0')| >= 4096
  {
  }

  lemma PageOfTextOverruns(conn: Connection)
    ensures Overruns(DataMessage(conn, 9528, Some(Copies('a', 4096))))
  {
    LongTextOverruns(Server(map[], map[], NULL, "", []), conn, Copies('a', 4096));
    hide Copies, Overruns;
  }

  // ----- what a request does -----

  /** A request is taken if its checksum is right and its type lies between 1234 and 1244. */
  lemma TakenExactly(e: Event)
    ensures Registers(e) <==> e.Request? && e.checksumOk && 1234 < e.mtype < 1244
  {
  }

  /** In every state: a request that is not taken is refused to its sender with the octet -1 and leaves everything else
      alone; one that is taken is registered, and then kept (1239), answered with the assets (1238), or handed to the
      other modules. */
  lemma RequestExactly(s: Server, e: Event)
    requires e.Request?
    ensures var s', taken := Step(true, s, e), e.checksumOk && 1234 < e.mtype < 1244;
            && s'.tasks == (if taken then s.tasks[e.id := Task(e.conn, e.id, e.mtype)] else s.tasks)
            && s'.connected == s.connected && s'.mainConn == s.mainConn
            && (!taken || e.mtype != 1238 || s.assets != "" ==> s'.assets == s.assets)
            && s'.out == s.out + if !taken then [Send(e.conn, KvMessage(e.id, e.mtype, [0xFF as char]))]
                                 else if e.mtype == 1239 then []
                                 else if e.mtype == 1238 then [Send(e.conn, KvMessage(e.id, 1238, s'.assets))]
                                 else [Notify(KvRequest(e.id, e.mtype, e.data))]
  {
    hide Assembled, Gathered;
  }

  // ----- runs, those that a fault cuts short among them -----

  ghost function Run(insert: bool, events: seq<Event>): Server {
    if events == [] then Server(map[], map[], NULL, "", [])
    else Step(insert, Run(insert, events[..|events| - 1]), events[|events| - 1])
  }

  /** The tasks that carry a connection. */
  ghost function Live(tasks: map<Id, Task>): map<Id, Task> {
    map k | k in tasks && tasks[k].conn != NULL :: tasks[k]
  }

  /** Entries without a connection are exactly the inserted empty ones, and each task is stored under its id. */
  ghost predicate WellFormed(tasks: map<Id, Task>) {
    forall k :: k in tasks ==> if tasks[k].conn == NULL then tasks[k] == EMPTY else tasks[k].id == k
  }

  lemma LiveFinds(tasks: map<Id, Task>, mtype: Id)
    requires WellFormed(tasks) && mtype != 0
    ensures Find(Live(tasks), mtype) == Find(tasks, mtype)
  {
    assert OfType(Live(tasks), mtype) == OfType(tasks, mtype);
  }

  lemma StepKeepsForm(insert: bool, s: Server, e: Event)
    requires WellFormed(s.tasks)
    ensures WellFormed(Step(insert, s, e).tasks)
  {
  }

  /** One callback of the real server does to the live tasks, and sends, what the pure-lookup server does. */
  lemma StepRefines(s: Server, p: Server, e: Event)
    requires WellFormed(s.tasks) && p == s.(tasks := Live(s.tasks))
    ensures var s', p' := Step(true, s, e), Step(false, p, e);
            p' == s'.(tasks := Live(s'.tasks))
  {
    hide Live, Respond, OnRequest, OnClose, WellFormed;
    match e
    case Request(conn, id, mtype, _, _, _) =>
      RequestRefines(s, e);
    case Close(conn) =>
      CloseRefines(s, conn);
    case Reply(id, mtype, data) =>
      RespondRefines(s, id, mtype, data);
    case _ =>
  }

  lemma RequestRefines(s: Server, e: Event)
    requires e.Request?
    ensures OnRequest(s.(tasks := Live(s.tasks)), e) == OnRequest(s, e).(tasks := Live(OnRequest(s, e).tasks))
  {
    hide Live, Assembled, Gathered;
    LiveInsert(s.tasks, e.id, Task(e.conn, e.id, e.mtype));
  }

  lemma CloseRefines(s: Server, conn: Connection)
    ensures OnClose(s.(tasks := Live(s.tasks)), conn) == OnClose(s, conn).(tasks := Live(OnClose(s, conn).tasks))
  {
    LiveClose(s, conn);
    hide Live;
  }

  lemma LiveInsert(tasks: map<Id, Task>, id: Id, t: Task)
    requires t.conn != NULL
    ensures Live(tasks[id := t]) == Live(tasks)[id := t]
  {
  }

  lemma LiveClose(s: Server, conn: Connection)
    ensures Live(OnClose(s, conn).tasks) == OnClose(s.(tasks := Live(s.tasks)), conn).tasks
  {
  }

  lemma RespondRefines(s: Server, id: Id, mtype: Id, data: string)
    requires WellFormed(s.tasks)
    ensures var s', p := Respond(true, s, id, mtype, data), s.(tasks := Live(s.tasks));
            Respond(false, p, id, mtype, data) == s'.(tasks := Live(s'.tasks))
  {
    hide Find;
    if id != 0 {
      assert Live(s.tasks[id := At(s.tasks, id)]) == Live(s.tasks);
    } else if mtype != 0 {
      LiveFinds(s.tasks, mtype);
    }
  }

  /** In every run the empty entries that lookups insert change no message, nor anything else but themselves. */
  lemma {:induction false} LookupsAreHarmless(events: seq<Event>)
    ensures WellFormed(Run(true, events).tasks)
    ensures Run(false, events) == Run(true, events).(tasks := Live(Run(true, events).tasks))
    decreases |events|
  {
    if events == [] {
      assert Live(Run(true, events).tasks) == map[];
    } else {
      var init, e := events[..|events| - 1], events[|events| - 1];
      LookupsAreHarmless(init);
      StepKeepsForm(true, Run(true, init), e);
      StepRefines(Run(true, init), Run(false, init), e);
    }
  }

  // ----- who gets a reply -----

  /** The latest valid registration of id whose connection has not closed since. */
  ghost function Registered(events: seq<Event>, id: Id): Option<Task> {
    if events == [] then None
    else
      var before, e := Registered(events[..|events| - 1], id), events[|events| - 1];
      if Registers(e) && e.id == id then Some(Task(e.conn, id, e.mtype))
      else if e.Close? && before.Some? && before.value.conn == e.conn then None
      else before
  }

  lemma {:induction false} TableIsRegistry(events: seq<Event>, id: Id)
    ensures Registered(events, id) == var t := At(Run(true, events).tasks, id); if t.conn == NULL then None else Some(t)
    decreases |events|
  {
    if events != [] {
      TableIsRegistry(events[..|events| - 1], id);
    }
  }

  /** A reply with a nonzero id reaches the connection that registered the id last and is still there, and
      nobody else; without one nothing is sent. */
  lemma ReplyReachesRegistrant(events: seq<Event>, id: Id, mtype: Id, payload: string)
    requires id != 0
    ensures Run(true, events + [Reply(id, mtype, payload)]).out
         == Run(true, events).out + match Registered(events, id)
                                    case None => []
                                    case Some(t) => [Send(t.conn, KvMessage(id, mtype, payload))]
  {
    assert (events + [Reply(id, mtype, payload)])[..|events|] == events;
    TableIsRegistry(events, id);
  }

  /** A notice (id 0) reaches the least registered id of its type, under that id. */
  lemma NoticeReachesLeast(events: seq<Event>, mtype: Id, payload: string)
    requires mtype != 0
    ensures var s, s' := Run(true, events), Run(true, events + [Reply(0, mtype, payload)]);
            if forall k: Id :: Registered(events, k).None? || Registered(events, k).value.mtype != mtype
            then s'.out == s.out
            else exists k: Id ::
              && Registered(events, k).Some? && Registered(events, k).value.mtype == mtype
              && (forall j: Id :: Registered(events, j).Some? && Registered(events, j).value.mtype == mtype ==> k <= j)
              && s'.out == s.out + [Send(Registered(events, k).value.conn, KvMessage(k, mtype, payload))]
  {
    var tasks := Run(true, events).tasks;
    assert (events + [Reply(0, mtype, payload)])[..|events|] == events;
    LookupsAreHarmless(events);
    forall k: Id
      ensures Registered(events, k).Some? && Registered(events, k).value.mtype == mtype <==> k in OfType(tasks, mtype)
    {
      TableIsRegistry(events, k);
    }
    if OfType(tasks, mtype) != {} {
      var k := Least(OfType(tasks, mtype));
      TableIsRegistry(events, k);
    }
  }

  /** The latest sender of a 9527 message, unless it has closed since. */
  ghost function MainConnection(events: seq<Event>): Ptr {
    if events == [] then NULL
    else
      var before, e := MainConnection(events[..|events| - 1]), events[|events| - 1];
      if e.DataMessage? && e.cmd == 9527 then e.conn
      else if e.Close? && e.conn == before then NULL
      else before
  }

  lemma PostReachesMain(events: seq<Event>, text: string)
    ensures Run(true, events).mainConn == MainConnection(events)
    ensures Run(true, events + [PostData(Some(text))]).out
         == Run(true, events).out + if MainConnection(events) == NULL then []
                                    else [Send(MainConnection(events), TextMessage(9527, text))]
  {
    assert (events + [PostData(Some(text))])[..|events|] == events;
    MainIsLatest(events);
  }

  lemma {:induction false} MainIsLatest(events: seq<Event>)
    ensures Run(true, events).mainConn == MainConnection(events)
    decreases |events|
  {
    if events != [] {
      MainIsLatest(events[..|events| - 1]);
      hide Find, WithAssets;
    }
  }

  /** In every run, what the other callbacks send: a message 9528 forwards its text if that is neither missing nor
      empty and is acknowledged, unless the text is too long for its buffer; closing the main connection stops the
      scan; and nothing else is sent, by a reply without id and type neither. */
  lemma OutputExactly(events: seq<Event>, e: Event)
    requires !e.Request?
    ensures var before, after := Run(true, events).out, Run(true, events + [e]).out;
            match e
            case Connect(_) => after == before
            case DataMessage(conn, cmd, text) =>
              var scanned := if text.None? then "" else Until(text.value, '\0');
              after == before + if cmd != 9528 || |scanned| >= 4096 then []
                                else if scanned == "" then [Send(conn, TextMessage(9528, "OKAY"))]
                                else [Notify(Scan(conn, scanned)), Send(conn, TextMessage(9528, "OKAY"))]
            case Close(conn) =>
              after == before + if conn == MainConnection(events) then [Notify(StopScan)] else []
            case PostData(buffer) => buffer.None? ==> after == before
            case Reply(id, mtype, _) => id == 0 && mtype == 0 ==> after == before
            case _ => true
  {
    MainIsLatest(events);
    hide Find, Until, Run, MainConnection;
    var s := Run(true, events);
    assert Run(true, events + [e]) == Step(true, s, e) by { RunNext(events, e); }
    if e.DataMessage? {
      var t := ScanText(e.text);
      assert s.out + [Notify(Scan(e.conn, t))] + [Send(e.conn, TextMessage(9528, "OKAY"))]
          == s.out + [Notify(Scan(e.conn, t)), Send(e.conn, TextMessage(9528, "OKAY"))];
    }
  }

  lemma RunNext(events: seq<Event>, e: Event)
    ensures Run(true, events + [e]) == Step(true, Run(true, events), e)
  {
    assert (events + [e])[..|events|] == events;
    hide Step;
  }

  // ----- the assets are gathered once -----

  predicate AsksForAssets(e: Event) {
    Registers(e) && e.mtype == KV_ENGINE_MSG_TYPE_GET_ASSETS
  }

  /** The command outputs at the first valid request for the assets. */
  function FirstOutputs(events: seq<Event>): Option<Outputs> {
    if events == [] then None
    else
      match FirstOutputs(events[..|events| - 1])
      case Some(o) => Some(o)
      case None => if AsksForAssets(events[|events| - 1]) then Some(events[|events| - 1].outputs) else None
  }

  lemma {:induction false} AssetsAreFirst(events: seq<Event>)
    ensures Run(true, events).assets == match FirstOutputs(events)
                                        case None => ""
                                        case Some(o) => Assembled(Gathered(o))
    decreases |events|
  {
    if events != [] {
      var init, last := events[..|events| - 1], events[|events| - 1];
      AssetsAreFirst(init);
      StepAssets(Run(true, init), last);
      match FirstOutputs(init) {
        case Some(o) => SomeAssets(o);
        case None =>
      }
      hide Step, Assembled, Gathered;
    }
  }

  lemma StepAssets(s: Server, e: Event)
    ensures Step(true, s, e).assets
         == if AsksForAssets(e) && s.assets == "" then Assembled(Gathered(e.outputs)) else s.assets
  {
    hide Find, Assembled, Gathered;
  }

  lemma SomeAssets(o: Outputs)
    ensures Assembled(Gathered(o)) != ""
  {
    var assets := Gathered(o);
    assert |Pair(assets[5].name, assets[5].value)| > 0;
  }

  /** In every run each valid request for the assets is answered, to its sender and under its id, with a string
      that decodes to the six names with the cleaned outputs of the first such request. */
  lemma AssetsReply(events: seq<Event>, e: Event)
    requires AsksForAssets(e)
    ensures FirstOutputs(events + [e]).Some?
    ensures var o := FirstOutputs(events + [e]).value;
            && Run(true, events + [e]).out
            == Run(true, events).out + [Send(e.conn, KvMessage(e.id, e.mtype, Assembled(Gathered(o))))]
            && Decoded(Assembled(Gathered(o)))
            == [["host", Cleaned(o[0])], ["cpu", Cleaned(o[1])], ["memory", Cleaned(o[2])],
                ["baseboard", Cleaned(o[3])], ["sound", Cleaned(o[4])], ["video", Cleaned(o[5])]]
  {
    assert (events + [e])[..|events|] == events;
    AssetsAreFirst(events);
    AssetsAreFirst(events + [e]);
    GatheredDecodes(FirstOutputs(events + [e]).value);
  }

  // ----- every send goes to an open connection -----

  ghost function Open(events: seq<Event>): set<Ptr> {
    if events == [] then {}
    else
      var before, e := Open(events[..|events| - 1]), events[|events| - 1];
      match e
      case Connect(conn) => before + {conn}
      case Close(conn) => before - {conn}
      case _ => before
  }

  /** The transport delivers messages and closings of open connections only. */
  ghost predicate Delivered(open: set<Ptr>, e: Event) {
    e.Request? || e.DataMessage? || e.Close? ==> e.conn in open
  }

  /** A run of the server over such a transport: it ends with the first message that overruns. */
  ghost predicate Legal(events: seq<Event>) {
    events != [] ==>
      && Legal(events[..|events| - 1])
      && (|events| > 1 ==> !Overruns(events[|events| - 2]))
      && Delivered(Open(events[..|events| - 1]), events[|events| - 1])
  }

  ghost predicate Knows(s: Server, open: set<Ptr>) {
    && (forall k :: k in s.tasks ==> s.tasks[k].conn == NULL || s.tasks[k].conn in open)
    && (s.mainConn == NULL || s.mainConn in open)
    && (forall c :: c in open ==> c in s.connected && s.connected[c] == c)
    && (forall c :: c in s.connected && s.connected[c] != NULL ==> c in open)
  }

  lemma StepIsSafe(s: Server, open: set<Ptr>, e: Event)
    requires Knows(s, open) && NULL !in open && Delivered(open, e)
    ensures var s' := Step(true, s, e);
            && s.out <= s'.out
            && forall i :: |s.out| <= i < |s'.out| && s'.out[i].Send? ==> s'.out[i].to in open
    ensures var open' := match e case Connect(conn) => open + {conn} case Close(conn) => open - {conn} case _ => open;
            Knows(Step(true, s, e), open') && NULL !in open'
  {
    hide Find, WithAssets;
    match e
    case Close(conn) =>
      CloseIsSafe(s, open, conn);
    case Reply(id, mtype, data) =>
      RespondIsSafe(s, open, id, mtype, data);
    case Request(_, _, _, _, _, _) =>
      RequestIsSafe(s, open, e);
    case _ =>
  }

  lemma CloseIsSafe(s: Server, open: set<Ptr>, conn: Connection)
    requires Knows(s, open)
    ensures s.out <= OnClose(s, conn).out && Knows(OnClose(s, conn), open - {conn})
    ensures forall i :: |s.out| <= i < |OnClose(s, conn).out| ==> OnClose(s, conn).out[i].Notify?
  {
    assert forall k :: k in OnClose(s, conn).tasks ==> OnClose(s, conn).tasks[k] == s.tasks[k];
  }

  lemma RespondIsSafe(s: Server, open: set<Ptr>, id: Id, mtype: Id, data: string)
    requires Knows(s, open)
    ensures var s' := Respond(true, s, id, mtype, data);
            && s.out <= s'.out && Knows(s', open)
            && forall i :: |s.out| <= i < |s'.out| && s'.out[i].Send? ==> s'.out[i].to in open
  {
    if id == 0 && mtype != 0 && Find(s.tasks, mtype).Some? {
      assert Least(OfType(s.tasks, mtype)) in s.tasks;
    }
  }

  lemma RequestIsSafe(s: Server, open: set<Ptr>, e: Event)
    requires Knows(s, open) && e.Request? && e.conn in open
    ensures var s' := OnRequest(s, e);
            && s.out <= s'.out && Knows(s', open)
            && forall i :: |s.out| <= i < |s'.out| && s'.out[i].Send? ==> s'.out[i].to in open
  {
  }

  /** The callback number n appends to the output, and only messages to connections open at that moment. */
  ghost predicate SendsToOpen(events: seq<Event>, n: nat)
    requires n < |events|
  {
    var out, out' := Run(true, events[..n]).out, Run(true, events[..n + 1]).out;
    out <= out' && forall i :: |out| <= i < |out'| && out'[i].Send? ==> out'[i].to in Open(events[..n])
  }

  /** In every run over a transport that delivers for open connections only, each message goes to a connection
      that is open when it is sent. */
  lemma {:induction false} SendsAreSafe(events: seq<Event>)
    requires Legal(events)
    ensures Knows(Run(true, events), Open(events)) && NULL !in Open(events)
    ensures forall n :: 0 <= n < |events| ==> SendsToOpen(events, n)
    decreases |events|
  {
    if events != [] {
      var m := |events| - 1;
      var init := events[..m];
      SendsAreSafe(init);
      StepIsSafe(Run(true, init), Open(init), events[m]);
      hide Step, Knows;
      forall n | 0 <= n <= m ensures SendsToOpen(events, n) {
        if n < m {
          assert SendsToOpen(init, n);
          assert init[..n] == events[..n] && init[..n + 1] == events[..n + 1];
        } else {
          assert events[..m + 1] == events;
        }
      }
    }
  }
}
