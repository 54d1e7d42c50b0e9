/** The older RPC server's connection table, whose keys keep only the low 16 bits of a connection's address. */
module RpcOrigin {
  import opened Options
  import opened RpcServers

  type Key = x: int | 0 <= x < 0x1_0000

  function KeyOf(p: Ptr): Key { p % 0x1_0000 }

  datatype Callback = Connected(conn: Connection) | Closed(conn: Connection) | Posted(tag: Ptr, buffer: Option<string>)

  /** The table and the messages sent so far, each with its receiver. */
  datatype Table = Table(conns: map<Key, Ptr>, sent: seq<(Ptr, string)>)

  function Entry(conns: map<Key, Ptr>, k: Key): Ptr {
    if k in conns then conns[k] else NULL
  }

  function React(t: Table, e: Callback): Table {
    match e
    case Connected(conn) => t.(conns := t.conns[KeyOf(conn) := conn])
    case Closed(conn) => t.(conns := t.conns[KeyOf(conn) := NULL])
    case Posted(tag, None) => t
    case Posted(tag, Some(text)) =>
      var to := Entry(t.conns, KeyOf(tag));
      Table(t.conns[KeyOf(tag) := to], if to == NULL then t.sent else t.sent + [(to, text)])
  }

  class OriginServer {
    var mapConn: map<Key, Ptr>
    var sent: seq<(Ptr, string)>

    constructor ()
      ensures mapConn == map[] && sent == []
    {
      mapConn, sent := map[], [];
    }

    method OnConnect(conn: Connection)
      modifies this
      ensures Table(mapConn, sent) == React(old(Table(mapConn, sent)), Connected(conn))
    {
      mapConn := mapConn[KeyOf(conn) := conn];
    }

    method OnClose(conn: Connection)
      modifies this
      ensures Table(mapConn, sent) == React(old(Table(mapConn, sent)), Closed(conn))
    {
      mapConn := mapConn[KeyOf(conn) := NULL];
    }

    method PostData(tag: Ptr, buffer: Option<string>) returns (r: int)
      modifies this
      ensures Table(mapConn, sent) == React(old(Table(mapConn, sent)), Posted(tag, buffer))
      ensures r == if buffer.None? then 0 else 1
    {
      if buffer.None? {
        return 0;
      }
      if KeyOf(tag) !in mapConn {
        mapConn := mapConn[KeyOf(tag) := NULL];
      }
      var conn := mapConn[KeyOf(tag)];
      if conn != NULL {
        sent := sent + [(conn, buffer.value)];
      }
      assert mapConn == old(mapConn)[KeyOf(tag) := Entry(old(mapConn), KeyOf(tag))];
      r := 1;
    }
  }

  /** Connections share a key exactly when their addresses differ by a multiple of 65536. */
  lemma KeysShared(p: Ptr, q: Ptr)
    ensures KeyOf(p) == KeyOf(q) <==> exists k: int :: p - q == k * 0x1_0000
  {
    assert p - q == (p / 0x1_0000 - q / 0x1_0000) * 0x1_0000 + (KeyOf(p) - KeyOf(q));
  }

  // ----- runs -----

  function Run(events: seq<Callback>): Table {
    if events == [] then Table(map[], [])
    else React(Run(events[..|events| - 1]), events[|events| - 1])
  }

  function Open(events: seq<Callback>): set<Ptr> {
    if events == [] then {}
    else
      var before := Open(events[..|events| - 1]);
      match events[|events| - 1]
      case Connected(conn) => before + {conn}
      case Closed(conn) => before - {conn}
      case Posted(_, _) => before
  }

  /** The connection that the latest connect or close with key k left behind: itself after a connect, none after
      a close. */
  function Latest(events: seq<Callback>, k: Key): Ptr {
    if events == [] then NULL
    else
      match events[|events| - 1]
      case Connected(conn) => if KeyOf(conn) == k then conn else Latest(events[..|events| - 1], k)
      case Closed(conn) => if KeyOf(conn) == k then NULL else Latest(events[..|events| - 1], k)
      case Posted(_, _) => Latest(events[..|events| - 1], k)
  }

  lemma {:induction false} TableIsLatest(events: seq<Callback>, k: Key)
    ensures Entry(Run(events).conns, k) == Latest(events, k)
    decreases |events|
  {
    if events != [] {
      TableIsLatest(events[..|events| - 1], k);
    }
  }

  lemma {:induction false} LatestIsOpen(events: seq<Callback>, k: Key)
    ensures Latest(events, k) != NULL ==> Latest(events, k) in Open(events) && KeyOf(Latest(events, k)) == k
    decreases |events|
  {
    if events != [] {
      LatestIsOpen(events[..|events| - 1], k);
    }
  }

  /** In every run a post is sent to at most one connection, and that one is open.  It reaches the tagged
      connection exactly when the latest connect or close on the tag's 16-bit key was the tag's own connect.
      Without a text nothing is sent. */
  lemma PostReaches(events: seq<Callback>, tag: Connection, text: string)
    ensures var to := Latest(events, KeyOf(tag));
            && Run(events + [Posted(tag, Some(text))]).sent
               == Run(events).sent + (if to == NULL then [] else [(to, text)])
            && Run(events + [Posted(tag, None)]).sent == Run(events).sent
            && (to != NULL ==> to in Open(events))
            && (Run(events + [Posted(tag, Some(text))]).sent == Run(events).sent + [(tag, text)] <==> to == tag)
  {
    var e := Posted(tag, Some(text));
    assert (events + [e])[..|events|] == events;
    assert (events + [Posted(tag, None)])[..|events|] == events;
    TableIsLatest(events, KeyOf(tag));
    LatestIsOpen(events, KeyOf(tag));
    var s := Run(events).sent;
    if Run(events + [e]).sent == s + [(tag, text)] {
      assert Run(events + [e]).sent[|s|] == (tag, text);
    }
  }

  /** No connection of the run but c itself has c's key. */
  ghost predicate KeyIsOwn(events: seq<Callback>, c: Ptr) {
    forall i :: 0 <= i < |events| && !events[i].Posted? && KeyOf(events[i].conn) == KeyOf(c) ==> events[i].conn == c
  }

  lemma {:induction false} OwnKeyIsLatest(events: seq<Callback>, c: Connection)
    requires KeyIsOwn(events, c)
    ensures Latest(events, KeyOf(c)) == if c in Open(events) then c else NULL
    decreases |events|
  {
    if events != [] {
      OwnKeyIsLatest(events[..|events| - 1], c);
    }
  }

  /** So an open connection whose key no other connection of the run shares is always reached. */
  lemma UnsharedKeyIsReached(events: seq<Callback>, tag: Connection, text: string)
    requires KeyIsOwn(events, tag)
    ensures Run(events + [Posted(tag, Some(text))]).sent
         == Run(events).sent + if tag in Open(events) then [(tag, text)] else []
  {
    OwnKeyIsLatest(events, tag);
    PostReaches(events, tag, text);
  }

  /** With a shared key it can go astray: the text tagged for the open connection 1 is sent to another. */
  lemma SharedKeyGoesAstray(text: string)
    ensures var events := [Connected(1), Connected(0x1_0001)];
            1 in Open(events) && Run(events + [Posted(1, Some(text))]).sent == [(0x1_0001, text)]
  {
    var events := [Connected(1), Connected(0x1_0001)];
    assert events[..1] == [Connected(1)] && [Connected(1)][..0] == [];
    PostReaches(events, 1, text);
    assert Run(events).sent == [];
  }
}
