/** The link resolver of the node editor's JSON compiler: it turns the connection
    list of a saved node graph into an ordered, duplicate-free list of link keys
    and a map from each key to the connection that represents it.

    A short id is the code point `counter` that the source turns into a
    one-character string with `chr(counter)`; the key `chr(end) + ' ' + chr(start)`
    is the pair `LinkKey(endId, startId)` (KeyText renders it and is injective). */
module LinkResolver {
  import opened Sequences

  type Uuid = string

  /** One entry of the saved graph's `connections` list. */
  datatype Connection = Connection(startUuid: Uuid, endUuid: Uuid, startPin: string, endPin: string)

  /** The key `id(end) + ' ' + id(start)` of a link. */
  datatype LinkKey = LinkKey(endId: nat, startId: nat)

  /** The first short id handed out: the code point of 'a'. */
  const FirstId: nat := 97

  /** The reserved prefix of control/flow pin names. */
  const ControlPrefix: string := "::"

  /** `pin[:2]`: Python's slice stops at the end of a shorter string. */
  function PinHead(pin: string): string {
    if |pin| < 2 then pin else pin[..2]
  }

  /** A control/flow pin: its name begins with `::`. */
  predicate IsControl(pin: string) {
    PinHead(pin) == ControlPrefix
  }

  /** Only a connection between two control pins is skipped. */
  predicate Eligible(c: Connection) {
    !IsControl(c.startPin) || !IsControl(c.endPin)
  }

  /** The eligible connections, in input order. */
  function Eligibles(cs: seq<Connection>): seq<Connection> {
    if cs == [] then []
    else
      var p := Eligibles(cs[..|cs| - 1]);
      if Eligible(cs[|cs| - 1]) then p + [cs[|cs| - 1]] else p
  }

  /** The uuid stream the resolver meets: start then end of each connection. */
  function Endpoints(es: seq<Connection>): seq<Uuid> {
    if es == [] then []
    else Endpoints(es[..|es| - 1]) + [es[|es| - 1].startUuid, es[|es| - 1].endUuid]
  }

  /** The uuids of the eligible connections in first-seen order. */
  function Order(cs: seq<Connection>): seq<Uuid> {
    Dedup(Endpoints(Eligibles(cs)))
  }

  /** Numbers the uuids of `order` consecutively from FirstId. */
  function IdMap(order: seq<Uuid>): map<Uuid, nat> {
    if order == [] then map[]
    else IdMap(order[..|order| - 1])[order[|order| - 1] := FirstId + |order| - 1]
  }

  /** The short id of every uuid the resolver has met in `cs`. */
  function ShortIds(cs: seq<Connection>): map<Uuid, nat> {
    IdMap(Order(cs))
  }

  predicate Covers(ids: map<Uuid, nat>, es: seq<Connection>) {
    forall i :: 0 <= i < |es| ==> es[i].startUuid in ids && es[i].endUuid in ids
  }

  function KeyOf(ids: map<Uuid, nat>, c: Connection): LinkKey
    requires c.startUuid in ids && c.endUuid in ids
  {
    LinkKey(ids[c.endUuid], ids[c.startUuid])
  }

  /** The key of each connection of `es`, in order. */
  function Keys(ids: map<Uuid, nat>, es: seq<Connection>): seq<LinkKey>
    requires Covers(ids, es)
  {
    seq(|es|, i requires 0 <= i < |es| => KeyOf(ids, es[i]))
  }

  /** Each key with the connection that wrote it last. */
  function ConnMap(ids: map<Uuid, nat>, es: seq<Connection>): map<LinkKey, Connection>
    requires Covers(ids, es)
  {
    if es == [] then map[]
    else ConnMap(ids, es[..|es| - 1])[KeyOf(ids, es[|es| - 1]) := es[|es| - 1]]
  }

  lemma {:induction false} EndpointsAt(es: seq<Connection>, i: nat)
    requires i < |es|
    ensures |Endpoints(es)| == 2 * |es|
    ensures Endpoints(es)[2 * i] == es[i].startUuid && Endpoints(es)[2 * i + 1] == es[i].endUuid
  {
    var p := es[..|es| - 1];
    if i < |p| {
      EndpointsAt(p, i);
    } else if p != [] {
      EndpointsAt(p, 0);
    }
  }

  lemma {:induction false} IdMapDomain(order: seq<Uuid>, u: Uuid)
    ensures u in IdMap(order) <==> u in order
  {
    if order != [] {
      var p := order[..|order| - 1];
      assert order == p + [order[|order| - 1]];
      IdMapDomain(p, u);
    }
  }

  lemma EligiblesCovered(cs: seq<Connection>)
    ensures Covers(ShortIds(cs), Eligibles(cs))
  {
    var es := Eligibles(cs);
    forall i | 0 <= i < |es| ensures es[i].startUuid in ShortIds(cs) && es[i].endUuid in ShortIds(cs) {
      EndpointsAt(es, i);
      DedupMembers(Endpoints(es), es[i].startUuid);
      DedupMembers(Endpoints(es), es[i].endUuid);
      IdMapDomain(Order(cs), es[i].startUuid);
      IdMapDomain(Order(cs), es[i].endUuid);
    }
  }

  /** The key of each eligible connection, in input order. */
  function LinkKeys(cs: seq<Connection>): seq<LinkKey> {
    EligiblesCovered(cs);
    Keys(ShortIds(cs), Eligibles(cs))
  }

  /** The `links` list `get_links` returns for `cs`. */
  function Links(cs: seq<Connection>): seq<LinkKey> {
    Dedup(LinkKeys(cs))
  }

  /** The `link_conn` dictionary `get_links` returns for `cs`. */
  function LinkConn(cs: seq<Connection>): map<LinkKey, Connection> {
    EligiblesCovered(cs);
    ConnMap(ShortIds(cs), Eligibles(cs))
  }

  /** Both ids of the key are code points a Dafny `char` can hold. */
  predicate Renderable(k: LinkKey) {
    k.endId < 0xD800 && k.startId < 0xD800
  }

  /** The key as the source's string `chr(end) + ' ' + chr(start)`. */
  function KeyText(k: LinkKey): string
    requires Renderable(k)
  {
    [k.endId as char, ' ', k.startId as char]
  }

  /** Every key of `ks` as its string. */
  function Texts(ks: seq<LinkKey>): seq<string>
    requires forall i :: 0 <= i < |ks| ==> Renderable(ks[i])
  {
    seq(|ks|, i requires 0 <= i < |ks| => KeyText(ks[i]))
  }

  // ---------------------------------------------------------------------------
  // The resolver itself.

  /** `get_links`: walk the connections once, giving each new uuid the next short
      id, and record each eligible connection's key and representative. */
  method GetLinks(connections: seq<Connection>) returns (links: seq<LinkKey>, linkConn: map<LinkKey, Connection>)
    ensures links == Links(connections)
    ensures linkConn == LinkConn(connections)
  {
    links := [];
    var alphUuid: map<Uuid, nat> := map[];
    linkConn := map[];
    var counter: nat := FirstId;
    ghost var done: seq<Connection> := [];
    ghost var order: seq<Uuid> := [];

    for i := 0 to |connections|
      invariant done == connections[..i]
      invariant order == Order(done)
      invariant alphUuid == IdMap(order) && counter == FirstId + |order|
      invariant links == Links(done)
      invariant linkConn == LinkConn(done)
    {
      var c := connections[i];
      if !IsControl(c.startPin) || !IsControl(c.endPin) {
        ghost var o' := AddNew(order, c.startUuid);
        // for uuid in [c['start_uuid'], c['end_uuid']]
        if c.startUuid !in alphUuid {
          alphUuid := alphUuid[c.startUuid := counter];
          counter := counter + 1;
        }
        assert alphUuid == IdMap(o') && counter == FirstId + |o'| by {
          AssignId(order, c.startUuid);
        }
        ghost var o'' := AddNew(o', c.endUuid);
        if c.endUuid !in alphUuid {
          alphUuid := alphUuid[c.endUuid := counter];
          counter := counter + 1;
        }
        assert alphUuid == IdMap(o'') && counter == FirstId + |o''| by {
          AssignId(o', c.endUuid);
        }
        assert o'' == Order(done + [c]) && alphUuid == ShortIds(done + [c]) by {
          OrderSnoc(done, c);
        }
        order := o'';

        var linkStr := LinkKey(alphUuid[c.endUuid], alphUuid[c.startUuid]);
        assert linkStr == KeyOf(ShortIds(done + [c]), c) &&
               Links(done + [c]) == AddNew(links, linkStr) &&
               LinkConn(done + [c]) == linkConn[linkStr := c] by {
          LinksSnoc(done, c);
        }
        if linkStr !in links {
          links := links + [linkStr];
          linkConn := linkConn[linkStr := c];
        } else if !IsControl(c.startPin) || !IsControl(c.endPin) {
          linkConn := linkConn[linkStr := c];
        }
      } else {
        SkipControl(done, c);
      }
      TakeSnoc(connections, i);
      done := done + [c];
    }
    assert done == connections;
  }

  // ---------------------------------------------------------------------------
  // One step of the walk.

  /** Meeting uuid `u` numbers it with the next id exactly when it is new. */
  lemma AssignId(order: seq<Uuid>, u: Uuid)
    ensures u in IdMap(order) <==> u in order
    ensures IdMap(AddNew(order, u)) == if u in order then IdMap(order) else IdMap(order)[u := FirstId + |order|]
    ensures |AddNew(order, u)| == if u in order then |order| else |order| + 1
  {
  }

  predicate Extends(small: map<Uuid, nat>, big: map<Uuid, nat>) {
    forall u :: u in small ==> u in big && big[u] == small[u]
  }

  lemma {:induction false} KeysExtend(ids: map<Uuid, nat>, ids': map<Uuid, nat>, es: seq<Connection>)
    requires Covers(ids, es) && Extends(ids, ids')
    ensures Covers(ids', es)
    ensures Keys(ids', es) == Keys(ids, es)
    ensures ConnMap(ids', es) == ConnMap(ids, es)
  {
    if es != [] {
      KeysExtend(ids, ids', es[..|es| - 1]);
    }
  }

  lemma EligiblesSnoc(cs: seq<Connection>, c: Connection)
    ensures Eligibles(cs + [c]) == Eligibles(cs) + if Eligible(c) then [c] else []
  {
  }

  /** A connection between two control pins changes nothing: no short id, no
      link and no representative. */
  lemma SkipControl(cs: seq<Connection>, c: Connection)
    requires IsControl(c.startPin) && IsControl(c.endPin)
    ensures ShortIds(cs + [c]) == ShortIds(cs) && Order(cs + [c]) == Order(cs)
    ensures Links(cs + [c]) == Links(cs) && LinkConn(cs + [c]) == LinkConn(cs)
  {
  }

  /** An eligible connection appends its start uuid, then its end uuid, to the
      first-seen order when they are new. */
  lemma OrderSnoc(cs: seq<Connection>, c: Connection)
    requires Eligible(c)
    ensures Order(cs + [c]) == AddNew(AddNew(Order(cs), c.startUuid), c.endUuid)
  {
    EligiblesSnoc(cs, c);
    var es := Eligibles(cs);
    var e1 := Endpoints(es);
    assert (es + [c])[..|es|] == es;
    assert Endpoints(es + [c]) == (e1 + [c.startUuid]) + [c.endUuid];
    DedupSnoc(e1, c.startUuid);
    DedupSnoc(e1 + [c.startUuid], c.endUuid);
  }

  /** After an eligible connection both its uuids have short ids, and no id
      given earlier has changed. */
  lemma IdsSnoc(cs: seq<Connection>, c: Connection)
    requires Eligible(c)
    ensures Extends(ShortIds(cs), ShortIds(cs + [c]))
    ensures c.startUuid in ShortIds(cs + [c]) && c.endUuid in ShortIds(cs + [c])
  {
    OrderSnoc(cs, c);
    var o := Order(cs);
    AssignId(o, c.startUuid);
    AssignId(AddNew(o, c.startUuid), c.endUuid);
  }

  lemma KeysSnoc(ids: map<Uuid, nat>, es: seq<Connection>, c: Connection)
    requires Covers(ids, es) && c.startUuid in ids && c.endUuid in ids
    ensures Covers(ids, es + [c])
    ensures Keys(ids, es + [c]) == Keys(ids, es) + [KeyOf(ids, c)]
    ensures ConnMap(ids, es + [c]) == ConnMap(ids, es)[KeyOf(ids, c) := c]
  {
  }

  /** An eligible connection appends its key to `links` unless the key is
      already there, and becomes the key's representative either way. */
  lemma LinksSnoc(cs: seq<Connection>, c: Connection)
    requires Eligible(c)
    ensures c.startUuid in ShortIds(cs + [c]) && c.endUuid in ShortIds(cs + [c])
    ensures Links(cs + [c]) == AddNew(Links(cs), KeyOf(ShortIds(cs + [c]), c))
    ensures LinkConn(cs + [c]) == LinkConn(cs)[KeyOf(ShortIds(cs + [c]), c) := c]
  {
    IdsSnoc(cs, c);
    EligiblesSnoc(cs, c);
    var es := Eligibles(cs);
    var ids, ids' := ShortIds(cs), ShortIds(cs + [c]);
    EligiblesCovered(cs);
    KeysExtend(ids, ids', es);
    KeysSnoc(ids', es, c);
    DedupSnoc(Keys(ids, es), KeyOf(ids', c));
  }
}
