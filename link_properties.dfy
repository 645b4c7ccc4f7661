/** What the link resolver promises about its result: which connections count,
    how short ids are handed out, where each key sits in `links`, and which
    connection `link_conn` keeps for it. */
module LinkProperties {
  import opened Sequences
  import opened LinkResolver

  // ---------------------------------------------------------------------------
  // Control-only connections.

  /** `pin[:2] == '::'` holds exactly when the pin name starts with `::`; a name
      shorter than two characters is never a control pin. */
  lemma ControlIsPrefix(pin: string)
    ensures IsControl(pin) <==> ControlPrefix <= pin
    ensures |pin| < 2 ==> !IsControl(pin)
  {
  }

  /** A connection is skipped exactly when both of its pin names start with `::`. */
  lemma EligibleUnlessBothControl(c: Connection)
    ensures !Eligible(c) <==> ControlPrefix <= c.startPin && ControlPrefix <= c.endPin
  {
    ControlIsPrefix(c.startPin);
    ControlIsPrefix(c.endPin);
  }

  /** The eligible connections are connections of the input, each with at least
      one data pin, and there are no more of them than inputs. */
  lemma {:induction false} EligiblesSound(cs: seq<Connection>)
    ensures |Eligibles(cs)| <= |cs|
    ensures forall i :: 0 <= i < |Eligibles(cs)| ==> Eligible(Eligibles(cs)[i]) && Eligibles(cs)[i] in cs
  {
    if cs != [] {
      var p, c := cs[..|cs| - 1], cs[|cs| - 1];
      assert cs == p + [c];
      EligiblesSound(p);
      EligiblesSnoc(p, c);
    }
  }

  lemma {:induction false} EligiblesIdempotent(cs: seq<Connection>)
    ensures Eligibles(Eligibles(cs)) == Eligibles(cs)
  {
    if cs != [] {
      var p, c := cs[..|cs| - 1], cs[|cs| - 1];
      assert cs == p + [c];
      EligiblesIdempotent(p);
      EligiblesSnoc(p, c);
      EligiblesSnoc(Eligibles(p), c);
    }
  }

  /** Dropping every control-only connection from the input changes nothing in
      the result: such connections take part in no id, link or representative. */
  lemma ControlOnlyIgnored(cs: seq<Connection>)
    ensures ShortIds(Eligibles(cs)) == ShortIds(cs)
    ensures Links(Eligibles(cs)) == Links(cs)
    ensures LinkConn(Eligibles(cs)) == LinkConn(cs)
  {
    EligiblesIdempotent(cs);
  }

  // ---------------------------------------------------------------------------
  // Short ids.

  lemma {:induction false} IdMapAt(order: seq<Uuid>, i: nat)
    requires NoDup(order) && i < |order|
    ensures order[i] in IdMap(order) && IdMap(order)[order[i]] == FirstId + i
  {
    var p := order[..|order| - 1];
    if i < |p| {
      assert order[i] != order[|order| - 1];
      IdMapAt(p, i);
    }
  }

  /** The uuid at position `i` of the first-seen order has short id 'a' + i. */
  lemma ShortIdsFirstSeen(cs: seq<Connection>, i: nat)
    requires i < |Order(cs)|
    ensures Order(cs)[i] in ShortIds(cs) && ShortIds(cs)[Order(cs)[i]] == FirstId + i
  {
    DedupNoDup(Endpoints(Eligibles(cs)));
    IdMapAt(Order(cs), i);
  }

  /** Of two uuids, the one the walk meets first (start before end, connection
      by connection) has the smaller short id. */
  lemma ShortIdsFollowFirstAppearance(cs: seq<Connection>, u: Uuid, v: Uuid)
    requires u in ShortIds(cs) && v in ShortIds(cs)
    ensures u in Endpoints(Eligibles(cs)) && v in Endpoints(Eligibles(cs))
    ensures ShortIds(cs)[u] < ShortIds(cs)[v] <==>
            IndexOf(Endpoints(Eligibles(cs)), u) < IndexOf(Endpoints(Eligibles(cs)), v)
  {
    var e := Endpoints(Eligibles(cs));
    IdMapDomain(Order(cs), u);
    IdMapDomain(Order(cs), v);
    DedupMembers(e, u);
    DedupMembers(e, v);
    DedupOrder(e, u, v);
    ShortIdsFirstSeen(cs, IndexOf(Order(cs), u));
    ShortIdsFirstSeen(cs, IndexOf(Order(cs), v));
  }

  /** The short ids are exactly 'a', 'a' + 1, ... up to the number of uuids met,
      and no two uuids share one. */
  lemma ShortIdsConsecutive(cs: seq<Connection>)
    ensures forall u :: u in ShortIds(cs) <==> u in Order(cs)
    ensures forall n :: n in ShortIds(cs).Values <==> FirstId <= n < FirstId + |Order(cs)|
    ensures forall u, v :: u in ShortIds(cs) && v in ShortIds(cs) && u != v ==> ShortIds(cs)[u] != ShortIds(cs)[v]
  {
    var o, ids := Order(cs), ShortIds(cs);
    forall u ensures u in ids <==> u in o {
      IdMapDomain(o, u);
    }
    forall u | u in ids ensures ids[u] == FirstId + IndexOf(o, u) {
      ShortIdsFirstSeen(cs, IndexOf(o, u));
    }
    forall n | FirstId <= n < FirstId + |o| ensures n in ids.Values {
      ShortIdsFirstSeen(cs, n - FirstId);
    }
  }

  /** Once handed out, a short id never changes, whatever follows. */
  lemma {:induction false} IdsStable(cs: seq<Connection>, ds: seq<Connection>)
    ensures Extends(ShortIds(cs), ShortIds(cs + ds))
  {
    if ds == [] {
      assert cs + ds == cs;
    } else {
      var p, d := ds[..|ds| - 1], ds[|ds| - 1];
      assert cs + ds == (cs + p) + [d];
      IdsStable(cs, p);
      if Eligible(d) {
        IdsSnoc(cs + p, d);
      } else {
        SkipControl(cs + p, d);
      }
    }
  }

  // ---------------------------------------------------------------------------
  // Link keys.

  /** After an eligible connection, both its uuids have ids, its key
      `id(end) ' ' id(start)` is in `links`, and it represents that key. */
  lemma EligibleGetsLink(cs: seq<Connection>, c: Connection)
    requires Eligible(c)
    ensures c.startUuid in ShortIds(cs + [c]) && c.endUuid in ShortIds(cs + [c])
    ensures var ids := ShortIds(cs + [c]);
            var k := LinkKey(ids[c.endUuid], ids[c.startUuid]);
            k in Links(cs + [c]) && k in LinkConn(cs + [c]) && LinkConn(cs + [c])[k] == c
  {
    LinksSnoc(cs, c);
  }

  /** A connection and its reverse between two different nodes give two
      different keys. */
  lemma ReversedConnectionsDiffer(cs: seq<Connection>, c: Connection, r: Connection)
    requires c.startUuid in ShortIds(cs) && c.endUuid in ShortIds(cs)
    requires r.startUuid == c.endUuid && r.endUuid == c.startUuid && c.startUuid != c.endUuid
    ensures KeyOf(ShortIds(cs), c) != KeyOf(ShortIds(cs), r)
  {
    ShortIdsConsecutive(cs);
  }

  /** `links` holds no key twice and has at most one key per eligible connection. */
  lemma LinksNoDup(cs: seq<Connection>)
    ensures NoDup(Links(cs))
    ensures |Links(cs)| <= |Eligibles(cs)| <= |cs|
  {
    DedupNoDup(LinkKeys(cs));
    EligiblesSound(cs);
  }

  /** Keys sit in `links` in the order of their first eligible occurrence. */
  lemma LinksFirstSeen(cs: seq<Connection>, k1: LinkKey, k2: LinkKey)
    requires k1 in LinkKeys(cs) && k2 in LinkKeys(cs)
    ensures k1 in Links(cs) && k2 in Links(cs)
    ensures IndexOf(Links(cs), k1) < IndexOf(Links(cs), k2) <==> IndexOf(LinkKeys(cs), k1) < IndexOf(LinkKeys(cs), k2)
  {
    DedupOrder(LinkKeys(cs), k1, k2);
  }

  /** A connection whose key is already listed leaves `links` as it was. */
  lemma RepeatedKeyKeepsLinks(cs: seq<Connection>, c: Connection)
    requires Eligible(c)
    ensures c.startUuid in ShortIds(cs + [c]) && c.endUuid in ShortIds(cs + [c])
    ensures KeyOf(ShortIds(cs + [c]), c) in Links(cs) ==> Links(cs + [c]) == Links(cs)
    ensures KeyOf(ShortIds(cs + [c]), c) !in Links(cs) ==> Links(cs + [c]) == Links(cs) + [KeyOf(ShortIds(cs + [c]), c)]
  {
    LinksSnoc(cs, c);
  }

  /** Later connections never move or remove a key already in `links`. */
  lemma {:induction false} LinksPrefix(cs: seq<Connection>, ds: seq<Connection>)
    ensures Links(cs) <= Links(cs + ds)
  {
    if ds == [] {
      assert cs + ds == cs;
    } else {
      var p, d := ds[..|ds| - 1], ds[|ds| - 1];
      assert cs + ds == (cs + p) + [d];
      LinksPrefix(cs, p);
      if Eligible(d) {
        LinksSnoc(cs + p, d);
      } else {
        SkipControl(cs + p, d);
      }
    }
  }

  // ---------------------------------------------------------------------------
  // Representatives.

  lemma {:induction false} ConnMapLast(ids: map<Uuid, nat>, es: seq<Connection>, k: LinkKey)
    requires Covers(ids, es)
    ensures k in ConnMap(ids, es) <==> k in Keys(ids, es)
    ensures k in ConnMap(ids, es) ==> ConnMap(ids, es)[k] == es[LastIndexOf(Keys(ids, es), k)]
  {
    if es != [] {
      var p, c := es[..|es| - 1], es[|es| - 1];
      assert es == p + [c];
      assert Covers(ids, p);
      KeysSnoc(ids, p, c);
      ConnMapLast(ids, p, k);
      if k in Keys(ids, es) {
        LastIndexOfSnoc(Keys(ids, p), KeyOf(ids, c), k);
      }
    }
  }

  /** `link_conn[k]` is the last eligible connection whose key is `k`. */
  lemma LinkConnLastWins(cs: seq<Connection>, k: LinkKey)
    requires k in LinkConn(cs)
    ensures k in LinkKeys(cs)
    ensures LinkConn(cs)[k] == Eligibles(cs)[LastIndexOf(LinkKeys(cs), k)]
  {
    EligiblesCovered(cs);
    ConnMapLast(ShortIds(cs), Eligibles(cs), k);
  }

  /** `link_conn` has an entry for exactly the keys listed in `links`. */
  lemma LinkConnKeys(cs: seq<Connection>, k: LinkKey)
    ensures k in LinkConn(cs) <==> k in Links(cs)
  {
    EligiblesCovered(cs);
    ConnMapLast(ShortIds(cs), Eligibles(cs), k);
    DedupMembers(LinkKeys(cs), k);
  }

  // A worked example: two data connections from node u1 to node u2 on
  // different pins, with a control-only connection between them.
  const FirstWire := Connection("u1", "u2", "out", "in")
  const FlowWire := Connection("u2", "u3", "::exec", "::exec")
  const SecondWire := Connection("u1", "u2", "value", "data")

  lemma ExampleFirstWire()
    ensures Order([FirstWire]) == ["u1", "u2"]
    ensures Links([FirstWire]) == [LinkKey(98, 97)] && LinkConn([FirstWire]) == map[LinkKey(98, 97) := FirstWire]
  {
    assert PinHead("out")[0] != ControlPrefix[0];
    assert [] + [FirstWire] == [FirstWire];
    OrderSnoc([], FirstWire);
    assert IdMap(["u1"]) == map["u1" := 97] by {
      assert ["u1"][..0] == [];
    }
    assert IdMap(["u1", "u2"]) == map["u1" := 97, "u2" := 98] by {
      assert ["u1", "u2"][..1] == ["u1"];
    }
    LinksSnoc([], FirstWire);
  }

  lemma ExampleFlowWire()
    ensures Order([FirstWire, FlowWire]) == ["u1", "u2"]
    ensures ShortIds([FirstWire, FlowWire]) == map["u1" := 97, "u2" := 98]
    ensures Links([FirstWire, FlowWire]) == [LinkKey(98, 97)]
    ensures LinkConn([FirstWire, FlowWire]) == map[LinkKey(98, 97) := FirstWire]
  {
    assert PinHead("::exec") == ControlPrefix;
    assert [FirstWire] + [FlowWire] == [FirstWire, FlowWire];
    ExampleFirstWire();
    SkipControl([FirstWire], FlowWire);
    assert IdMap(["u1"]) == map["u1" := 97] by {
      assert ["u1"][..0] == [];
    }
    assert IdMap(["u1", "u2"]) == map["u1" := 97, "u2" := 98] by {
      assert ["u1", "u2"][..1] == ["u1"];
    }
  }

  /** The two data connections give the single link 'b a', at the place of the
      first, represented by the second; the control-only one gives nothing. */
  lemma DuplicateConnectionsExample()
    ensures Links([FirstWire, FlowWire, SecondWire]) == [LinkKey(98, 97)]
    ensures LinkConn([FirstWire, FlowWire, SecondWire]) == map[LinkKey(98, 97) := SecondWire]
  {
    assert PinHead("value")[0] != ControlPrefix[0];
    assert [FirstWire, FlowWire] + [SecondWire] == [FirstWire, FlowWire, SecondWire];
    ExampleFlowWire();
    OrderSnoc([FirstWire, FlowWire], SecondWire);
    assert ShortIds([FirstWire, FlowWire, SecondWire]) == map["u1" := 97, "u2" := 98];
    LinksSnoc([FirstWire, FlowWire], SecondWire);
  }

  // ---------------------------------------------------------------------------
  // Keys as strings.

  /** Two keys render to the same `chr(end) + ' ' + chr(start)` string exactly
      when they are the same pair of ids. */
  lemma KeyTextInjective(k1: LinkKey, k2: LinkKey)
    requires k1.endId < 0xD800 && k1.startId < 0xD800
    requires k2.endId < 0xD800 && k2.startId < 0xD800
    ensures KeyText(k1) == KeyText(k2) <==> k1 == k2
  {
  }

  /** Deduplicating the key strings gives the strings of the deduplicated keys:
      since rendering is injective, a string repeats exactly when its key does. */
  lemma {:induction false} DedupTexts(ks: seq<LinkKey>)
    requires forall i :: 0 <= i < |ks| ==> Renderable(ks[i])
    ensures forall i :: 0 <= i < |Dedup(ks)| ==> Renderable(Dedup(ks)[i])
    ensures Dedup(Texts(ks)) == Texts(Dedup(ks))
  {
    if ks != [] {
      var p, z := ks[..|ks| - 1], ks[|ks| - 1];
      assert ks == p + [z];
      DedupTexts(p);
      forall i | 0 <= i < |Dedup(ks)| ensures Renderable(Dedup(ks)[i]) {
        DedupMembers(ks, Dedup(ks)[i]);
      }
      assert Texts(ks)[..|ks| - 1] == Texts(p);
      if KeyText(z) in Texts(p) {
        var j :| 0 <= j < |p| && Texts(p)[j] == KeyText(z);
        KeyTextInjective(p[j], z);
      }
      if z in p {
        var j :| 0 <= j < |p| && p[j] == z;
        assert Texts(p)[j] == KeyText(z);
      }
    }
  }

  /** With fewer than 0xD800 - 97 uuids met, every key renders, and the string
      list the source builds (each new `chr(end) + ' ' + chr(start)` appended
      once) is exactly the rendering of `links`. */
  lemma LinkStringsMatch(cs: seq<Connection>)
    requires FirstId + |Order(cs)| <= 0xD800
    ensures forall i :: 0 <= i < |LinkKeys(cs)| ==> Renderable(LinkKeys(cs)[i])
    ensures forall i :: 0 <= i < |Links(cs)| ==> Renderable(Links(cs)[i])
    ensures Dedup(Texts(LinkKeys(cs))) == Texts(Links(cs))
  {
    ShortIdsConsecutive(cs);
    EligiblesCovered(cs);
    var ids, es := ShortIds(cs), Eligibles(cs);
    forall i | 0 <= i < |LinkKeys(cs)| ensures Renderable(LinkKeys(cs)[i]) {
      assert LinkKeys(cs)[i] == KeyOf(ids, es[i]);
      assert ids[es[i].endUuid] in ids.Values && ids[es[i].startUuid] in ids.Values;
    }
    DedupTexts(LinkKeys(cs));
  }
}
