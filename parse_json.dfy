/** The compile pass of the node editor's `parse_json` module: from a loaded
    project document it builds the uuid -> identifier table, resolves the links,
    and zips the action chains the forest code produced into the command script
    `{'id': 1, 'commands': [...]}`. */
module ParseJson {
  import opened Sequences
  import opened LinkResolver

  datatype Option<T> = None | Some(value: T)

  /** One entry of the project's `nodes` list, as far as the compiler reads it. */
  datatype Node = Node(uuid: Uuid, name: string, metadata: map<string, string>)

  /** A loaded project: `json_data.get('nodes')` and `json_data.get('connections')`
      are None when the key is missing. */
  datatype Document = Document(nodes: Option<seq<Node>>, connections: Option<seq<Connection>>)

  /** One command of the script. */
  datatype Command = Command(onEvent: string, exe: seq<string>)

  /** The compiled script `{'id': ..., 'commands': [...]}`. */
  datatype Script = Script(id: int, commands: seq<Command>)

  /** Everything one compile pass computes. */
  datatype Compilation = Compilation(
    uuidId: map<Uuid, string>,
    links: seq<LinkKey>,
    linkConn: map<LinkKey, Connection>,
    script: Script)

  /** The id of every script this pass writes. */
  const ScriptId: int := 1

  /** Python's `not xs` for a value that is a list or None. */
  predicate Falsy<T>(xs: Option<seq<T>>) {
    xs.None? || xs.value == []
  }

  /** A node's identifier: `metadata['id']` when present, else its `name`. */
  function Identifier(n: Node): string {
    if "id" in n.metadata then n.metadata["id"] else n.name
  }

  function NodeUuids(nodes: seq<Node>): seq<Uuid> {
    seq(|nodes|, i requires 0 <= i < |nodes| => nodes[i].uuid)
  }

  /** `m` maps each uuid of `nodes` to the identifier of the last node that
      carries it, and nothing else. */
  ghost predicate IsIdentifierMap(nodes: seq<Node>, m: map<Uuid, string>) {
    (forall u :: u in m <==> u in NodeUuids(nodes)) &&
    (forall u :: u in m ==> u in NodeUuids(nodes) && m[u] == Identifier(nodes[LastIndexOf(NodeUuids(nodes), u)]))
  }

  /** `commands` is `len(exe)` entries long and entry `i` pairs `on_event[i]`
      with `exe[i]`. */
  ghost predicate IsZip(exe: seq<seq<string>>, onEvent: seq<string>, commands: seq<Command>)
    requires |onEvent| >= |exe|
  {
    |commands| == |exe| &&
    forall i :: 0 <= i < |exe| ==> commands[i] == Command(onEvent[i], exe[i])
  }

  /** One step of the `uuid_id` loop: the new node's entry overwrites any earlier
      one with the same uuid. */
  lemma IdentifierMapSnoc(nodes: seq<Node>, m: map<Uuid, string>, n: Node)
    requires IsIdentifierMap(nodes, m)
    ensures IsIdentifierMap(nodes + [n], m[n.uuid := Identifier(n)])
  {
    var before, after := NodeUuids(nodes), NodeUuids(nodes + [n]);
    var m' := m[n.uuid := Identifier(n)];
    assert after == before + [n.uuid];
    forall u ensures u in m' <==> u in after {
    }
    forall u | u in m' ensures m'[u] == Identifier((nodes + [n])[LastIndexOf(after, u)]) {
      LastIndexOfSnoc(before, n.uuid, u);
      if u != n.uuid {
        var j := LastIndexOf(before, u);
        assert (nodes + [n])[j] == nodes[j];
      }
    }
  }

  /** The `uuid_id` loop: a later node with the same uuid overwrites an earlier one. */
  method BuildIdentifiers(nodes: seq<Node>) returns (uuidId: map<Uuid, string>)
    ensures IsIdentifierMap(nodes, uuidId)
  {
    uuidId := map[];
    for i := 0 to |nodes|
      invariant IsIdentifierMap(nodes[..i], uuidId)
    {
      var n := nodes[i];
      assert IsIdentifierMap(nodes[..i + 1], uuidId[n.uuid := Identifier(n)]) by {
        TakeSnoc(nodes, i);
        IdentifierMapSnoc(nodes[..i], uuidId, n);
      }
      uuidId := uuidId[n.uuid := Identifier(n)];
    }
    assert nodes[..|nodes|] == nodes;
  }

  /** The `out['commands']` loop: one command per chain, in chain order. */
  method AssembleCommands(exe: seq<seq<string>>, onEvent: seq<string>) returns (out: Script)
    requires |onEvent| >= |exe|
    ensures out.id == ScriptId
    ensures IsZip(exe, onEvent, out.commands)
  {
    var commands: seq<Command> := [];
    for i := 0 to |exe|
      invariant IsZip(exe[..i], onEvent, commands)
    {
      commands := commands + [Command(onEvent[i], exe[i])];
    }
    assert exe[..|exe|] == exe;
    out := Script(ScriptId, commands);
  }

  /** `test(json_data)` without its file write: no result when `nodes` or
      `connections` is missing or empty; otherwise the identifier table, the
      resolved links and the script. `exe` and `onEvent` are what the forest
      code returns for this graph. */
  method Test(doc: Document, exe: seq<seq<string>>, onEvent: seq<string>) returns (r: Option<Compilation>)
    requires |onEvent| >= |exe|
    ensures r.None? <==> Falsy(doc.nodes) || Falsy(doc.connections)
    ensures r.Some? ==> doc.nodes.Some? && doc.connections.Some? &&
                        IsIdentifierMap(doc.nodes.value, r.value.uuidId) &&
                        r.value.links == Links(doc.connections.value) &&
                        r.value.linkConn == LinkConn(doc.connections.value) &&
                        r.value.script.id == ScriptId &&
                        IsZip(exe, onEvent, r.value.script.commands)
  {
    if Falsy(doc.nodes) || Falsy(doc.connections) {
      return None;
    }
    var uuidId := BuildIdentifiers(doc.nodes.value);
    var links, linkConn := GetLinks(doc.connections.value);
    var out := AssembleCommands(exe, onEvent);
    r := Some(Compilation(uuidId, links, linkConn, out));
  }
}
