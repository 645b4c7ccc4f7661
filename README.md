# BluePrints link resolver and command assembly, in Dafny

BluePrints is a visual node editor for IoT automation. The user connects event,
action and logic nodes by their pins. A compile pass then turns the saved graph
into a command script for an external runtime. This project models that compile
pass in `node_editor/func/parse_json.py`:

- `get_links` walks the graph's connections in order. It skips every connection
  whose two pins are both control/flow pins, meaning their names start with `::`.
  It gives each newly met node uuid a one-character short id, starting at `'a'`,
  start uuid before end uuid. For every other connection it builds the key
  `id(end) + ' ' + id(start)`. It returns the duplicate-free list `links` of those
  keys and the dictionary `link_conn` from each key to its representative
  connection.
- `test` returns early when `nodes` or `connections` is missing or empty. Otherwise
  it builds the `uuid_id` table: `metadata['id']` when present, else the node's
  `name`. It resolves the links. It then zips the forest code's `exe` chains with
  their `on_event` roots into `{'id': 1, 'commands': [...]}`.

Files:

- `sequences.dfy` (module `Sequences`): first and last positions in a sequence,
  duplicate-freedom, and `Dedup`. `Dedup` gives first-occurrence order, the order
  of a Python list built with `if x not in xs: xs.append(x)`.
- `link_resolver.dfy` (module `LinkResolver`): connections, link keys, the
  reference definitions of what `get_links` computes, the imperative `GetLinks`
  proved against them, and the one-step lemmas.
- `link_properties.dfy` (module `LinkProperties`): the properties of the result.
- `parse_json.dfy` (module `ParseJson`): the `uuid_id` loop, the command loop and
  `test`.

The reference definitions do not replay the loop. `Order` is the deduplicated
stream of endpoint uuids of the eligible connections. A short id is `97` plus the
uuid's position in `Order`. `Links` is the deduplicated stream of keys. `LinkConn`
writes each eligible connection over its key, last write winning. A short id is the
code point that the source passes to `chr`. The key string is the pair
`LinkKey(endId, startId)`, and `KeyText` renders that pair as the three-character
string.

Facts about the code that the model keeps:

- A key is an ordered (end, start) pair, so A→B and B→A give different keys.
- The counter runs on past `'z'` with no limit, and the ids stay distinct.
- The identifier falls back to the node's `name`.
- The `elif` at line 43 repeats the test at line 33, so it is always true there.
  The representative is therefore always the last eligible connection with that key.

## Model

| member | source | states |
|---|---|---|
| `LinkProperties.ControlIsPrefix` | node_editor/func/parse_json.py:33 | `pin[:2] == '::'` holds exactly when the pin name starts with `::`. A name shorter than two characters is never a control pin |
| `LinkProperties.EligibleUnlessBothControl` | node_editor/func/parse_json.py:33 | a connection is skipped exactly when both its start pin and its end pin start with `::` |
| `LinkResolver.GetLinks` | node_editor/func/parse_json.py:25-46 | the loop returns exactly `Links(connections)` and `LinkConn(connections)`. Its invariants hold the short-id table and counter equal to the first-seen numbering of the prefix walked so far |
| `LinkResolver.SkipControl` | node_editor/func/parse_json.py:33 | a connection whose start and end pins both begin with `::` adds no short id, no link and no `link_conn` entry |
| `LinkResolver.OrderSnoc` | node_editor/func/parse_json.py:34-37 | an eligible connection appends its start uuid, then its end uuid, to the first-seen order, each only when it is new |
| `LinkResolver.AssignId` | node_editor/func/parse_json.py:35-37 | meeting a new uuid gives it the counter's current value as its id and advances the counter by one. Meeting a known uuid changes nothing |
| `LinkResolver.IdsSnoc` | node_editor/func/parse_json.py:34-37 | after an eligible connection both its uuids have ids, and every earlier id is unchanged |
| `LinkResolver.LinksSnoc` | node_editor/func/parse_json.py:39-44 | an eligible connection appends its key `id(end) ' ' id(start)` to `links` only if the key is new, and becomes that key's `link_conn` entry either way |
| `LinkProperties.ControlOnlyIgnored` | node_editor/func/parse_json.py:32-33 | removing all control-only connections from the input leaves the ids, `links` and `link_conn` unchanged |
| `LinkProperties.EligiblesSound` | node_editor/func/parse_json.py:32-33 | the connections the resolver uses come from the input, each with at least one non-control pin, and there are no more of them than inputs |
| `LinkProperties.ShortIdsFirstSeen` | node_editor/func/parse_json.py:30-37 | the uuid at position i of the first-seen order has id 97 + i ('a' for the first) |
| `LinkProperties.ShortIdsFollowFirstAppearance` | node_editor/func/parse_json.py:32-37 | of two uuids with ids, the one met first in the start-then-end walk has the smaller id |
| `LinkProperties.ShortIdsConsecutive` | node_editor/func/parse_json.py:30-37 | the uuids with ids are exactly the uuids met. The ids are exactly 97 .. 97 + n - 1 for n uuids met, and no two uuids share an id |
| `LinkProperties.IdsStable` | node_editor/func/parse_json.py:35-37 | once assigned, a uuid's id stays the same whatever connections follow |
| `LinkProperties.EligibleGetsLink` | node_editor/func/parse_json.py:34-44 | after an eligible connection both its uuids have ids. Its key `id(end) ' ' id(start)` is in `links`, and the connection is that key's `link_conn` entry |
| `LinkProperties.ReversedConnectionsDiffer` | node_editor/func/parse_json.py:39 | a connection and its reverse between two different nodes have different keys |
| `LinkProperties.LinksNoDup` | node_editor/func/parse_json.py:40-41 | `links` has no duplicate, and it has no more keys than there are eligible connections or input connections |
| `LinkProperties.LinksFirstSeen` | node_editor/func/parse_json.py:39-41 | keys appear in `links` in the order of their first eligible occurrence |
| `LinkProperties.RepeatedKeyKeepsLinks` | node_editor/func/parse_json.py:40-41 | a connection whose key is already listed leaves `links` unchanged. A new key is appended at the end |
| `LinkProperties.LinksPrefix` | node_editor/func/parse_json.py:40-41 | later connections never move or remove a key already in `links` |
| `LinkProperties.ConnMapLast` | node_editor/func/parse_json.py:40-44 | writing each connection over its key leaves exactly the keys written, each mapped to the last connection that wrote it |
| `LinkProperties.LinkConnLastWins` | node_editor/func/parse_json.py:40-44 | `link_conn[k]` is the last eligible connection in input order whose key is `k` |
| `LinkProperties.LinkConnKeys` | node_editor/func/parse_json.py:40-46 | `link_conn` has an entry for exactly the keys in `links` |
| `LinkProperties.DuplicateConnectionsExample` | node_editor/func/parse_json.py:32-44 | for two data connections u1→u2 on different pins with a control-only connection between them, `links` is the single key 'b a' and its `link_conn` entry is the second data connection |
| `LinkProperties.KeyTextInjective` | node_editor/func/parse_json.py:39 | two keys give the same `chr(end) + ' ' + chr(start)` string exactly when they have the same end id and the same start id |
| `LinkProperties.LinkStringsMatch` | node_editor/func/parse_json.py:39-41 | while the ids stay below 0xD800, every key renders as `chr(end) + ' ' + chr(start)`. The string list built by appending each new string once is exactly the rendering of `links`, so the pair keys give the same `links` as the source's strings |
| `ParseJson.BuildIdentifiers` | node_editor/func/parse_json.py:58-61 | `uuid_id` has an entry for exactly the uuids of the nodes. Each maps to `metadata['id']` if present, else `name`, of the last node with that uuid |
| `ParseJson.AssembleCommands` | node_editor/func/parse_json.py:69-75 | the script id is 1. The script has exactly `len(exe)` commands, and command i is `{on_event: on_event[i], exe: exe[i]}` |
| `ParseJson.Test` | node_editor/func/parse_json.py:49-77 | there is no result when `nodes` or `connections` is missing or empty. Otherwise the result holds the identifier table, the resolved `links` and `link_conn`, and the zipped script |

## Left out

- `read_json_file` and `write_json_file` (parse_json.py:5-22) do file I/O and JSON
  decoding. `Test` returns the script instead of writing `test_exit.json`.
- `print('types', ...)` writes to the console and is not modelled.
- `Tree.printForest(links)` is in `node_editor/func/tree.py`, which is not part of
  this model. Neither its output nor any exception it might raise is modelled.
- `Tree.getRequestsData` lives in `node_editor/func/tree.py`, which is not part of
  this model. Its two results, `exe` and `on_event`, are parameters of `Test`.
  Forest construction and its error cases are therefore not modelled.
- `ParseJson.Test` and `ParseJson.AssembleCommands` require `|onEvent| >= |exe|`.
  Without it the source's `on_event[i]` raises `IndexError`, and that exception is
  not modelled.
- Short ids are naturals. `chr(counter)` raising `ValueError` past `0x10FFFF`
  (more than 1,114,015 distinct nodes) is not modelled.
- `KeyText` is defined only for ids below `0xD800`, because Dafny characters exclude
  surrogates and Python's `chr` does not.
- LinkStringsMatch: requires `97 + (number of uuids met) <= 0xD800` for the same reason.
  With more uuids the string rendering is not modelled.
- Uuids, pin names, node names and metadata values are Dafny strings, so they cannot
  hold a lone surrogate such as the `"\ud800"` that `json.load` accepts. Inputs with
  such characters are not modelled.
- Malformed input raising `KeyError` is not modelled: a connection without a pin
  field, or a node without `metadata`. Every field is present in the datatypes.
- Python dicts keep insertion order, and Dafny maps do not. `uuid_id` and `link_conn`
  are passed to `Tree.getRequestsData` and `uuid_id.values()` is printed, so that order
  is not modelled. No modelled result depends on it: `links` records the order in which
  `link_conn` gained its keys.
- Metadata values are modelled as strings, although in JSON they may be any value.
  `not nodes` is modelled for a list or a missing key only.
- The Qt view, scene loading and saving, the main window and the example node
  widget are UI code with no part in the compile pass.
