/** The in-memory step both hierarchy reads end with: the page's rows go into a Map keyed by
    id, then each node is pushed onto its boss's `subordinates` when that boss is in the same
    page. Nodes refer to their subordinates by id; every such id is the id of a node of the
    same answer, as the source's arrays hold references to the same objects. */
module TreeAssembly {
  import opened Common
  import opened Hierarchy

  /** One element of the answer: a row's columns, `boss` renamed `bossId`, and the children. */
  datatype Node = Node(id: int, name: string, email: string, role: Option<Role>, bossId: Option<int>,
                       subordinates: seq<int>)

  function NodeOf(r: Row, subordinates: seq<int>): (n: Node)
    ensures n.id == r.id && n.bossId == r.boss && n.subordinates == subordinates
  {
    Node(r.id, r.name, r.email, r.role, r.boss, subordinates)
  }

  /** The columns of a node, without its children. */
  function RowOfNode(n: Node): Row {
    Row(n.id, n.name, n.email, n.role, n.bossId)
  }

  function RowIds(rows: seq<Row>): set<int> {
    set r | r in rows :: r.id
  }

  lemma RowIdsSnoc(rows: seq<Row>)
    requires rows != []
    ensures RowIds(rows) == RowIds(rows[..|rows| - 1]) + {rows[|rows| - 1].id}
  {
    var prefix := rows[..|rows| - 1];
    assert rows == prefix + [rows[|rows| - 1]];
    forall k | k in RowIds(rows) ensures k in RowIds(prefix) + {rows[|rows| - 1].id} {
      var r :| r in rows && r.id == k;
      if r != rows[|rows| - 1] {
        assert r in prefix;
      }
    }
    forall k | k in RowIds(prefix) ensures k in RowIds(rows) {
      var r :| r in prefix && r.id == k;
      assert r in rows;
    }
  }

  /** The keys of the Map in insertion order: each id where it first appears. Setting a key
      that is already present keeps its place. */
  function FirstSeen(rows: seq<Row>): (order: seq<int>)
    ensures forall k {:trigger k in order} :: k in order <==> k in RowIds(rows)
  {
    if rows == [] then []
    else
      var prefix := FirstSeen(rows[..|rows| - 1]);
      var k := rows[|rows| - 1].id;
      RowIdsSnoc(rows);
      if k in prefix then prefix else prefix + [k]
  }

  /** Each id appears in the Map's keys once. */
  lemma {:induction false} FirstSeenDistinct(rows: seq<Row>)
    ensures forall i, j | 0 <= i < j < |FirstSeen(rows)| :: FirstSeen(rows)[i] != FirstSeen(rows)[j]
  {
    if rows != [] {
      var prefix := rows[..|rows| - 1];
      FirstSeenDistinct(prefix);
      var p := FirstSeen(prefix);
      var k := rows[|rows| - 1].id;
      if k !in p {
        var order := p + [k];
        forall i, j | 0 <= i < j < |order| ensures order[i] != order[j] {
          if j == |p| {
            assert order[i] == p[i] && p[i] in p;
          }
        }
      }
    }
  }

  /** Row `i` is the last row of `rows` with its id. */
  predicate LastWith(rows: seq<Row>, i: int)
    requires 0 <= i < |rows|
  {
    forall j | i < j < |rows| :: rows[j].id != rows[i].id
  }

  /** The Map's values: for each id, the last row set under it. */
  function Latest(rows: seq<Row>): (m: map<int, Row>)
    ensures m.Keys == RowIds(rows)
    ensures forall k | k in m :: m[k].id == k
  {
    if rows == [] then map[]
    else
      var last := rows[|rows| - 1];
      RowIdsSnoc(rows);
      Latest(rows[..|rows| - 1])[last.id := last]
  }

  /** The last row set under an id is the one the Map keeps. */
  lemma {:induction false} LatestIsLast(rows: seq<Row>, i: int)
    requires 0 <= i < |rows| && LastWith(rows, i)
    ensures Latest(rows)[rows[i].id] == rows[i]
  {
    if i < |rows| - 1 {
      var prefix := rows[..|rows| - 1];
      assert rows[|rows| - 1].id != rows[i].id;
      assert LastWith(prefix, i) by {
        forall j | i < j < |prefix| ensures prefix[j].id != prefix[i].id {
          assert prefix[j] == rows[j];
        }
      }
      LatestIsLast(prefix, i);
    }
  }

  /** `user.bossId && userMap.has(user.bossId)` with the boss being `p`: a boss id of 0 is
      falsy, like a missing one. */
  predicate ReportsTo(latest: map<int, Row>, k: int, p: int) {
    k in latest && latest[k].boss == Some(p) && p != 0
  }

  /** The ids pushed onto node `p`'s `subordinates`: the nodes that report to it, in the order
      the second loop visits them. */
  function SubordinatesIn(order: seq<int>, latest: map<int, Row>, p: int): (subs: seq<int>)
    ensures forall k {:trigger k in subs} :: k in subs <==> k in order && ReportsTo(latest, k, p)
    ensures |subs| <= |order|
  {
    if order == [] then []
    else
      var k := order[|order| - 1];
      var prefix := order[..|order| - 1];
      assert order == prefix + [k];
      SubordinatesIn(prefix, latest, p) + if ReportsTo(latest, k, p) then [k] else []
  }

  /** The answer of a hierarchy read for the rows of its page. */
  function Assembled(rows: seq<Row>): (nodes: seq<Node>)
    ensures |nodes| == |FirstSeen(rows)|
  {
    var order := FirstSeen(rows);
    var latest := Latest(rows);
    assert forall k | k in order :: k in latest;
    seq(|order|, x requires 0 <= x < |order| => NodeOf(latest[order[x]], SubordinatesIn(order, latest, order[x])))
  }

  lemma AssembledIs(rows: seq<Row>, x: int)
    requires 0 <= x < |FirstSeen(rows)|
    ensures var order := FirstSeen(rows); var latest := Latest(rows);
      order[x] in latest &&
      Assembled(rows)[x] == NodeOf(latest[order[x]], SubordinatesIn(order, latest, order[x]))
  {
    assert FirstSeen(rows)[x] in FirstSeen(rows);
  }

  /** What node `x` of the answer holds. */
  lemma AssembledAt(rows: seq<Row>, x: int)
    requires 0 <= x < |Assembled(rows)|
    ensures var order := FirstSeen(rows); var latest := Latest(rows);
      && x < |order| && order[x] in latest
      && Assembled(rows)[x].id == order[x]
      && RowOfNode(Assembled(rows)[x]) == latest[order[x]]
      && Assembled(rows)[x].subordinates == SubordinatesIn(order, latest, order[x])
  {
    var order := FirstSeen(rows);
    assert order[x] in order;
  }

  /** One more row: its id joins the keys unless present, and its value replaces the old. */
  lemma Snoc(rows: seq<Row>, i: int)
    requires 0 <= i < |rows|
    ensures var k := rows[i].id;
      FirstSeen(rows[..i + 1]) == if k in FirstSeen(rows[..i]) then FirstSeen(rows[..i]) else FirstSeen(rows[..i]) + [k]
    ensures Latest(rows[..i + 1]) == Latest(rows[..i])[rows[i].id := rows[i]]
  {
    assert rows[..i + 1][..i] == rows[..i];
  }

  /** One more visited node: it joins its boss's list if it reports to it. */
  lemma SubordinatesSnoc(order: seq<int>, latest: map<int, Row>, k: int)
    ensures forall p :: (SubordinatesIn(order + [k], latest, p)
      == SubordinatesIn(order, latest, p) + if ReportsTo(latest, k, p) then [k] else [])
  {
    assert (order + [k])[..|order|] == order;
  }

  /** Lines 173-187 and 240-255: `results.forEach(... userMap.set(user.id, user))`, each row
      made a node with no subordinates yet. */
  method CollectRows(rows: seq<Row>) returns (userMap: map<int, Node>, keys: seq<int>)
    ensures keys == FirstSeen(rows)
    ensures userMap.Keys == Latest(rows).Keys
    ensures forall k | k in userMap :: userMap[k] == NodeOf(Latest(rows)[k], [])
  {
    userMap, keys := map[], [];
    var i := 0;
    while i < |rows|
      invariant 0 <= i <= |rows|
      invariant keys == FirstSeen(rows[..i])
      invariant userMap.Keys == Latest(rows[..i]).Keys
      invariant forall k | k in userMap :: userMap[k] == NodeOf(Latest(rows[..i])[k], [])
    {
      var r := rows[i];
      Snoc(rows, i);
      if r.id !in userMap {
        keys := keys + [r.id];
      }
      userMap := userMap[r.id := NodeOf(r, [])];
      i := i + 1;
    }
    assert rows[..i] == rows;
  }

  /** The second loop's invariant: every node holds its row and the subordinates pushed by
      the keys in `done`. */
  ghost predicate Linked(userMap: map<int, Node>, latest: map<int, Row>, done: seq<int>) {
    && userMap.Keys == latest.Keys
    && forall p | p in userMap :: userMap[p] == NodeOf(latest[p], SubordinatesIn(done, latest, p))
  }

  /** One pass of the second loop keeps the nodes equal to the rows with the subordinates
      of the keys visited so far. */
  lemma AttachStep(done: seq<int>, k: int, latest: map<int, Row>, before: map<int, Node>, after: map<int, Node>)
    requires k in latest
    requires Linked(before, latest, done)
    requires var b := latest[k].boss;
      after == if b.Some? && b.value != 0 && b.value in before
               then before[b.value := before[b.value].(subordinates := before[b.value].subordinates + [k])]
               else before
    ensures Linked(after, latest, done + [k])
  {
    SubordinatesSnoc(done, latest, k);
    forall p | p in after
      ensures after[p] == NodeOf(latest[p], SubordinatesIn(done + [k], latest, p))
    {
      assert ReportsTo(latest, k, p) <==> latest[k].boss == Some(p) && p != 0;
    }
  }

  /** Lines 189-196 and 257-264: `users.forEach(...)` over the Map's values in key order,
      pushing each node onto its boss when the boss id is truthy and a key of the Map. */
  method AttachSubordinates(keys: seq<int>, ghost latest: map<int, Row>, nodesById: map<int, Node>)
    returns (userMap: map<int, Node>)
    requires forall k | k in keys :: k in latest
    requires forall k | k in latest :: latest[k].id == k
    requires nodesById.Keys == latest.Keys
    requires forall k | k in nodesById :: nodesById[k] == NodeOf(latest[k], [])
    ensures userMap.Keys == latest.Keys
    ensures forall k | k in userMap :: userMap[k] == NodeOf(latest[k], SubordinatesIn(keys, latest, k))
  {
    userMap := nodesById;
    var rest := keys;
    ghost var done: seq<int> := [];
    while rest != []
      invariant done + rest == keys
      decreases |rest|
      invariant Linked(userMap, latest, done)
    {
      assert keys[|done|] == rest[0];
      assert rest[0] in latest;
      ghost var before := userMap;
      var user := userMap[rest[0]];
      if user.bossId.Some? && user.bossId.value != 0 && user.bossId.value in userMap {
        var boss := userMap[user.bossId.value];
        userMap := userMap[user.bossId.value := boss.(subordinates := boss.subordinates + [user.id])];
      }
      AttachStep(done, rest[0], latest, before, userMap);
      assert rest == [rest[0]] + rest[1..];
      done, rest := done + [rest[0]], rest[1..];
    }
    assert done == keys;
  }

  /** getUser's and getAllUsers' answer for the rows of a page: lines 173-198 and 240-266. */
  method AssembleTree(rows: seq<Row>) returns (nodes: seq<Node>)
    ensures nodes == Assembled(rows)
  {
    var userMap, keys := CollectRows(rows);
    userMap := AttachSubordinates(keys, Latest(rows), userMap);
    assert forall x | 0 <= x < |keys| :: keys[x] in keys;
    nodes := seq(|keys|, x requires 0 <= x < |keys| => userMap[keys[x]]);
    forall x | 0 <= x < |nodes| ensures nodes[x] == Assembled(rows)[x] {
      AssembledIs(rows, x);
    }
  }

  // ---------------------------------------------------------------- properties

  /** One node per distinct id of the page. */
  lemma OneNodePerId(rows: seq<Row>)
    ensures var nodes := Assembled(rows);
      && (forall x, y | 0 <= x < y < |nodes| :: nodes[x].id != nodes[y].id)
      && (forall x | 0 <= x < |nodes| :: nodes[x].id in RowIds(rows))
      && (forall k | k in RowIds(rows) :: exists x | 0 <= x < |nodes| :: nodes[x].id == k)
  {
    var nodes := Assembled(rows);
    var order := FirstSeen(rows);
    FirstSeenDistinct(rows);
    forall x, y | 0 <= x < y < |nodes| ensures nodes[x].id != nodes[y].id {
      AssembledAt(rows, x);
      AssembledAt(rows, y);
    }
    forall x | 0 <= x < |nodes| ensures nodes[x].id in RowIds(rows) {
      AssembledAt(rows, x);
      assert order[x] in order;
    }
    forall k | k in RowIds(rows) ensures exists x | 0 <= x < |nodes| :: nodes[x].id == k {
      assert k in order;
      var x :| 0 <= x < |order| && order[x] == k;
      AssembledAt(rows, x);
    }
  }

  /** A node carries the columns of the last row with its id. */
  lemma LastRowWins(rows: seq<Row>, x: int, i: int)
    requires 0 <= x < |Assembled(rows)| && 0 <= i < |rows|
    requires rows[i].id == Assembled(rows)[x].id && LastWith(rows, i)
    ensures RowOfNode(Assembled(rows)[x]) == rows[i]
  {
    AssembledAt(rows, x);
    LatestIsLast(rows, i);
  }

  /** A node's `subordinates` hold exactly the nodes whose boss it is, when its id is truthy. */
  lemma Subordinates(rows: seq<Row>, x: int, y: int)
    requires 0 <= x < |Assembled(rows)| && 0 <= y < |Assembled(rows)|
    ensures var nodes := Assembled(rows);
      nodes[y].id in nodes[x].subordinates <==> nodes[y].bossId == Some(nodes[x].id) && nodes[x].id != 0
  {
    var order := FirstSeen(rows);
    AssembledAt(rows, x);
    AssembledAt(rows, y);
    assert order[y] in order;
  }

  /** Every id in a `subordinates` list is a node of the answer that reports to it, listed
      once. */
  lemma NoFabricatedChildren(rows: seq<Row>, x: int)
    requires 0 <= x < |Assembled(rows)|
    ensures var nodes := Assembled(rows); var subs := nodes[x].subordinates;
      && (forall k | k in subs :: exists y | 0 <= y < |nodes| :: nodes[y].id == k && nodes[y].bossId == Some(nodes[x].id))
      && (forall i, j | 0 <= i < j < |subs| :: subs[i] != subs[j])
  {
    var nodes := Assembled(rows);
    var order := FirstSeen(rows);
    var latest := Latest(rows);
    AssembledAt(rows, x);
    var subs := nodes[x].subordinates;
    forall k | k in subs ensures exists y | 0 <= y < |nodes| :: nodes[y].id == k && nodes[y].bossId == Some(nodes[x].id) {
      assert k in order;
      var y :| 0 <= y < |order| && order[y] == k;
      AssembledAt(rows, y);
    }
    FirstSeenDistinct(rows);
    SubordinatesDistinct(order, latest, order[x]);
  }

  lemma {:induction false} SubordinatesDistinct(order: seq<int>, latest: map<int, Row>, p: int)
    requires forall i, j | 0 <= i < j < |order| :: order[i] != order[j]
    ensures forall i, j | 0 <= i < j < |SubordinatesIn(order, latest, p)| ::
      SubordinatesIn(order, latest, p)[i] != SubordinatesIn(order, latest, p)[j]
  {
    if order != [] {
      var prefix := order[..|order| - 1];
      var k := order[|order| - 1];
      SubordinatesDistinct(prefix, latest, p);
      assert k !in prefix;
      var subs := SubordinatesIn(order, latest, p);
      var head := SubordinatesIn(prefix, latest, p);
      forall i, j | 0 <= i < j < |subs| ensures subs[i] != subs[j] {
        if j == |head| {
          assert subs[i] == head[i] && head[i] in head;
        }
      }
    }
  }

  /** A node whose boss is not in the page, or whose boss id is null or 0, is nobody's
      subordinate. */
  lemma OrphansAttachedNowhere(rows: seq<Row>, y: int)
    requires 0 <= y < |Assembled(rows)|
    requires var nodes := Assembled(rows);
      || nodes[y].bossId.None? || nodes[y].bossId == Some(0)
      || forall x | 0 <= x < |nodes| :: Some(nodes[x].id) != nodes[y].bossId
    ensures var nodes := Assembled(rows);
      forall x | 0 <= x < |nodes| :: nodes[y].id !in nodes[x].subordinates
  {
    var nodes := Assembled(rows);
    forall x | 0 <= x < |nodes| ensures nodes[y].id !in nodes[x].subordinates {
      Subordinates(rows, x, y);
    }
  }

  /** No node is pushed onto two bosses. */
  lemma AtMostOneBoss(rows: seq<Row>, y: int, x1: int, x2: int)
    requires 0 <= y < |Assembled(rows)| && 0 <= x1 < |Assembled(rows)| && 0 <= x2 < |Assembled(rows)|
    requires var nodes := Assembled(rows);
      nodes[y].id in nodes[x1].subordinates && nodes[y].id in nodes[x2].subordinates
    ensures x1 == x2
  {
    Subordinates(rows, x1, y);
    Subordinates(rows, x2, y);
    OneNodePerId(rows);
  }
}
