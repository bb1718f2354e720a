/** The recursive hierarchy queries of the users service, as functions of the boss relation.

    Neither query has an ORDER BY, so the row order is the database's choice; this model fixes
    it: a scan of `users` yields ascending ids, and each level of the recursion lists, for each
    row of the previous level in turn, its direct subordinates in ascending id order. PostgreSQL
    evaluates a recursive query only as far as the rows its consumer pulls, so each query is
    modelled as a stream of which the OFFSET/LIMIT window pulls a prefix. */
module Hierarchy {
  import opened Common
  import opened UserEntities
  import opened Pagination

  // ---------------------------------------------------------------- scan order

  lemma Inhabited(s: set<int>)
    requires s != {}
    ensures exists e :: e in s
  {
    assert (forall e :: e !in s) ==> s == {};
  }

  lemma {:induction false} LeastExists(s: set<int>)
    requires s != {}
    ensures exists m :: m in s && forall x | x in s :: m <= x
    decreases s
  {
    Inhabited(s);
    var x :| x in s;
    if s == {x} {
      assert forall z | z in s :: x <= z;
    } else {
      var t := s - {x};
      assert s == t + {x};
      assert t != {};
      LeastExists(t);
      var y :| y in t && forall z | z in t :: y <= z;
      var m := if x < y then x else y;
      forall z | z in s ensures m <= z {
        if z != x {
          assert z in t;
        }
      }
      assert m in s;
    }
  }

  function Least(s: set<int>): (m: int)
    requires s != {}
    ensures m in s && forall x | x in s :: m <= x
  {
    LeastExists(s);
    var m :| m in s && forall x | x in s :: m <= x;
    m
  }

  /** The elements of `s` in ascending order. */
  function Ascending(s: set<int>): (r: seq<int>)
    ensures |r| == |s|
    ensures forall k :: k in r <==> k in s
    decreases |s|
  {
    if s == {} then []
    else
      var m := Least(s);
      [m] + Ascending(s - {m})
  }

  lemma {:induction false} AscendingIsSorted(s: set<int>)
    ensures forall i, j | 0 <= i < j < |Ascending(s)| :: Ascending(s)[i] < Ascending(s)[j]
    decreases |s|
  {
    if s != {} {
      var m := Least(s);
      var t := Ascending(s - {m});
      AscendingIsSorted(s - {m});
      var r := Ascending(s);
      assert r == [m] + t;
      forall i, j | 0 <= i < j < |r| ensures r[i] < r[j] {
        assert r[j] == t[j - 1];
        if i > 0 {
          assert r[i] == t[i - 1];
        } else {
          assert t[j - 1] in t;
          assert t[j - 1] in s - {m};
        }
      }
    }
  }

  /** The ids of the store in scan order. */
  function Ids(users: map<int, UserRecord>): (r: seq<int>)
    ensures |r| == |users|
    ensures forall k :: k in r <==> k in users
  {
    Ascending(users.Keys)
  }

  /** The scan order lists the ids in ascending order, each once. */
  lemma IdsAscending(users: map<int, UserRecord>)
    ensures forall i, j | 0 <= i < j < |Ids(users)| :: Ids(users)[i] < Ids(users)[j]
  {
    AscendingIsSorted(users.Keys);
    assert Ids(users) == Ascending(users.Keys);
  }

  // ---------------------------------------------------------------- the boss relation

  /** The ids of `ks` whose boss is `p`, in the order of `ks`. */
  function ChildrenAmong(users: map<int, UserRecord>, ks: seq<int>, p: int): (r: seq<int>)
    ensures |r| <= |ks|
    ensures forall k {:trigger k in r} :: k in r <==> k in ks && k in users && users[k].boss == Some(p)
  {
    if ks == [] then []
    else
      var rest := ChildrenAmong(users, ks[1..], p);
      if ks[0] in users && users[ks[0]].boss == Some(p) then [ks[0]] + rest else rest
  }

  /** The direct subordinates of `p`: the rows whose boss is `p`, in scan order. */
  function Children(users: map<int, UserRecord>, p: int): (r: seq<int>)
    ensures forall k {:trigger k in r} :: k in r <==> k in users && users[k].boss == Some(p)
  {
    ChildrenAmong(users, Ids(users), p)
  }

  /** The index the join `u.boss = uh.id` probes: every user's direct subordinates. */
  function ChildIndex(users: map<int, UserRecord>): (kids: map<int, seq<int>>)
    ensures kids.Keys == users.Keys
    ensures forall p | p in kids :: kids[p] == Children(users, p)
  {
    map p | p in users :: Children(users, p)
  }

  /** `kids` lists, for each user, exactly the users whose boss it is. */
  ghost predicate IsChildIndex(users: map<int, UserRecord>, kids: map<int, seq<int>>)
  {
    && kids.Keys == users.Keys
    && (forall p, k | p in kids && k in kids[p] :: k in users && users[k].boss == Some(p))
    && (forall k {:trigger users[k]} | k in users && users[k].boss.Some? && users[k].boss.value in kids ::
          k in kids[users[k].boss.value])
  }

  lemma ChildIndexIsChildIndex(users: map<int, UserRecord>)
    ensures IsChildIndex(users, ChildIndex(users))
  {
    var kids := ChildIndex(users);
    forall k | k in users && users[k].boss.Some? && users[k].boss.value in kids
      ensures k in kids[users[k].boss.value]
    {
      assert k in Children(users, users[k].boss.value);
    }
  }

  /** The rows the join finds for one row `p` of the previous level. */
  function KidsOf(kids: map<int, seq<int>>, p: int): seq<int> {
    if p in kids then kids[p] else []
  }

  /** One step of the recursion `INNER JOIN user_hierarchy uh ON u.boss = uh.id`: for each row
      of `level` in turn, the rows whose boss it is. */
  function Expand(kids: map<int, seq<int>>, level: seq<int>): (r: seq<int>)
    ensures level == [] ==> r == []
    ensures |level| == 1 ==> r == KidsOf(kids, level[0])
  {
    if level == [] then [] else KidsOf(kids, level[0]) + Expand(kids, level[1..])
  }

  /** A row is in the next level exactly when its boss is a row of this one. */
  lemma {:induction false} ExpandMembers(users: map<int, UserRecord>, kids: map<int, seq<int>>, level: seq<int>)
    requires IsChildIndex(users, kids)
    ensures forall c {:trigger c in Expand(kids, level)} :: c in Expand(kids, level) <==>
      c in users && users[c].boss.Some? && users[c].boss.value in level && users[c].boss.value in users
  {
    if level != [] {
      ExpandMembers(users, kids, level[1..]);
      var p := level[0];
      forall c ensures c in Expand(kids, level) <==>
        c in users && users[c].boss.Some? && users[c].boss.value in level && users[c].boss.value in users
      {
        assert c in Expand(kids, level) <==> c in KidsOf(kids, p) || c in Expand(kids, level[1..]);
        assert forall b :: b in level <==> b == p || b in level[1..] by {
          assert level == [p] + level[1..];
        }
        if c in users && users[c].boss == Some(p) && p in users {
          assert c in kids[p];
        }
      }
    }
  }

  // ---------------------------------------------------------------- rows

  /** One row of a recursive query's result. `role` is `None` where the query does not select
      the role column. */
  datatype Row = Row(id: int, name: string, email: string, role: Option<Role>, boss: Option<int>)

  function RowOf(users: map<int, UserRecord>, id: int, withRole: bool): (r: Row)
    requires id in users
    ensures r.id == id && r.boss == users[id].boss
    ensures r.name == users[id].name && r.email == users[id].email
    ensures r.role == if withRole then Some(users[id].role) else None
  {
    var u := users[id];
    Row(id, u.name, u.email, if withRole then Some(u.role) else None, u.boss)
  }

  function RowsOf(users: map<int, UserRecord>, ids: seq<int>, withRole: bool): (rows: seq<Row>)
    requires forall k | k in ids :: k in users
    ensures |rows| == |ids|
    ensures forall i | 0 <= i < |ids| :: rows[i] == RowOf(users, ids[i], withRole)
    ensures forall row | row in rows ::
      row.id in ids && row.boss == users[row.id].boss && (row.role.Some? <==> withRole)
  {
    seq(|ids|, i requires 0 <= i < |ids| => RowOf(users, ids[i], withRole))
  }

  lemma RowsOfPrefix(users: map<int, UserRecord>, ids: seq<int>, n: nat, withRole: bool)
    requires forall k | k in ids :: k in users
    requires n <= |ids|
    ensures RowsOf(users, ids[..n], withRole) == RowsOf(users, ids, withRole)[..n]
  {
    assert forall k | k in ids[..n] :: k in ids;
  }

  // ---------------------------------------------------------------- getAllUsers

  /** The first `need` ids of the stream a recursive query produces when its first level is
      `level`: that level, then the rows whose boss is in it, and so on. The stream of a store
      with a cycle is endless; any prefix of it is still defined. */
  function Take(kids: map<int, seq<int>>, level: seq<int>, need: nat): (r: seq<int>)
    ensures |r| <= need
    ensures need <= |level| ==> r == level[..need]
    ensures |level| <= need ==> |level| <= |r| && r[..|level|] == level
    decreases need
  {
    if level == [] || need == 0 then []
    else if need <= |level| then level[..need]
    else
      var r := level + Take(kids, Expand(kids, level), need - |level|);
      assert r[..|level|] == level;
      r
  }

  /** Every id the stream yields is a user's. */
  lemma {:induction false} TakeWithin(users: map<int, UserRecord>, kids: map<int, seq<int>>, level: seq<int>, need: nat)
    requires IsChildIndex(users, kids)
    requires forall f | f in level :: f in users
    ensures forall k | k in Take(kids, level, need) :: k in users
    decreases need
  {
    if level != [] && need > |level| {
      ExpandMembers(users, kids, level);
      TakeWithin(users, kids, Expand(kids, level), need - |level|);
    }
  }

  /** The ids getAllUsers reads for window `w`: its recursion starts from every user. */
  function AllUsersIds(users: map<int, UserRecord>, w: Window): (r: seq<int>)
    requires WindowError(w).None?
    ensures forall k | k in r :: k in users
    ensures |r| <= Need(w)
  {
    var kids := ChildIndex(users);
    ChildIndexIsChildIndex(users);
    TakeWithin(users, kids, Ids(users), Need(w));
    Take(kids, Ids(users), Need(w))
  }

  /** getAllUsers seeds its recursion with every user: the stream opens with all of them, in
      scan order, before any row repeats. */
  lemma AllUsersSeedsEveryone(users: map<int, UserRecord>, w: Window)
    requires WindowError(w).None?
    ensures Need(w) <= |users| ==> AllUsersIds(users, w) == Ids(users)[..Need(w)]
    ensures |users| <= Need(w) ==> |users| <= |AllUsersIds(users, w)| && AllUsersIds(users, w)[..|users|] == Ids(users)
  {
  }

  // ---------------------------------------------------------------- repeated rows

  /** No id occurs twice in `r`. */
  ghost predicate Distinct(r: seq<int>) {
    forall i, j | 0 <= i < j < |r| :: r[i] != r[j]
  }

  /** `k` is a user whose boss is a user: it has a row of the recursion to be found under. */
  ghost predicate Reports(users: map<int, UserRecord>, k: int) {
    k in users && users[k].boss.Some? && users[k].boss.value in users
  }

  /** The first id of a sequence without repeats does not occur again. */
  lemma HeadNotInTail(r: seq<int>)
    requires Distinct(r) && r != []
    ensures r[0] !in r[1..] && Distinct(r[1..])
  {
    forall i | 0 <= i < |r[1..]| ensures r[1..][i] != r[0] {
      assert r[1..][i] == r[i + 1];
    }
  }

  lemma {:induction false} DistinctWithin(r: seq<int>, s: set<int>)
    requires Distinct(r) && forall x | x in r :: x in s
    ensures |r| <= |s|
    decreases |r|
  {
    if r != [] {
      HeadNotInTail(r);
      assert r[0] in r;
      assert |s - {r[0]}| == |s| - 1;
      DistinctWithin(r[1..], s - {r[0]});
    }
  }

  lemma {:induction false} DistinctOnce(r: seq<int>, k: int)
    requires Distinct(r) && k in r
    ensures multiset(r)[k] == 1
    decreases |r|
  {
    assert r == [r[0]] + r[1..];
    HeadNotInTail(r);
    if r[0] != k {
      DistinctOnce(r[1..], k);
    }
  }

  lemma IdsDistinct(users: map<int, UserRecord>)
    ensures Distinct(Ids(users))
  {
    IdsAscending(users);
  }

  lemma {:induction false} ChildrenAmongDistinct(users: map<int, UserRecord>, ks: seq<int>, p: int)
    requires Distinct(ks)
    ensures Distinct(ChildrenAmong(users, ks, p))
    decreases |ks|
  {
    if ks != [] {
      var rest := ChildrenAmong(users, ks[1..], p);
      ChildrenAmongDistinct(users, ks[1..], p);
      HeadNotInTail(ks);
      assert ks[0] !in rest;
    }
  }

  /** Each entry of the join index lists a subordinate once. */
  lemma ChildIndexDistinct(users: map<int, UserRecord>)
    ensures forall p | p in ChildIndex(users) :: Distinct(ChildIndex(users)[p])
  {
    IdsDistinct(users);
    forall p | p in ChildIndex(users) ensures Distinct(ChildIndex(users)[p]) {
      ChildrenAmongDistinct(users, Ids(users), p);
    }
  }

  lemma DistinctConcat(a: seq<int>, b: seq<int>)
    requires Distinct(a) && Distinct(b) && forall x | x in a :: x !in b
    ensures Distinct(a + b)
  {
    forall i, j | 0 <= i < j < |a + b| ensures (a + b)[i] != (a + b)[j] {
      if i < |a| && |a| <= j {
        assert (a + b)[i] in a && (a + b)[j] == b[j - |a|];
      }
    }
  }

  /** A level without repeats has a next level without repeats: a row has only one boss. */
  lemma {:induction false} ExpandDistinct(users: map<int, UserRecord>, kids: map<int, seq<int>>, level: seq<int>)
    requires IsChildIndex(users, kids) && forall p | p in kids :: Distinct(kids[p])
    requires Distinct(level)
    ensures Distinct(Expand(kids, level))
    decreases |level|
  {
    if level != [] {
      var p := level[0];
      ExpandDistinct(users, kids, level[1..]);
      ExpandMembers(users, kids, level[1..]);
      HeadNotInTail(level);
      DistinctConcat(KidsOf(kids, p), Expand(kids, level[1..]));
    }
  }

  /** Past its first level, a stream whose first level reports to users holds only such rows. */
  lemma {:induction false} TakeReports(users: map<int, UserRecord>, kids: map<int, seq<int>>, level: seq<int>, need: nat)
    requires IsChildIndex(users, kids)
    requires forall f | f in level :: Reports(users, f)
    ensures forall k | k in Take(kids, level, need) :: Reports(users, k)
    decreases need
  {
    if level != [] && need > |level| {
      ExpandMembers(users, kids, level);
      TakeReports(users, kids, Expand(kids, level), need - |level|);
    }
  }

  /** Past a non-empty first level, the stream goes on with the next level. */
  lemma TakeUnfolds(kids: map<int, seq<int>>, seed: seq<int>, need: nat)
    requires seed != [] && need > |seed|
    ensures Take(kids, seed, need) == seed + Take(kids, Expand(kids, seed), need - |seed|)
  {
  }

  /** Past its first level, the stream holds only users whose boss is a user. */
  lemma PastSeedReports(users: map<int, UserRecord>, kids: map<int, seq<int>>, seed: seq<int>, need: nat)
    requires IsChildIndex(users, kids) && forall k | k in seed :: k in users
    ensures forall i | |seed| <= i < |Take(kids, seed, need)| :: Reports(users, Take(kids, seed, need)[i])
  {
    var ids := Take(kids, seed, need);
    var n := |seed|;
    if need > n && n > 0 {
      var next := Expand(kids, seed);
      var rest := Take(kids, next, need - n);
      TakeUnfolds(kids, seed, need);
      ExpandMembers(users, kids, seed);
      TakeReports(users, kids, next, need - n);
      forall i | n <= i < |ids| ensures Reports(users, ids[i]) {
        assert ids[i] == rest[i - n];
      }
    }
  }

  /** Seeded with every user once and pulled at least that far, the stream holds a user that
      reports to no user exactly once. */
  lemma SeedOnce(users: map<int, UserRecord>, kids: map<int, seq<int>>, seed: seq<int>, need: nat)
    requires IsChildIndex(users, kids)
    requires Distinct(seed) && (forall k :: k in seed <==> k in users) && |seed| <= need
    ensures forall k | k in users && !Reports(users, k) :: multiset(Take(kids, seed, need))[k] == 1
  {
    var ids := Take(kids, seed, need);
    var n := |seed|;
    if need > n && n > 0 {
      var next := Expand(kids, seed);
      var rest := Take(kids, next, need - n);
      TakeUnfolds(kids, seed, need);
      ExpandMembers(users, kids, seed);
      TakeReports(users, kids, next, need - n);
      forall k | k in users && !Reports(users, k) ensures multiset(ids)[k] == 1 {
        DistinctOnce(seed, k);
        assert k !in rest;
      }
    } else {
      assert ids == seed;
      forall k | k in users ensures multiset(ids)[k] == 1 {
        DistinctOnce(seed, k);
      }
    }
  }

  /** Seeded with every user once and pulled twice that far, the stream holds a user that
      reports to a user at least twice: in the seed and again under its boss. */
  lemma SeedTwice(users: map<int, UserRecord>, kids: map<int, seq<int>>, seed: seq<int>, need: nat)
    requires IsChildIndex(users, kids) && forall p | p in kids :: Distinct(kids[p])
    requires Distinct(seed) && (forall k :: k in seed <==> k in users) && 2 * |seed| <= need
    ensures forall k | k in users && Reports(users, k) :: multiset(Take(kids, seed, need))[k] >= 2
  {
    var ids := Take(kids, seed, need);
    var n := |seed|;
    if n > 0 {
      var next := Expand(kids, seed);
      var rest := Take(kids, next, need - n);
      TakeUnfolds(kids, seed, need);
      NextLevelFits(users, kids, seed);
      ReportersInNext(users, kids, seed);
      InSeedAndBelow(seed, next, rest);
    }
  }

  /** An id of the seed that the stream meets again in the next level occurs twice. */
  lemma InSeedAndBelow(seed: seq<int>, next: seq<int>, rest: seq<int>)
    requires |next| <= |rest| && rest[..|next|] == next
    ensures forall k | k in seed && k in next :: multiset(seed + rest)[k] >= 2
  {
    forall k | k in seed && k in next ensures multiset(seed + rest)[k] >= 2 {
      assert k in rest[..|next|];
      assert multiset(seed + rest)[k] == multiset(seed)[k] + multiset(rest)[k];
    }
  }

  /** Below a level holding every user comes every user whose boss is a user. */
  lemma ReportersInNext(users: map<int, UserRecord>, kids: map<int, seq<int>>, seed: seq<int>)
    requires IsChildIndex(users, kids) && forall k :: k in seed <==> k in users
    ensures forall k | Reports(users, k) :: k in Expand(kids, seed)
  {
    ExpandMembers(users, kids, seed);
    forall k | Reports(users, k) ensures k in Expand(kids, seed) {
      var b := users[k].boss.value;
      assert b in users;
      assert b in seed;
    }
  }

  /** The level below a level without repeats is no longer than it, when the level holds every
      user: each user in it is one user's subordinate. */
  lemma NextLevelFits(users: map<int, UserRecord>, kids: map<int, seq<int>>, seed: seq<int>)
    requires IsChildIndex(users, kids) && forall p | p in kids :: Distinct(kids[p])
    requires Distinct(seed) && forall k :: k in seed <==> k in users
    ensures |Expand(kids, seed)| <= |seed|
  {
    var next := Expand(kids, seed);
    ExpandMembers(users, kids, seed);
    ExpandDistinct(users, kids, seed);
    DistinctWithin(next, set k | k in seed);
    DistinctSet(seed);
  }

  /** A sequence has at least as many places as distinct elements. */
  lemma {:induction false} DistinctSet(r: seq<int>)
    ensures |set k | k in r| <= |r|
    decreases |r|
  {
    if r != [] {
      DistinctSet(r[1..]);
      assert (set k | k in r) == (set k | k in r[1..]) + {r[0]};
    }
  }

  /** getAllUsers repeats rows: past the seed level the stream holds only users whose boss is a
      user, found again under that boss. So a user without a boss occurs once, and once the
      window pulls twice as many rows as there are users, every other user occurs twice. */
  lemma AllUsersRepeats(users: map<int, UserRecord>, w: Window)
    requires WindowError(w).None?
    ensures forall i | |users| <= i < |AllUsersIds(users, w)| :: Reports(users, AllUsersIds(users, w)[i])
    ensures |users| <= Need(w) ==>
      forall k | k in users && !Reports(users, k) :: multiset(AllUsersIds(users, w))[k] == 1
    ensures 2 * |users| <= Need(w) ==>
      forall k | k in users && Reports(users, k) :: multiset(AllUsersIds(users, w))[k] >= 2
  {
    var kids := ChildIndex(users);
    ChildIndexIsChildIndex(users);
    IdsDistinct(users);
    assert AllUsersIds(users, w) == Take(kids, Ids(users), Need(w));
    PastSeedReports(users, kids, Ids(users), Need(w));
    if |users| <= Need(w) {
      SeedOnce(users, kids, Ids(users), Need(w));
    }
    if 2 * |users| <= Need(w) {
      ChildIndexDistinct(users);
      SeedTwice(users, kids, Ids(users), Need(w));
    }
  }

  /** The rows of getAllUsers, lines 201-238: the window of the stream seeded with every user. */
  function AllUsersPage(users: map<int, UserRecord>, w: Window): (r: Result<seq<Row>, Error>)
    ensures WindowError(w).Some? ==> r == Failure(WindowError(w).value)
    ensures WindowError(w).None? ==> r.Success?
    ensures r.Success? ==> |r.value| <= w.limit
    ensures r.Success? ==> forall row | row in r.value :: row.id in users && row.role.Some?
  {
    if WindowError(w).Some? then Failure(WindowError(w).value)
    else
      var rows := RowsOf(users, AllUsersIds(users, w), true);
      Success(Slice(rows, w))
  }

  /** getAllUsers answers with the window of the rows of the ids its stream yields. */
  lemma AllUsersPageOf(users: map<int, UserRecord>, w: Window)
    requires WindowError(w).None?
    ensures AllUsersPage(users, w) == Success(Slice(RowsOf(users, AllUsersIds(users, w), true), w))
  {
  }

  // ---------------------------------------------------------------- getUser

  /** `WHERE boss = $1 OR id = $1`: nothing compares equal to NULL, so with no id nothing passes. */
  predicate Selected(users: map<int, UserRecord>, root: Option<int>, k: int)
  {
    k in users && root.Some? && (users[k].boss == root || k == root.value)
  }

  /** The rows of one level that pass the filter, in order. */
  function Matching(users: map<int, UserRecord>, root: Option<int>, level: seq<int>): (r: seq<int>)
    ensures |r| <= |level|
    ensures forall k {:trigger k in r} :: k in r <==> k in level && Selected(users, root, k)
  {
    if level == [] then []
    else
      var rest := Matching(users, root, level[1..]);
      if Selected(users, root, level[0]) then [level[0]] + rest else rest
  }

  /** The first `need` filtered ids of the stream seeded with `level`, visiting at most `fuel`
      levels; `None` when the levels were still going after that. */
  function TakeMatching(users: map<int, UserRecord>, kids: map<int, seq<int>>, root: Option<int>,
                        level: seq<int>, need: nat, fuel: nat): (r: Option<seq<int>>)
    ensures r.Some? ==> |r.value| <= need
    ensures r.Some? ==> forall k | k in r.value :: Selected(users, root, k)
    decreases fuel
  {
    if need == 0 || level == [] then Some([])
    else if fuel == 0 then None
    else
      var here := Matching(users, root, level);
      if need <= |here| then
        assert forall k | k in here[..need] :: k in here;
        Some(here[..need])
      else
        match TakeMatching(users, kids, root, Expand(kids, level), need - |here|, fuel - 1)
        case None => None
        case Some(rest) =>
          assert forall k | k in here + rest :: k in here || k in rest;
          Some(here + rest)
  }

  /** `WHERE id = $1` in the first level of getUser's recursion. */
  function UserAnchor(users: map<int, UserRecord>, userId: Option<int>): (r: seq<int>)
    ensures forall k | k in r :: k in users
    ensures userId.Some? && userId.value in users ==> r == [userId.value]
    ensures !(userId.Some? && userId.value in users) ==> r == []
  {
    if userId.Some? && userId.value in users then [userId.value] else []
  }

  /** The number of levels the model follows for getUser; `UserStreamAnswers` proves it enough. */
  function UserQueryFuel(users: map<int, UserRecord>, need: nat): nat {
    (need + 1) * (|users| + 1)
  }

  lemma FuelCovers(users: map<int, UserRecord>, need: nat)
    requires need > 0
    ensures UserQueryFuel(users, need) > |users|
  {
    var n := |users|;
    assert UserQueryFuel(users, need) == need * (n + 1) + (n + 1);
  }

  /** The rows of getUser, lines 140-171: the window of the filtered stream seeded with the
      user itself. The role column is not selected. */
  function UserPage(users: map<int, UserRecord>, userId: Option<int>, w: Window): (r: Result<seq<Row>, Error>)
    ensures WindowError(w).Some? ==> r == Failure(WindowError(w).value)
    ensures WindowError(w).None? ==> r.Success?
    ensures r.Success? ==> |r.value| <= w.limit
    ensures r.Success? ==> forall row | row in r.value ::
      && userId.Some? && row.id in users && row.role.None?
      && (row.id == userId.value || row.boss == userId)
  {
    if WindowError(w).Some? then Failure(WindowError(w).value)
    else
      var need := Need(w);
      UserStreamAnswers(users, userId, need);
      match TakeMatching(users, ChildIndex(users), userId, UserAnchor(users, userId), need, UserQueryFuel(users, need))
      case None => Failure(Unterminated)
      case Some(ids) =>
        var rows := RowsOf(users, ids, false);
        Success(Slice(rows, w))
  }

  // ---------------------------------------------------------------- acyclic stores

  /** `rank` witnesses that the boss relation has no cycle: a boss always ranks strictly below
      its subordinate, and every rank is below the number of users. */
  ghost predicate Ranked(users: map<int, UserRecord>, rank: map<int, nat>)
  {
    && users.Keys <= rank.Keys
    && (forall k | k in users :: rank[k] < |users|)
    && (forall k {:trigger users[k]} | k in users && users[k].boss.Some? && users[k].boss.value in users ::
          rank[users[k].boss.value] < rank[k])
  }

  /** Every row of `level` ranks above `k`, and so does its boss: it is neither the root, of
      rank below `k`, nor a direct subordinate of it. */
  ghost predicate DeeperThan(users: map<int, UserRecord>, rank: map<int, nat>, level: seq<int>, k: nat)
    requires Ranked(users, rank)
  {
    forall f | f in level ::
      && f in users && rank[f] > k
      && users[f].boss.Some? && users[f].boss.value in users && rank[users[f].boss.value] >= k
  }

  /** A level that passes nothing on to the answer leaves the rest of it to the next level. */
  lemma TakeMatchingSkips(users: map<int, UserRecord>, kids: map<int, seq<int>>, root: Option<int>,
                          level: seq<int>, need: nat, fuel: nat)
    requires need != 0 && level != [] && fuel != 0 && Matching(users, root, level) == []
    ensures TakeMatching(users, kids, root, level, need, fuel)
         == TakeMatching(users, kids, root, Expand(kids, level), need, fuel - 1)
  {
    match TakeMatching(users, kids, root, Expand(kids, level), need, fuel - 1)
    case None =>
    case Some(rest) => assert [] + rest == rest;
  }

  /** A level with at least `need` matching rows answers on its own. */
  lemma TakeMatchingHere(users: map<int, UserRecord>, kids: map<int, seq<int>>, root: Option<int>,
                         level: seq<int>, need: nat, fuel: nat)
    requires need != 0 && level != [] && fuel != 0
    requires need <= |Matching(users, root, level)|
    ensures TakeMatching(users, kids, root, level, need, fuel) == Some(Matching(users, root, level)[..need])
  {
  }

  /** A level with fewer matching rows than needed is followed by what the next levels give. */
  lemma TakeMatchingThen(users: map<int, UserRecord>, kids: map<int, seq<int>>, root: Option<int>,
                         level: seq<int>, need: nat, fuel: nat, rest: seq<int>)
    requires need != 0 && level != [] && fuel != 0
    requires need > |Matching(users, root, level)|
    requires TakeMatching(users, kids, root, Expand(kids, level), need - |Matching(users, root, level)|, fuel - 1)
          == Some(rest)
    ensures TakeMatching(users, kids, root, level, need, fuel) == Some(Matching(users, root, level) + rest)
  {
  }

  /** No row of a level deeper than the subordinates of `root` passes getUser's filter. */
  lemma NoneSelected(users: map<int, UserRecord>, rank: map<int, nat>, root: int, level: seq<int>, k: nat)
    requires Ranked(users, rank) && root in users && rank[root] < k
    requires DeeperThan(users, rank, level, k)
    ensures Matching(users, Some(root), level) == []
  {
  }

  /** The level below a deep level is deeper still. */
  lemma DeeperStep(users: map<int, UserRecord>, kids: map<int, seq<int>>, rank: map<int, nat>, level: seq<int>, k: nat)
    requires IsChildIndex(users, kids)
    requires Ranked(users, rank) && DeeperThan(users, rank, level, k)
    ensures DeeperThan(users, rank, Expand(kids, level), k + 1)
  {
    var next := Expand(kids, level);
    ExpandMembers(users, kids, level);
    forall c | c in next
      ensures c in users && rank[c] > k + 1
      ensures users[c].boss.Some? && users[c].boss.value in users && rank[users[c].boss.value] >= k + 1
    {
      var b := users[c].boss.value;
      assert b in level;
      assert rank[b] > k;
      assert rank[b] < rank[c];
    }
  }

  /** Below the direct subordinates, getUser's stream yields nothing more, and it runs dry
      within the levels the fuel allows. */
  lemma {:induction false} NothingSelectedBelow(users: map<int, UserRecord>, kids: map<int, seq<int>>,
                                                rank: map<int, nat>, root: int,
                                                level: seq<int>, need: nat, fuel: nat, k: nat)
    requires IsChildIndex(users, kids)
    requires Ranked(users, rank) && root in users && rank[root] < k
    requires DeeperThan(users, rank, level, k)
    requires fuel + k >= |users|
    ensures TakeMatching(users, kids, Some(root), level, need, fuel) == Some([])
    decreases fuel
  {
    if need != 0 && level != [] {
      assert level[0] in level;
      NoneSelected(users, rank, root, level, k);
      TakeMatchingSkips(users, kids, Some(root), level, need, fuel);
      DeeperStep(users, kids, rank, level, k);
      NothingSelectedBelow(users, kids, rank, root, Expand(kids, level), need, fuel - 1, k + 1);
    } else {
      assert TakeMatching(users, kids, Some(root), level, need, fuel) == Some([]);
    }
  }

  lemma {:induction false} MatchingAll(users: map<int, UserRecord>, root: Option<int>, level: seq<int>)
    requires forall k | k in level :: Selected(users, root, k)
    ensures Matching(users, root, level) == level
  {
    if level != [] {
      MatchingAll(users, root, level[1..]);
    }
  }

  /** The level below the direct subordinates of `root` is deeper than them. */
  lemma GrandchildrenDeeper(users: map<int, UserRecord>, kids: map<int, seq<int>>, rank: map<int, nat>, root: int)
    requires IsChildIndex(users, kids)
    requires Ranked(users, rank) && root in users
    ensures DeeperThan(users, rank, Expand(kids, kids[root]), rank[root] + 1)
  {
    var level := kids[root];
    var deeper := Expand(kids, level);
    ExpandMembers(users, kids, level);
    forall c | c in deeper
      ensures c in users && rank[c] > rank[root] + 1
      ensures users[c].boss.Some? && users[c].boss.value in users
      ensures rank[users[c].boss.value] >= rank[root] + 1
    {
      var b := users[c].boss.value;
      assert b in level;
      assert rank[root] < rank[b] < rank[c];
    }
  }

  /** The direct subordinates' level of getUser's stream: every row of it passes the filter,
      and nothing below it does. */
  lemma {:induction false} SubordinateLevel(users: map<int, UserRecord>, kids: map<int, seq<int>>,
                                            rank: map<int, nat>, root: int, need: nat, fuel: nat)
    requires IsChildIndex(users, kids)
    requires Ranked(users, rank) && root in users && fuel >= |users|
    ensures TakeMatching(users, kids, Some(root), kids[root], need, fuel)
         == Some(kids[root][..Min(need, |kids[root]|)])
  {
    var level := kids[root];
    if need != 0 && level != [] {
      assert fuel != 0 by {
        assert root in users.Keys;
      }
      if need <= |level| {
        MatchingAll(users, Some(root), level);
        TakeMatchingHere(users, kids, Some(root), level, need, fuel);
        assert TakeMatching(users, kids, Some(root), level, need, fuel).Some?;
      } else {
        SubordinatesThenNothing(users, kids, rank, root, need, fuel);
        assert level[..Min(need, |level|)] == level;
      }
    }
  }

  /** When the window needs more than the direct subordinates, the stream stops after them. */
  lemma SubordinatesThenNothing(users: map<int, UserRecord>, kids: map<int, seq<int>>,
                                rank: map<int, nat>, root: int, need: nat, fuel: nat)
    requires IsChildIndex(users, kids)
    requires Ranked(users, rank) && root in users && fuel >= |users| && fuel != 0
    requires kids[root] != [] && need > |kids[root]|
    ensures TakeMatching(users, kids, Some(root), kids[root], need, fuel) == Some(kids[root])
  {
    var level := kids[root];
    var deeper := Expand(kids, level);
    assert TakeMatching(users, kids, Some(root), deeper, need - |level|, fuel - 1) == Some([]) by {
      GrandchildrenDeeper(users, kids, rank, root);
      NothingSelectedBelow(users, kids, rank, root, deeper, need - |level|, fuel - 1, rank[root] + 1);
    }
    MatchingAll(users, Some(root), level);
    TakeMatchingThen(users, kids, Some(root), level, need, fuel, []);
    assert level + [] == level;
  }

  /** getUser reads one level only: on a store without cycles its stream is the user followed
      by the user's direct subordinates, and nothing deeper, cut to what the window needs. */
  lemma {:induction false} StreamIsOneLevel(users: map<int, UserRecord>, kids: map<int, seq<int>>,
                                            rank: map<int, nat>, root: int, need: nat, fuel: nat)
    requires IsChildIndex(users, kids)
    requires Ranked(users, rank) && root in users && fuel > |users|
    ensures var level := [root] + kids[root];
      TakeMatching(users, kids, Some(root), [root], need, fuel) == Some(level[..Min(need, |level|)])
  {
    var level := [root] + kids[root];
    if need > 0 {
      assert Matching(users, Some(root), [root]) == [root];
      if need == 1 {
        TakeMatchingHere(users, kids, Some(root), [root], need, fuel);
      } else {
        assert Expand(kids, [root]) == kids[root];
        SubordinateLevel(users, kids, rank, root, need - 1, fuel - 1);
        TakeMatchingThen(users, kids, Some(root), [root], need, fuel, kids[root][..Min(need - 1, |kids[root]|)]);
        assert level[..Min(need, |level|)] == [root] + kids[root][..Min(need - 1, |kids[root]|)];
      }
    }
  }

  /** The ids getUser reads on a store without cycles: the user, then its direct subordinates. */
  lemma UserIdsAreOneLevel(users: map<int, UserRecord>, rank: map<int, nat>, userId: int, need: nat)
    requires Ranked(users, rank) && userId in users
    ensures var level := [userId] + Children(users, userId);
      TakeMatching(users, ChildIndex(users), Some(userId), UserAnchor(users, Some(userId)), need, UserQueryFuel(users, need))
        == Some(level[..Min(need, |level|)])
  {
    var kids := ChildIndex(users);
    ChildIndexIsChildIndex(users);
    if need > 0 {
      FuelCovers(users, need);
    }
    StreamIsOneLevel(users, kids, rank, userId, need, UserQueryFuel(users, need));
  }

  /** getUser answers with the window of the rows of the ids its stream yields. */
  lemma UserPageOf(users: map<int, UserRecord>, userId: Option<int>, w: Window, ids: seq<int>)
    requires WindowError(w).None?
    requires TakeMatching(users, ChildIndex(users), userId, UserAnchor(users, userId), Need(w), UserQueryFuel(users, Need(w)))
          == Some(ids)
    ensures forall k | k in ids :: k in users
    ensures UserPage(users, userId, w) == Success(Slice(RowsOf(users, ids, false), w))
  {
  }

  /** getUser on a store without cycles: the user's own row and its direct subordinates' rows,
      windowed; nothing at all for an id no user has. */
  lemma UserPageIsOneLevel(users: map<int, UserRecord>, rank: map<int, nat>, userId: int, w: Window)
    requires Ranked(users, rank) && WindowError(w).None?
    ensures userId in users ==>
      UserPage(users, Some(userId), w) == Success(Slice(RowsOf(users, [userId] + Children(users, userId), false), w))
    ensures userId !in users ==> UserPage(users, Some(userId), w) == Success([])
  {
    var need := Need(w);
    if userId in users {
      var level := [userId] + Children(users, userId);
      var n := Min(need, |level|);
      var rows := RowsOf(users, level, false);
      UserIdsAreOneLevel(users, rank, userId, need);
      UserPageOf(users, Some(userId), w, level[..n]);
      assert Slice(RowsOf(users, level[..n], false), w) == Slice(rows, w) by {
        RowsOfPrefix(users, level, n, false);
        if n == need {
          SliceNeedsOnlyPrefix(rows, w, n);
        } else {
          assert level[..n] == level;
        }
      }
    }
  }

  // ---------------------------------------------------------------- getUser on any store

  /** The user `s` boss edges above `y`, following only rows of the store. */
  function Above(users: map<int, UserRecord>, y: int, s: nat): (r: Option<int>)
    ensures r.Some? ==> y in users && r.value in users
    decreases s
  {
    if y !in users then None
    else if s == 0 then Some(y)
    else
      match users[y].boss
      case None => None
      case Some(b) => Above(users, b, s - 1)
  }

  /** Climbing `a + b` edges is climbing `a` edges, then `b` more. */
  lemma {:induction false} AboveAbove(users: map<int, UserRecord>, y: int, a: nat, b: nat)
    ensures Above(users, y, a + b) ==
      (if Above(users, y, a).Some? then Above(users, Above(users, y, a).value, b) else None)
    decreases a
  {
    if y in users && a > 0 && users[y].boss.Some? {
      AboveAbove(users, users[y].boss.value, a - 1, b);
    }
  }

  /** The `t`-th level of the recursion seeded with `seed`. */
  function Level(kids: map<int, seq<int>>, seed: seq<int>, t: nat): seq<int>
    decreases t
  {
    if t == 0 then seed else Expand(kids, Level(kids, seed, t - 1))
  }

  /** The `t`-th level under `root` holds exactly the users `t` edges below it. */
  lemma {:induction false} LevelMembers(users: map<int, UserRecord>, kids: map<int, seq<int>>, root: int, t: nat)
    requires IsChildIndex(users, kids) && root in users
    ensures forall y {:trigger y in Level(kids, [root], t)} ::
      y in Level(kids, [root], t) <==> Above(users, y, t) == Some(root)
    decreases t
  {
    if t > 0 {
      LevelMembers(users, kids, root, t - 1);
      ExpandMembers(users, kids, Level(kids, [root], t - 1));
    }
  }

  /** A user that is its own boss `p` edges up is so again every `p` edges: it lies `s` edges
      below itself for some `s` in every window of `p` consecutive depths. */
  lemma {:induction false} CycleReturns(users: map<int, UserRecord>, root: int, p: nat, t: nat)
    requires p > 0 && Above(users, root, p) == Some(root)
    ensures exists s :: t < s <= t + p && Above(users, root, s) == Some(root)
    decreases t
  {
    if t < p {
      assert Above(users, root, p) == Some(root);
    } else {
      CycleReturns(users, root, p, t - p);
      var s :| t - p < s <= t && Above(users, root, s) == Some(root);
      AboveAbove(users, root, s, p);
      assert Above(users, root, s + p) == Some(root);
    }
  }

  /** Among the first `n + 1` users met climbing from `x`, all of them users, two coincide. */
  lemma ClimbRepeats(users: map<int, UserRecord>, x: int, n: nat)
    requires n == |users| && Above(users, x, n).Some?
    ensures exists i, j :: 0 <= i < j <= n && Above(users, x, i).Some? && Above(users, x, i) == Above(users, x, j)
  {
    var chain := seq(n + 1, k => if 0 <= k then Above(users, x, k).GetOr(x) else x);
    forall k | 0 <= k <= n ensures Above(users, x, k).Some? && chain[k] == Above(users, x, k).value {
      AboveAbove(users, x, k, n - k);
    }
    assert !Distinct(chain) by {
      if Distinct(chain) {
        assert |users.Keys| == n;
        DistinctWithin(chain, users.Keys);
      }
    }
    var i, j :| 0 <= i < j < |chain| && chain[i] == chain[j];
    assert Above(users, x, i) == Above(users, x, j);
  }

  /** A user `p` edges above itself, met climbing to `root`, puts `root` on the same cycle. */
  lemma CycleThrough(users: map<int, UserRecord>, x: int, i: nat, p: nat, m: nat, root: int)
    requires i <= m && Above(users, x, i).Some? && Above(users, x, i) == Above(users, x, i + p)
    requires Above(users, x, m) == Some(root)
    ensures Above(users, root, p) == Some(root)
  {
    var z := Above(users, x, i).value;
    AboveAbove(users, x, i, p);
    assert Above(users, z, p) == Some(z);
    AboveAbove(users, x, i, m - i);
    assert Above(users, z, m - i) == Some(root);
    AboveAbove(users, z, m - i, p);
    AboveAbove(users, z, p, m - i);
    assert (m - i) + p == p + (m - i);
  }

  /** A level still non-empty `|users|` levels on lies on a cycle of boss edges, since each user
      has one boss; climbing from it reaches the seed, so the seed lies on that cycle and is
      found again within those levels. */
  lemma SeedRecurs(users: map<int, UserRecord>, kids: map<int, seq<int>>, root: int, t: nat) returns (s: nat)
    requires IsChildIndex(users, kids) && root in users
    requires Level(kids, [root], t + |users|) != []
    ensures t < s <= t + |users| && root in Level(kids, [root], s)
  {
    var n := |users|;
    var x := Level(kids, [root], t + n)[0];
    assert x in Level(kids, [root], t + n);
    LevelMembers(users, kids, root, t + n);
    AboveAbove(users, x, n, t);
    ClimbRepeats(users, x, n);
    var i, j :| 0 <= i < j <= n && Above(users, x, i).Some? && Above(users, x, i) == Above(users, x, j);
    CycleThrough(users, x, i, j - i, t + n, root);
    CycleReturns(users, root, j - i, t);
    s :| t < s <= t + (j - i) && Above(users, root, s) == Some(root);
    LevelMembers(users, kids, root, s);
    assert root in Level(kids, [root], s);
  }

  /** Within `|users|` levels of any level, the stream has ended or the seed is met again. */
  lemma SeedOrEnd(users: map<int, UserRecord>, kids: map<int, seq<int>>, root: int, t: nat) returns (d: nat)
    requires IsChildIndex(users, kids) && root in users
    ensures d <= |users| && (Level(kids, [root], t + d) == [] || root in Level(kids, [root], t + d))
  {
    if Level(kids, [root], t + |users|) == [] {
      d := |users|;
    } else {
      var s := SeedRecurs(users, kids, root, t);
      d := s - t;
      assert t + d == s;
    }
  }

  /** `need` rounds of `n + 1` levels. */
  function Budget(n: nat, need: nat): nat {
    if need == 0 then 0 else Budget(n, need - 1) + n + 1
  }

  /** The levels getUser's model follows: one more round than `need` asks for. */
  lemma FuelIsBudget(users: map<int, UserRecord>, need: nat)
    ensures UserQueryFuel(users, need) == Budget(|users|, need) + |users| + 1
  {
    BudgetIs(|users|, need + 1);
  }

  lemma {:induction false} BudgetIs(n: nat, need: nat)
    ensures Budget(n, need) == need * (n + 1)
  {
    if need > 0 {
      BudgetIs(n, need - 1);
    }
  }

  lemma BudgetGrows(n: nat, a: nat, b: nat)
    requires a <= b
    ensures Budget(n, a) <= Budget(n, b)
  {
  }

  /** A level whose filtered rows fall short of `need`: the next level finds the seed again
      within `|users|` levels or the stream ends, and the rounds still owed fit the fuel left. */
  lemma NextRound(users: map<int, UserRecord>, kids: map<int, seq<int>>, root: int,
                  t: nat, d: nat, need: nat, fuel: nat) returns (next: nat)
    requires IsChildIndex(users, kids) && root in users
    requires d <= |users| && (Level(kids, [root], t + d) == [] || root in Level(kids, [root], t + d))
    requires fuel >= Budget(|users|, need) + d + 1
    requires Level(kids, [root], t) != [] && need > |Matching(users, Some(root), Level(kids, [root], t))|
    ensures next <= |users|
    ensures Level(kids, [root], t + 1 + next) == [] || root in Level(kids, [root], t + 1 + next)
    ensures fuel - 1 >= Budget(|users|, need - |Matching(users, Some(root), Level(kids, [root], t))|) + next + 1
  {
    var here := Matching(users, Some(root), Level(kids, [root], t));
    if d > 0 && here == [] {
      next := d - 1;
      assert t + 1 + next == t + d;
    } else {
      assert |here| >= 1 by {
        if d == 0 {
          assert root in here;
        }
      }
      next := SeedOrEnd(users, kids, root, t + 1);
      Rounds(|users|, need, |here|, d, next, fuel);
    }
  }

  /** A round that yields at least one row leaves at most one round less to pay for. */
  lemma Rounds(n: nat, need: nat, found: nat, d: nat, next: nat, fuel: nat)
    requires 1 <= found < need && next <= n
    requires fuel >= Budget(n, need) + d + 1
    ensures fuel - 1 >= Budget(n, need - found) + next + 1
  {
    BudgetGrows(n, need - found, need - 1);
  }

  /** The stream answers at once when nothing more is owed, the level is empty or the level
      alone covers what is owed. */
  lemma StopsHere(users: map<int, UserRecord>, kids: map<int, seq<int>>, root: Option<int>,
                  level: seq<int>, need: nat, fuel: nat)
    requires fuel != 0
    requires need == 0 || level == [] || need <= |Matching(users, root, level)|
    ensures TakeMatching(users, kids, root, level, need, fuel).Some?
  {
    if need != 0 && level != [] {
      TakeMatchingHere(users, kids, root, level, need, fuel);
    }
  }

  /** The stream answers from level `t` when it answers from level `t + 1` for what is still
      owed. */
  lemma StepBack(users: map<int, UserRecord>, kids: map<int, seq<int>>, root: int, t: nat, need: nat, fuel: nat)
    requires need != 0 && fuel != 0 && Level(kids, [root], t) != []
    requires need > |Matching(users, Some(root), Level(kids, [root], t))|
    requires TakeMatching(users, kids, Some(root), Level(kids, [root], t + 1),
                          need - |Matching(users, Some(root), Level(kids, [root], t))|, fuel - 1).Some?
    ensures TakeMatching(users, kids, Some(root), Level(kids, [root], t), need, fuel).Some?
  {
    var level := Level(kids, [root], t);
    var here := Matching(users, Some(root), level);
    assert Level(kids, [root], t + 1) == Expand(kids, level);
    var rest := TakeMatching(users, kids, Some(root), Expand(kids, level), need - |here|, fuel - 1).value;
    TakeMatchingThen(users, kids, Some(root), level, need, fuel, rest);
  }

  /** From level `t`, with the seed found again or the stream ended by level `t + d`, the
      stream yields `need` filtered rows or ends within `Budget(|users|, need) + d + 1` levels:
      every appearance of the seed passes the filter. */
  lemma {:induction false} StreamFinishes(users: map<int, UserRecord>, kids: map<int, seq<int>>, root: int,
                                          t: nat, d: nat, need: nat, fuel: nat)
    requires IsChildIndex(users, kids) && root in users
    requires d <= |users| && (Level(kids, [root], t + d) == [] || root in Level(kids, [root], t + d))
    requires fuel >= Budget(|users|, need) + d + 1
    ensures TakeMatching(users, kids, Some(root), Level(kids, [root], t), need, fuel).Some?
    decreases fuel
  {
    var level := Level(kids, [root], t);
    if need != 0 && level != [] && need > |Matching(users, Some(root), level)| {
      var next := NextRound(users, kids, root, t, d, need, fuel);
      StreamFinishes(users, kids, root, t + 1, next, need - |Matching(users, Some(root), level)|, fuel - 1);
      StepBack(users, kids, root, t, need, fuel);
    } else {
      StopsHere(users, kids, Some(root), level, need, fuel);
    }
  }

  /** getUser's stream yields its `need` rows, or ends, within the levels the model follows,
      on every store, with or without cycles of boss edges. */
  lemma UserStreamAnswers(users: map<int, UserRecord>, userId: Option<int>, need: nat)
    ensures TakeMatching(users, ChildIndex(users), userId, UserAnchor(users, userId), need,
                         UserQueryFuel(users, need)).Some?
  {
    if userId.Some? && userId.value in users {
      var root := userId.value;
      var kids := ChildIndex(users);
      ChildIndexIsChildIndex(users);
      assert root in Level(kids, [root], 0);
      FuelIsBudget(users, need);
      StreamFinishes(users, kids, root, 0, 0, need, UserQueryFuel(users, need));
    }
  }
}
