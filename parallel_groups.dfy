/**
 * Parallel groups: the subtasks are levelled into groups, each group holding
 * every remaining subtask whose dependencies are all completed; when none is
 * ready, the first remaining subtask forms a group on its own.
 */
module ParallelGroups {
  import opened Subtasks

  /** The ids of a list of subtasks, in order. */
  function Ids(rem: seq<Subtask>): (r: seq<string>)
    ensures |r| == |rem| && forall i :: 0 <= i < |rem| ==> r[i] == rem[i].id
  {
    seq(|rem|, i requires 0 <= i < |rem| => rem[i].id)
  }

  predicate DistinctIds(rem: seq<Subtask>) {
    forall i, j :: 0 <= i < j < |rem| ==> rem[i].id != rem[j].id
  }

  predicate Distinct(s: seq<string>) {
    forall i, j :: 0 <= i < j < |s| ==> s[i] != s[j]
  }

  function Elems(s: seq<string>): set<string> {
    set x | x in s
  }

  // ---- The `remaining` dictionary -------------------------------------------

  /** The position of the first entry with the given id, or |rem| if none. */
  function IdIndex(rem: seq<Subtask>, id: string): (i: nat)
    ensures i <= |rem|
    ensures i < |rem| ==> rem[i].id == id
    ensures forall j :: 0 <= j < i ==> rem[j].id != id
    decreases |rem|
  {
    if rem == [] then 0
    else if rem[0].id == id then 0
    else 1 + IdIndex(rem[1..], id)
  }

  /** `d[t.id] = t`: a known key keeps its place and takes the new value, a new
      key goes last. */
  function Upsert(rem: seq<Subtask>, t: Subtask): seq<Subtask> {
    var i := IdIndex(rem, t.id);
    if i < |rem| then rem[i := t] else rem + [t]
  }

  /** `{t["id"]: t for t in subtasks}`. */
  function Entries(subtasks: seq<Subtask>): (r: seq<Subtask>)
    ensures |r| <= |subtasks|
    decreases |subtasks|
  {
    if subtasks == [] then []
    else Upsert(Entries(subtasks[..|subtasks| - 1]), subtasks[|subtasks| - 1])
  }

  /** The dictionary has one entry per distinct id, each id of the list. */
  lemma {:induction false} EntriesSpec(subtasks: seq<Subtask>)
    ensures DistinctIds(Entries(subtasks))
    ensures forall x :: x in Ids(Entries(subtasks)) <==> x in Ids(subtasks)
    decreases |subtasks|
  {
    if subtasks != [] {
      var init := subtasks[..|subtasks| - 1];
      var t := subtasks[|subtasks| - 1];
      EntriesSpec(init);
      UpsertSpec(Entries(init), t);
      assert Ids(subtasks) == Ids(init) + [t.id];
    }
  }

  lemma UpsertSpec(rem: seq<Subtask>, t: Subtask)
    requires DistinctIds(rem)
    ensures DistinctIds(Upsert(rem, t))
    ensures forall x :: x in Ids(Upsert(rem, t)) <==> x in Ids(rem) || x == t.id
  {
    var i := IdIndex(rem, t.id);
    var r := Upsert(rem, t);
    if i < |rem| {
      assert forall j :: 0 <= j < |r| ==> r[j].id == rem[j].id;
      assert Ids(r) == Ids(rem);
    } else {
      assert forall j :: 0 <= j < |rem| ==> r[j] == rem[j] && rem[j].id != t.id;
      assert Ids(r) == Ids(rem) + [t.id];
    }
  }

  /** With distinct ids, the dictionary keeps the list as it is. */
  lemma {:induction false} EntriesOfDistinct(subtasks: seq<Subtask>)
    requires DistinctIds(subtasks)
    ensures Entries(subtasks) == subtasks
    decreases |subtasks|
  {
    if subtasks != [] {
      var init := subtasks[..|subtasks| - 1];
      var t := subtasks[|subtasks| - 1];
      assert DistinctIds(init);
      EntriesOfDistinct(init);
      assert IdIndex(init, t.id) == |init|;
      assert init + [t] == subtasks;
    }
  }

  /** With repeated ids the last subtask given for an id is the one kept:
      a subtask no later subtask shares its id with is in the dictionary. */
  lemma {:induction false} EntriesKeepLast(subtasks: seq<Subtask>, j: nat)
    requires j < |subtasks|
    requires forall k :: j < k < |subtasks| ==> subtasks[k].id != subtasks[j].id
    ensures subtasks[j] in Entries(subtasks)
    decreases |subtasks|
  {
    var init := subtasks[..|subtasks| - 1];
    var t := subtasks[|subtasks| - 1];
    var rem := Entries(init);
    var i := IdIndex(rem, t.id);
    if j == |subtasks| - 1 {
      if i < |rem| {
        assert rem[i := t][i] == t;
      } else {
        assert (rem + [t])[|rem|] == t;
      }
    } else {
      assert init[j] == subtasks[j];
      EntriesKeepLast(init, j);
      var p :| 0 <= p < |rem| && rem[p] == subtasks[j];
      if i < |rem| {
        assert p != i;
        assert rem[i := t][p] == subtasks[j];
      } else {
        assert (rem + [t])[p] == subtasks[j];
      }
    }
  }

  /** A key keeps the place of its first insertion: the dictionary lists ids
      in the order of their first occurrence in the list. */
  lemma {:induction false} EntriesFirstOrder(subtasks: seq<Subtask>, p: nat, q: nat)
    requires p < q < |Entries(subtasks)|
    ensures IdIndex(subtasks, Entries(subtasks)[p].id) < IdIndex(subtasks, Entries(subtasks)[q].id) < |subtasks|
    decreases |subtasks|
  {
    var init := subtasks[..|subtasks| - 1];
    var t := subtasks[|subtasks| - 1];
    assert subtasks == init + [t];
    var rem := Entries(init);
    var r := Entries(subtasks);
    assert r == Upsert(rem, t);
    EntriesSpec(init);
    var x, y := r[p].id, r[q].id;
    if IdIndex(rem, t.id) < |rem| {
      assert x == rem[p].id && y == rem[q].id;
      EntriesFirstOrder(init, p, q);
      EntryIdKnown(init, p);
      EntryIdKnown(init, q);
      IdIndexSnoc(init, t, x);
      IdIndexSnoc(init, t, y);
    } else {
      assert x == rem[p].id;
      EntryIdKnown(init, p);
      IdIndexSnoc(init, t, x);
      if q < |rem| {
        assert y == rem[q].id;
        EntriesFirstOrder(init, p, q);
        EntryIdKnown(init, q);
        IdIndexSnoc(init, t, y);
      } else {
        assert y == t.id && t.id !in Ids(init);
        IdIndexSnoc(init, t, y);
      }
    }
  }

  lemma EntryIdKnown(subtasks: seq<Subtask>, p: nat)
    requires p < |Entries(subtasks)|
    ensures Entries(subtasks)[p].id in Ids(subtasks)
  {
    EntriesSpec(subtasks);
    assert Ids(Entries(subtasks))[p] == Entries(subtasks)[p].id;
  }

  /** Appending a subtask moves no first occurrence, and a new id occurs
      first at the end. */
  lemma IdIndexSnoc(init: seq<Subtask>, t: Subtask, x: string)
    requires x in Ids(init) || x == t.id
    ensures x in Ids(init) ==> IdIndex(init + [t], x) == IdIndex(init, x) < |init|
    ensures x !in Ids(init) ==> IdIndex(init + [t], x) == |init|
  {
    var s := init + [t];
    var a := IdIndex(init, x);
    var b := IdIndex(s, x);
    assert forall k :: 0 <= k < |init| ==> s[k] == init[k];
    if x in Ids(init) {
      var k :| 0 <= k < |init| && Ids(init)[k] == x;
      assert a <= k;
    } else {
      assert forall k :: 0 <= k < |init| ==> init[k].id != x by {
        forall k | 0 <= k < |init| ensures init[k].id != x {
          assert Ids(init)[k] == init[k].id;
        }
      }
      assert s[|init|].id == x;
    }
  }

  /** `del remaining[id]` for every id of `gone`, order kept. */
  function Without(rem: seq<Subtask>, gone: set<string>): (r: seq<Subtask>)
    ensures |r| <= |rem|
    decreases |rem|
  {
    if rem == [] then []
    else (if rem[0].id in gone then [] else [rem[0]]) + Without(rem[1..], gone)
  }

  lemma {:induction false} WithoutMembers(rem: seq<Subtask>, gone: set<string>, t: Subtask)
    ensures t in Without(rem, gone) <==> t in rem && t.id !in gone
    decreases |rem|
  {
    if rem != [] {
      WithoutMembers(rem[1..], gone, t);
      assert rem == [rem[0]] + rem[1..];
    }
  }

  lemma WithoutIds(rem: seq<Subtask>, gone: set<string>, x: string)
    ensures x in Ids(Without(rem, gone)) <==> x in Ids(rem) && x !in gone
  {
    var w := Without(rem, gone);
    if x in Ids(w) {
      var i :| 0 <= i < |w| && Ids(w)[i] == x;
      WithoutMembers(rem, gone, w[i]);
      var j :| 0 <= j < |rem| && rem[j] == w[i];
      assert Ids(rem)[j] == x;
    }
    if x in Ids(rem) && x !in gone {
      var j :| 0 <= j < |rem| && Ids(rem)[j] == x;
      WithoutMembers(rem, gone, rem[j]);
      var i :| 0 <= i < |w| && w[i] == rem[j];
      assert Ids(w)[i] == x;
    }
  }

  /** Removing an id that is present shortens the list. */
  lemma {:induction false} WithoutShrinks(rem: seq<Subtask>, gone: set<string>, i: nat)
    requires i < |rem| && rem[i].id in gone
    ensures |Without(rem, gone)| < |rem|
    decreases |rem|
  {
    if i > 0 {
      WithoutShrinks(rem[1..], gone, i - 1);
    }
  }

  lemma {:induction false} WithoutDistinct(rem: seq<Subtask>, gone: set<string>)
    requires DistinctIds(rem)
    ensures DistinctIds(Without(rem, gone))
    decreases |rem|
  {
    if rem != [] {
      WithoutDistinct(rem[1..], gone);
      var r := Without(rem, gone);
      if rem[0].id !in gone {
        forall j | 0 < j < |r| ensures r[j].id != rem[0].id {
          assert r[j] in Without(rem[1..], gone);
          WithoutMembers(rem[1..], gone, r[j]);
          var k :| 0 <= k < |rem[1..]| && rem[1..][k] == r[j];
          assert rem[k + 1] == r[j];
        }
      }
    }
  }

  lemma {:induction false} WithoutWithout(rem: seq<Subtask>, a: set<string>, b: set<string>)
    ensures Without(Without(rem, a), b) == Without(rem, a + b)
    decreases |rem|
  {
    if rem != [] {
      WithoutWithout(rem[1..], a, b);
      var head := if rem[0].id in a then [] else [rem[0]];
      assert Without(rem, a) == head + Without(rem[1..], a);
      WithoutAppend(head, Without(rem[1..], a), b);
    }
  }

  lemma WithoutAppend(x: seq<Subtask>, y: seq<Subtask>, gone: set<string>)
    requires |x| <= 1
    ensures Without(x + y, gone) == Without(x, gone) + Without(y, gone)
  {
    if x != [] {
      var h := if x[0].id in gone then [] else [x[0]];
      assert (x + y)[0] == x[0] && (x + y)[1..] == y && x[1..] == [];
      assert Without(x + y, gone) == h + Without(y, gone);
      assert Without(x, gone) == h + Without([], gone);
    } else {
      assert x + y == y;
    }
  }

  /** The first entry left is the first of the list whose id is not removed. */
  lemma {:induction false} WithoutFirst(rem: seq<Subtask>, gone: set<string>)
    requires Without(rem, gone) != []
    ensures exists i :: (0 <= i < |rem| && rem[i] == Without(rem, gone)[0] && rem[i].id !in gone &&
                         forall j :: 0 <= j < i ==> rem[j].id in gone)
    decreases |rem|
  {
    if rem[0].id in gone {
      WithoutFirst(rem[1..], gone);
      var i :| 0 <= i < |rem[1..]| && rem[1..][i] == Without(rem[1..], gone)[0] && rem[1..][i].id !in gone
        && forall j :: 0 <= j < i ==> rem[1..][j].id in gone;
      assert rem[i + 1] == Without(rem, gone)[0];
      assert forall j :: 1 <= j < i + 1 ==> rem[j] == rem[1..][j - 1];
    }
  }

  // ---- One round ------------------------------------------------------------

  /** `all(dep in completed for dep in task["dependencies"])`. */
  predicate Ready(t: Subtask, done: set<string>) {
    forall d :: d in t.dependencies ==> d in done
  }

  /** The ids of the ready entries, in dictionary order. */
  function ReadyIds(rem: seq<Subtask>, done: set<string>): seq<string>
    decreases |rem|
  {
    if rem == [] then []
    else
      var t := rem[|rem| - 1];
      ReadyIds(rem[..|rem| - 1], done) + (if Ready(t, done) then [t.id] else [])
  }

  lemma {:induction false} ReadyIdsMembers(rem: seq<Subtask>, done: set<string>, x: string)
    ensures x in ReadyIds(rem, done) <==> exists i :: 0 <= i < |rem| && rem[i].id == x && Ready(rem[i], done)
    decreases |rem|
  {
    if rem != [] {
      var init := rem[..|rem| - 1];
      ReadyIdsMembers(init, done, x);
      assert forall i :: 0 <= i < |init| ==> init[i] == rem[i];
    }
  }

  lemma {:induction false} ReadyIdsDistinct(rem: seq<Subtask>, done: set<string>)
    requires DistinctIds(rem)
    ensures Distinct(ReadyIds(rem, done))
    decreases |rem|
  {
    if rem != [] {
      var init := rem[..|rem| - 1];
      var t := rem[|rem| - 1];
      assert DistinctIds(init);
      ReadyIdsDistinct(init, done);
      if Ready(t, done) {
        ReadyIdsMembers(init, done, t.id);
        assert t.id !in ReadyIds(init, done);
      }
    }
  }

  /** One entry of the trace: the group and whether it was forced because
      nothing was ready. */
  datatype Round = Round(group: seq<string>, forced: bool)

  /** The group formed from the remaining entries and the completed ids. */
  function RoundOf(rem: seq<Subtask>, done: set<string>): (r: Round)
    requires rem != []
  {
    var ready := ReadyIds(rem, done);
    if ready == [] then Round([rem[0].id], true) else Round(ready, false)
  }

  /** Every id of a group is the id of a remaining entry; the group is not
      empty and holds no id twice. */
  lemma RoundSpec(rem: seq<Subtask>, done: set<string>)
    requires rem != [] && DistinctIds(rem)
    ensures var g := RoundOf(rem, done).group;
      && g != [] && Distinct(g)
      && (forall x :: x in g ==> x in Ids(rem))
      && (exists i :: 0 <= i < |rem| && rem[i].id in Elems(g))
  {
    var g := RoundOf(rem, done).group;
    ReadyIdsDistinct(rem, done);
    forall x | x in g ensures x in Ids(rem) {
      ReadyIdsMembers(rem, done, x);
    }
    assert g[0] in g;
    ReadyIdsMembers(rem, done, g[0]);
  }

  /** The entries left once the round's group is deleted: fewer, and still
      with distinct ids. */
  function Rest(rem: seq<Subtask>, done: set<string>): (r: seq<Subtask>)
    requires rem != [] && DistinctIds(rem)
    ensures |r| < |rem| && DistinctIds(r)
  {
    var g := RoundOf(rem, done).group;
    RoundSpec(rem, done);
    var i :| 0 <= i < |rem| && rem[i].id in Elems(g);
    WithoutShrinks(rem, Elems(g), i);
    WithoutDistinct(rem, Elems(g));
    Without(rem, Elems(g))
  }

  /** The rounds until nothing remains. */
  function Rounds(rem: seq<Subtask>, done: set<string>): seq<Round>
    requires DistinctIds(rem)
    decreases |rem|
  {
    if rem == [] then []
    else
      var r := RoundOf(rem, done);
      [r] + Rounds(Rest(rem, done), done + Elems(r.group))
  }

  function GroupsOf(rs: seq<Round>): (gs: seq<seq<string>>)
    ensures |gs| == |rs| && forall k :: 0 <= k < |rs| ==> gs[k] == rs[k].group
  {
    seq(|rs|, k requires 0 <= k < |rs| => rs[k].group)
  }

  /** `compute_parallel_groups`. */
  function GroupsFor(subtasks: seq<Subtask>): seq<seq<string>> {
    EntriesSpec(subtasks);
    GroupsOf(Rounds(Entries(subtasks), {}))
  }

  function Flatten(gs: seq<seq<string>>): seq<string>
    decreases |gs|
  {
    if gs == [] then [] else gs[0] + Flatten(gs[1..])
  }

  // ---- Facts about the trace ------------------------------------------------

  lemma GroupsOfCons(r: Round, rs: seq<Round>)
    ensures GroupsOf([r] + rs) == [r.group] + GroupsOf(rs)
  {
  }

  lemma ElemsConcat(a: seq<string>, b: seq<string>)
    ensures Elems(a + b) == Elems(a) + Elems(b)
  {
  }

  lemma DistinctConcat(a: seq<string>, b: seq<string>)
    requires Distinct(a) && Distinct(b)
    requires forall x :: x in a ==> x !in b
    ensures Distinct(a + b)
  {
    forall i, j | 0 <= i < j < |a + b| ensures (a + b)[i] != (a + b)[j] {
      if j < |a| {
        assert (a + b)[i] == a[i] && (a + b)[j] == a[j];
      } else if i < |a| {
        assert (a + b)[i] == a[i] && (a + b)[j] == b[j - |a|];
        assert a[i] in a;
      } else {
        assert (a + b)[i] == b[i - |a|] && (a + b)[j] == b[j - |a|];
      }
    }
  }

  /** The groups hold every id of the dictionary, each exactly once. */
  lemma {:induction false} RoundsPartition(rem: seq<Subtask>, done: set<string>)
    requires DistinctIds(rem)
    ensures var f := Flatten(GroupsOf(Rounds(rem, done)));
      Distinct(f) && forall x :: x in f <==> x in Ids(rem)
    decreases |rem|
  {
    if rem != [] {
      var g := RoundOf(rem, done).group;
      RoundSpec(rem, done);
      var rest := Rest(rem, done);
      assert rest == Without(rem, Elems(g));
      var rs := Rounds(rest, done + Elems(g));
      RoundsPartition(rest, done + Elems(g));
      GroupsOfCons(RoundOf(rem, done), rs);
      var f := Flatten(GroupsOf(rs));
      assert Flatten(GroupsOf(Rounds(rem, done))) == g + f;
      forall x ensures x in g + f <==> x in Ids(rem) {
        WithoutIds(rem, Elems(g), x);
      }
      forall x | x in g ensures x !in f {
        WithoutIds(rem, Elems(g), x);
      }
      DistinctConcat(g, f);
    }
  }

  /** Fewer rounds than entries (each round retires at least one), and at
      least one when there is anything to group. */
  lemma {:induction false} RoundsCount(rem: seq<Subtask>, done: set<string>)
    requires DistinctIds(rem)
    ensures |Rounds(rem, done)| <= |rem|
    ensures rem != [] ==> |Rounds(rem, done)| >= 1
    decreases |rem|
  {
    if rem != [] {
      RoundsCount(Rest(rem, done), done + Elems(RoundOf(rem, done).group));
    }
  }

  /** The ids placed in the first k groups. */
  function Placed(rs: seq<Round>, k: nat): set<string>
    requires k <= |rs|
  {
    Elems(Flatten(GroupsOf(rs[..k])))
  }

  lemma PlacedCons(r: Round, rs: seq<Round>, k: nat)
    requires 0 < k <= |rs| + 1
    ensures Placed([r] + rs, k) == Elems(r.group) + Placed(rs, k - 1)
  {
    assert ([r] + rs)[..k] == [r] + rs[..k - 1];
    GroupsOfCons(r, rs[..k - 1]);
    ElemsConcat(r.group, Flatten(GroupsOf(rs[..k - 1])));
  }

  /** Round k is formed from the entries not placed in the first k groups and
      the completed ids plus those placed; some entry is still left then. */
  lemma {:induction false} RoundAt(rem: seq<Subtask>, done: set<string>, k: nat)
    requires DistinctIds(rem) && k < |Rounds(rem, done)|
    ensures var placed := Placed(Rounds(rem, done), k);
      && Without(rem, placed) != []
      && DistinctIds(Without(rem, placed))
      && Rounds(rem, done)[k] == RoundOf(Without(rem, placed), done + placed)
    decreases |rem|
  {
    var rs := Rounds(rem, done);
    var g := RoundOf(rem, done).group;
    var rest := Rest(rem, done);
    assert rest == Without(rem, Elems(g));
    if k == 0 {
      assert rs[..0] == [] && Flatten(GroupsOf([])) == [];
      assert Placed(rs, 0) == {} && done + {} == done;
      WithoutNothing(rem);
    } else {
      var rs' := Rounds(rest, done + Elems(g));
      RoundAt(rest, done + Elems(g), k - 1);
      PlacedCons(RoundOf(rem, done), rs', k);
      WithoutWithout(rem, Elems(g), Placed(rs', k - 1));
      assert done + Elems(g) + Placed(rs', k - 1) == done + Placed(rs, k);
    }
  }

  lemma {:induction false} WithoutNothing(rem: seq<Subtask>)
    ensures Without(rem, {}) == rem
    decreases |rem|
  {
    if rem != [] {
      WithoutNothing(rem[1..]);
      assert rem == [rem[0]] + rem[1..];
    }
  }

  lemma SameId(rem: seq<Subtask>, a: Subtask, b: Subtask)
    requires DistinctIds(rem) && a in rem && b in rem && a.id == b.id
    ensures a == b
  {
  }

  /** Every group is non-empty. */
  lemma GroupNonEmpty(rem: seq<Subtask>, done: set<string>, k: nat)
    requires DistinctIds(rem) && k < |Rounds(rem, done)|
    ensures Rounds(rem, done)[k].group != []
  {
    var placed := Placed(Rounds(rem, done), k);
    RoundAt(rem, done, k);
    RoundSpec(Without(rem, placed), done + placed);
  }

  /** A task taken in a round that was not forced has each of its dependencies
      completed before the groups began or placed in a strictly earlier group. */
  lemma DependenciesEarlier(rem: seq<Subtask>, done: set<string>, k: nat, t: Subtask, d: string)
    requires DistinctIds(rem) && k < |Rounds(rem, done)|
    requires !Rounds(rem, done)[k].forced
    requires t in rem && t.id in Rounds(rem, done)[k].group && d in t.dependencies
    ensures d in done || d in Flatten(GroupsOf(Rounds(rem, done)[..k]))
  {
    var rs := Rounds(rem, done);
    var placed := Placed(rs, k);
    var left := Without(rem, placed);
    RoundAt(rem, done, k);
    ReadyIdsMembers(left, done + placed, t.id);
    var i :| 0 <= i < |left| && left[i].id == t.id && Ready(left[i], done + placed);
    WithoutMembers(rem, placed, left[i]);
    SameId(rem, t, left[i]);
  }

  /** A forced round holds one id only: that of the first entry, in dictionary
      order, not placed in an earlier group; and no entry left then was ready. */
  lemma ForcedRound(rem: seq<Subtask>, done: set<string>, k: nat)
    requires DistinctIds(rem) && k < |Rounds(rem, done)|
    requires Rounds(rem, done)[k].forced
    ensures var rs := Rounds(rem, done);
      var placed := Placed(rs, k);
      && |rs[k].group| == 1
      && (exists i :: (0 <= i < |rem| && rem[i].id == rs[k].group[0] && rem[i].id !in placed &&
                       forall j :: 0 <= j < i ==> rem[j].id in placed))
      && forall t :: t in rem && t.id !in placed ==> !Ready(t, done + placed)
  {
    var rs := Rounds(rem, done);
    var placed := Placed(rs, k);
    var left := Without(rem, placed);
    RoundAt(rem, done, k);
    WithoutFirst(rem, placed);
    forall t | t in rem && t.id !in placed ensures !Ready(t, done + placed) {
      WithoutMembers(rem, placed, t);
      ReadyIdsMembers(left, done + placed, t.id);
    }
  }

  // ---- The whole computation ------------------------------------------------

  /** Every subtask id appears in exactly one group, and nothing else does. */
  lemma GroupsPartition(subtasks: seq<Subtask>)
    ensures var f := Flatten(GroupsFor(subtasks));
      Distinct(f) && forall x :: x in f <==> x in Ids(subtasks)
  {
    EntriesSpec(subtasks);
    RoundsPartition(Entries(subtasks), {});
  }

  /** There are at most as many groups as subtasks, and at least one when there
      is a subtask. */
  lemma GroupCount(subtasks: seq<Subtask>)
    ensures |GroupsFor(subtasks)| <= |subtasks|
    ensures subtasks != [] ==> |GroupsFor(subtasks)| >= 1
  {
    EntriesSpec(subtasks);
    RoundsCount(Entries(subtasks), {});
    if subtasks != [] {
      assert subtasks[0].id in Ids(subtasks);
    }
  }

  /** `compute_parallel_groups` as the loop writes it. */
  method ComputeParallelGroups(subtasks: seq<Subtask>) returns (groups: seq<seq<string>>)
    ensures groups == GroupsFor(subtasks)
  {
    groups := [];
    var completed: set<string> := {};
    var remaining := Entries(subtasks);
    EntriesSpec(subtasks);
    ghost var target := GroupsOf(Rounds(remaining, completed));
    while remaining != []
      invariant DistinctIds(remaining)
      invariant groups + GroupsOf(Rounds(remaining, completed)) == target
      decreases |remaining|
    {
      var ready := ReadyOf(remaining, completed);
      if ready == [] {
        ready := [remaining[0].id];
      }
      RoundStep(remaining, completed, ready);
      ghost var before := groups;
      groups := groups + [ready];
      remaining, completed := Retire(remaining, completed, ready);
      ghost var after := GroupsOf(Rounds(remaining, completed));
      AppendAssoc(before, [ready], after);
    }
    assert GroupsOf(Rounds(remaining, completed)) == [];
  }

  lemma AppendAssoc(a: seq<seq<string>>, b: seq<seq<string>>, c: seq<seq<string>>)
    ensures a + (b + c) == (a + b) + c
  {
  }

  /** The group a round appends: what the loop still has to append after it is
      the groups of the entries it leaves. */
  lemma RoundStep(rem: seq<Subtask>, done: set<string>, ready: seq<string>)
    requires rem != [] && DistinctIds(rem)
    requires ready == RoundOf(rem, done).group
    ensures Distinct(ready) && forall x :: x in ready ==> x in Ids(rem)
    ensures DistinctIds(Without(rem, Elems(ready)))
    ensures GroupsOf(Rounds(rem, done)) == [ready] + GroupsOf(Rounds(Without(rem, Elems(ready)), done + Elems(ready)))
  {
    RoundSpec(rem, done);
    GroupsOfCons(RoundOf(rem, done), Rounds(Rest(rem, done), done + Elems(ready)));
  }

  /** The ids whose dependencies are all completed, in dictionary order. */
  method ReadyOf(remaining: seq<Subtask>, completed: set<string>) returns (ready: seq<string>)
    ensures ready == ReadyIds(remaining, completed)
  {
    ready := [];
    for j := 0 to |remaining|
      invariant ready == ReadyIds(remaining[..j], completed)
    {
      assert remaining[..j + 1][..j] == remaining[..j];
      var task := remaining[j];
      if forall dep :: dep in task.dependencies ==> dep in completed {
        ready := ready + [task.id];
      }
    }
    assert remaining[..|remaining|] == remaining;
  }

  /** `completed.add(task_id); del remaining[task_id]` for each id of the
      group; every id is still a key when it is deleted. */
  method Retire(remaining0: seq<Subtask>, completed0: set<string>, ready: seq<string>)
    returns (remaining: seq<Subtask>, completed: set<string>)
    requires Distinct(ready) && forall x :: x in ready ==> x in Ids(remaining0)
    ensures remaining == Without(remaining0, Elems(ready))
    ensures completed == completed0 + Elems(ready)
  {
    remaining, completed := remaining0, completed0;
    WithoutNothing(remaining0);
    assert Elems(ready[..0]) == {};
    for j := 0 to |ready|
      invariant remaining == Without(remaining0, Elems(ready[..j]))
      invariant completed == completed0 + Elems(ready[..j])
    {
      var taskId := ready[j];
      WithoutIds(remaining0, Elems(ready[..j]), taskId);
      assert taskId in Ids(remaining);
      completed := completed + {taskId};
      WithoutWithout(remaining0, Elems(ready[..j]), {taskId});
      remaining := Without(remaining, {taskId});
      assert ready[..j + 1] == ready[..j] + [taskId];
      ElemsConcat(ready[..j], [taskId]);
      assert Elems([taskId]) == {taskId};
    }
    assert ready[..|ready|] == ready;
  }

  // ---- Counting -------------------------------------------------------------

  lemma {:induction false} DistinctCard(s: seq<string>)
    requires Distinct(s)
    ensures |Elems(s)| == |s|
    decreases |s|
  {
    if s != [] {
      var init := s[..|s| - 1];
      assert Distinct(init);
      DistinctCard(init);
      assert s == init + [s[|s| - 1]];
      ElemsConcat(init, [s[|s| - 1]]);
      assert Elems([s[|s| - 1]]) == {s[|s| - 1]};
      assert s[|s| - 1] !in Elems(init);
    }
  }

  /** Two duplicate-free lists with the same elements have the same length. */
  lemma DistinctSameLength(a: seq<string>, b: seq<string>)
    requires Distinct(a) && Distinct(b)
    requires forall x :: x in a <==> x in b
    ensures |a| == |b|
  {
    DistinctCard(a);
    DistinctCard(b);
    assert Elems(a) == Elems(b);
  }

  /** With no empty group, there are at most as many groups as ids in them,
      and exactly as many when every group holds a single id. */
  lemma {:induction false} FlattenLength(gs: seq<seq<string>>)
    requires forall k :: 0 <= k < |gs| ==> gs[k] != []
    ensures |Flatten(gs)| >= |gs|
    ensures |Flatten(gs)| == |gs| <==> forall k :: 0 <= k < |gs| ==> |gs[k]| == 1
    decreases |gs|
  {
    if gs != [] {
      FlattenLength(gs[1..]);
      assert forall k :: 1 <= k < |gs| ==> gs[k] == gs[1..][k - 1];
    }
  }
}
