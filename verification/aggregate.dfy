/** The read path: the listing queries return one flat row per (project, technology)
    pair, with NULL technology columns for a project that has none, and the handlers fold
    those rows left to right into one entry per project. */
module Aggregate {
  import opened Wrappers

  /** One row of `projects JOIN users LEFT JOIN projects_technologies LEFT JOIN technologies`,
      carrying every column any of the listing queries selects. */
  datatype JoinRow = JoinRow(
    projectId: int,
    projectName: string,
    description: string,
    creatorId: int,
    creatorName: string,
    creatorEmail: string,
    techId: Option<int>,
    techName: Option<string>)

  /** A project being built by the fold: the row that created it and the children
      appended so far. */
  datatype Group<C> = Group(head: JoinRow, children: seq<C>)

  function Key<C>(g: Group<C>): int { g.head.projectId }

  /** What one row contributes to its project's list: nothing, or one child. */
  function Emit<C>(c: Option<C>): seq<C> {
    if c.Some? then [c.value] else []
  }

  /** `acc.find(p => p.id === row.projectId)`: the first group with that key, or `|gs|`. */
  function FindGroup<C>(gs: seq<Group<C>>, key: int): (i: nat)
    ensures i <= |gs|
    ensures i < |gs| ==> Key(gs[i]) == key
    ensures forall j :: 0 <= j < i ==> Key(gs[j]) != key
    decreases |gs|
  {
    if |gs| == 0 then 0
    else if Key(gs[0]) == key then 0
    else 1 + FindGroup(gs[1..], key)
  }

  /** One step of the fold: append the row's child to its project, or start a new
      project from this row. */
  function Absorb<C>(gs: seq<Group<C>>, row: JoinRow, child: JoinRow -> Option<C>): (r: seq<Group<C>>)
    ensures |gs| <= |r| <= |gs| + 1
    ensures forall i :: 0 <= i < |gs| ==> r[i].head == gs[i].head
    ensures forall i :: 0 <= i < |gs| && i != FindGroup(gs, row.projectId) ==> r[i] == gs[i]
    ensures FindGroup(gs, row.projectId) < |r| && Key(r[FindGroup(gs, row.projectId)]) == row.projectId
    ensures |r| == |gs| + 1 <==> FindGroup(gs, row.projectId) == |gs|
    ensures |r| == |gs| + 1 ==> r[|gs|].head == row
  {
    var i := FindGroup(gs, row.projectId);
    if i < |gs| then gs[i := Group(gs[i].head, gs[i].children + Emit(child(row)))]
    else gs + [Group(row, Emit(child(row)))]
  }

  /** The left fold over all rows. */
  function GroupRows<C>(rows: seq<JoinRow>, child: JoinRow -> Option<C>): (gs: seq<Group<C>>)
    ensures |gs| <= |rows|
    ensures |gs| == 0 <==> |rows| == 0
    decreases |rows|
  {
    if |rows| == 0 then []
    else Absorb(GroupRows(rows[..|rows| - 1], child), rows[|rows| - 1], child)
  }

  // ---------------------------------------------------------------------------
  // A reference description of the fold, independent of how it proceeds

  /** The index of the first row of project `key`, or `|rows|`. */
  function FirstIndex(rows: seq<JoinRow>, key: int): (i: nat)
    ensures i <= |rows|
    ensures i < |rows| ==> rows[i].projectId == key
    ensures forall j :: 0 <= j < i ==> rows[j].projectId != key
    decreases |rows|
  {
    if |rows| == 0 then 0
    else if rows[0].projectId == key then 0
    else 1 + FirstIndex(rows[1..], key)
  }

  /** The children that project `key`'s rows contribute, in row order. */
  function Collect<C>(rows: seq<JoinRow>, key: int, child: JoinRow -> Option<C>): seq<C>
    decreases |rows|
  {
    if |rows| == 0 then []
    else (if rows[0].projectId == key then Emit(child(rows[0])) else []) + Collect(rows[1..], key, child)
  }

  ghost predicate HasKey<C>(gs: seq<Group<C>>, key: int) {
    exists i :: 0 <= i < |gs| && Key(gs[i]) == key
  }

  /** No two groups share a project id. */
  ghost predicate DistinctKeys<C>(gs: seq<Group<C>>) {
    forall i, j :: 0 <= i < j < |gs| ==> Key(gs[i]) != Key(gs[j])
  }

  /** Every row's project has a group. */
  ghost predicate Covers<C>(gs: seq<Group<C>>, rows: seq<JoinRow>) {
    forall k :: 0 <= k < |rows| ==> HasKey(gs, rows[k].projectId)
  }

  /** Every group is headed by the first row of its project. */
  ghost predicate HeadedByFirstRow<C>(gs: seq<Group<C>>, rows: seq<JoinRow>) {
    forall i :: 0 <= i < |gs| ==>
      FirstIndex(rows, Key(gs[i])) < |rows| && gs[i].head == rows[FirstIndex(rows, Key(gs[i]))]
  }

  /** Groups appear in the order their projects first appear among the rows. */
  ghost predicate InFirstSeenOrder<C>(gs: seq<Group<C>>, rows: seq<JoinRow>) {
    forall i, j :: 0 <= i < j < |gs| ==> FirstIndex(rows, Key(gs[i])) < FirstIndex(rows, Key(gs[j]))
  }

  /** Every group holds exactly the children of its project's rows, in row order. */
  ghost predicate Collected<C>(gs: seq<Group<C>>, rows: seq<JoinRow>, child: JoinRow -> Option<C>) {
    forall i :: 0 <= i < |gs| ==> gs[i].children == Collect(rows, Key(gs[i]), child)
  }

  /** `gs` is the grouping of `rows`: one group per distinct project id, in order of first
      appearance, each headed by its project's first row and holding exactly the
      children that project's rows contribute, in row order. */
  ghost predicate GroupedBy<C>(gs: seq<Group<C>>, rows: seq<JoinRow>, child: JoinRow -> Option<C>) {
    && DistinctKeys(gs)
    && Covers(gs, rows)
    && HeadedByFirstRow(gs, rows)
    && InFirstSeenOrder(gs, rows)
    && Collected(gs, rows, child)
  }

  lemma FirstIndexSnoc(rows: seq<JoinRow>, r: JoinRow, key: int)
    ensures FirstIndex(rows, key) < |rows| ==> FirstIndex(rows + [r], key) == FirstIndex(rows, key)
    ensures FirstIndex(rows, key) == |rows| && r.projectId == key ==> FirstIndex(rows + [r], key) == |rows|
  {
    var rs := rows + [r];
    if FirstIndex(rows, key) < |rows| {
      assert rs[FirstIndex(rows, key)] == rows[FirstIndex(rows, key)];
    } else if r.projectId == key {
      assert rs[|rows|] == r;
    }
  }

  lemma {:induction false} CollectSnoc<C>(rows: seq<JoinRow>, r: JoinRow, key: int, child: JoinRow -> Option<C>)
    ensures Collect(rows + [r], key, child)
            == Collect(rows, key, child) + (if r.projectId == key then Emit(child(r)) else [])
    decreases |rows|
  {
    if |rows| == 0 {
      assert [r][1..] == [];
    } else {
      assert (rows + [r])[0] == rows[0];
      assert (rows + [r])[1..] == rows[1..] + [r];
      CollectSnoc(rows[1..], r, key, child);
    }
  }

  lemma {:induction false} CollectAbsent<C>(rows: seq<JoinRow>, key: int, child: JoinRow -> Option<C>)
    requires forall k :: 0 <= k < |rows| ==> rows[k].projectId != key
    ensures Collect(rows, key, child) == []
    decreases |rows|
  {
    if |rows| > 0 {
      assert rows[0].projectId != key;
      CollectAbsent(rows[1..], key, child);
    }
  }

  /** Appending a row whose project already has a group keeps every group covered. */
  lemma CoversSnoc<C>(gs: seq<Group<C>>, rows: seq<JoinRow>, r: JoinRow)
    requires Covers(gs, rows)
    requires HasKey(gs, r.projectId)
    ensures Covers(gs, rows + [r])
  {
    var rs := rows + [r];
    forall k | 0 <= k < |rs|
      ensures HasKey(gs, rs[k].projectId)
    {
      if k < |rows| {
        assert rs[k] == rows[k];
      }
    }
  }

  /** Appending a row keeps the first index and head of every group already anchored. */
  lemma AnchorsSnoc<C>(gs: seq<Group<C>>, rows: seq<JoinRow>, r: JoinRow)
    requires HeadedByFirstRow(gs, rows)
    ensures forall i :: 0 <= i < |gs| ==> FirstIndex(rows + [r], Key(gs[i])) == FirstIndex(rows, Key(gs[i]))
    ensures HeadedByFirstRow(gs, rows + [r])
  {
    forall i | 0 <= i < |gs|
      ensures FirstIndex(rows + [r], Key(gs[i])) == FirstIndex(rows, Key(gs[i]))
      ensures gs[i].head == (rows + [r])[FirstIndex(rows + [r], Key(gs[i]))]
    {
      FirstIndexSnoc(rows, r, Key(gs[i]));
      assert (rows + [r])[FirstIndex(rows, Key(gs[i]))] == rows[FirstIndex(rows, Key(gs[i]))];
    }
  }

  lemma OrderSnoc<C>(gs: seq<Group<C>>, rows: seq<JoinRow>, r: JoinRow)
    requires HeadedByFirstRow(gs, rows)
    requires InFirstSeenOrder(gs, rows)
    ensures InFirstSeenOrder(gs, rows + [r])
  {
    AnchorsSnoc(gs, rows, r);
  }

  /** Groups of other projects keep their children when a row is appended. */
  lemma ChildrenSnoc<C>(gs: seq<Group<C>>, rows: seq<JoinRow>, r: JoinRow, child: JoinRow -> Option<C>, skip: int)
    requires forall i :: 0 <= i < |gs| && i != skip ==> gs[i].children == Collect(rows, Key(gs[i]), child)
    requires forall i :: 0 <= i < |gs| && i != skip ==> Key(gs[i]) != r.projectId
    ensures forall i :: 0 <= i < |gs| && i != skip ==> gs[i].children == Collect(rows + [r], Key(gs[i]), child)
  {
    forall i | 0 <= i < |gs| && i != skip
      ensures gs[i].children == Collect(rows + [r], Key(gs[i]), child)
    {
      CollectSnoc(rows, r, Key(gs[i]), child);
    }
  }

  /** Two group lists with the same heads, position by position. */
  ghost predicate SameHeads<C>(gs: seq<Group<C>>, hs: seq<Group<C>>) {
    |gs| == |hs| && forall j :: 0 <= j < |gs| ==> gs[j].head == hs[j].head
  }

  /** Everything but the children depends on the heads alone. */
  lemma SameHeadsShape<C>(gs: seq<Group<C>>, hs: seq<Group<C>>, rows: seq<JoinRow>)
    requires SameHeads(gs, hs)
    ensures DistinctKeys(gs) ==> DistinctKeys(hs)
    ensures Covers(gs, rows) ==> Covers(hs, rows)
    ensures HeadedByFirstRow(gs, rows) ==> HeadedByFirstRow(hs, rows)
    ensures InFirstSeenOrder(gs, rows) ==> InFirstSeenOrder(hs, rows)
  {
    assert forall j :: 0 <= j < |gs| ==> Key(gs[j]) == Key(hs[j]);
    if Covers(gs, rows) {
      forall k | 0 <= k < |rows|
        ensures HasKey(hs, rows[k].projectId)
      {
        assert HasKey(gs, rows[k].projectId);
        var j :| 0 <= j < |gs| && Key(gs[j]) == rows[k].projectId;
        assert Key(hs[j]) == rows[k].projectId;
      }
    }
  }

  /** The fold step when the row's project already has a group. */
  lemma AbsorbExisting<C>(gs: seq<Group<C>>, rows: seq<JoinRow>, r: JoinRow, child: JoinRow -> Option<C>)
    requires GroupedBy(gs, rows, child)
    requires FindGroup(gs, r.projectId) < |gs|
    ensures GroupedBy(Absorb(gs, r, child), rows + [r], child)
  {
    var i := FindGroup(gs, r.projectId);
    var gs' := gs[i := Group(gs[i].head, gs[i].children + Emit(child(r)))];
    assert Absorb(gs, r, child) == gs';
    var rs := rows + [r];
    assert HasKey(gs, r.projectId);
    CoversSnoc(gs, rows, r);
    AnchorsSnoc(gs, rows, r);
    OrderSnoc(gs, rows, r);
    SameHeadsShape(gs, gs', rs);
    ChildrenSnoc(gs, rows, r, child, i);
    CollectSnoc(rows, r, r.projectId, child);
    assert Collected(gs', rs, child);
  }

  /** A project with no group has no rows yet. */
  lemma NewRowIsFresh<C>(gs: seq<Group<C>>, rows: seq<JoinRow>, r: JoinRow)
    requires Covers(gs, rows)
    requires FindGroup(gs, r.projectId) == |gs|
    ensures forall k :: 0 <= k < |rows| ==> rows[k].projectId != r.projectId
    ensures FirstIndex(rows, r.projectId) == |rows|
  {
    forall k | 0 <= k < |rows|
      ensures rows[k].projectId != r.projectId
    {
      assert HasKey(gs, rows[k].projectId);
    }
  }

  /** Starting a group for a fresh project keeps keys distinct and every row covered. */
  lemma NewKeysAndCover<C>(gs: seq<Group<C>>, rows: seq<JoinRow>, r: JoinRow, g: Group<C>)
    requires DistinctKeys(gs) && Covers(gs, rows)
    requires FindGroup(gs, r.projectId) == |gs|
    requires g.head == r
    ensures DistinctKeys(gs + [g]) && Covers(gs + [g], rows + [r])
  {
    var n := |gs|;
    var gs' := gs + [g];
    var rs := rows + [r];
    assert forall j :: 0 <= j < n ==> gs'[j] == gs[j];
    assert Key(gs'[n]) == r.projectId;
    forall k | 0 <= k < |rs|
      ensures HasKey(gs', rs[k].projectId)
    {
      if k < |rows| {
        assert HasKey(gs, rows[k].projectId);
        var j :| 0 <= j < n && Key(gs[j]) == rows[k].projectId;
        assert Key(gs'[j]) == rs[k].projectId;
      } else {
        assert Key(gs'[n]) == rs[k].projectId;
      }
    }
  }

  /** Starting a group for a fresh project keeps every group headed by its first row and
      the groups in first-seen order. */
  lemma NewAnchors<C>(gs: seq<Group<C>>, rows: seq<JoinRow>, r: JoinRow, g: Group<C>)
    requires HeadedByFirstRow(gs, rows) && InFirstSeenOrder(gs, rows)
    requires FirstIndex(rows, r.projectId) == |rows|
    requires g.head == r
    ensures HeadedByFirstRow(gs + [g], rows + [r]) && InFirstSeenOrder(gs + [g], rows + [r])
  {
    var n := |gs|;
    var gs' := gs + [g];
    var rs := rows + [r];
    AnchorsSnoc(gs, rows, r);
    FirstIndexSnoc(rows, r, r.projectId);
    assert rs[|rows|] == r;
    forall j | 0 <= j < |gs'|
      ensures FirstIndex(rs, Key(gs'[j])) < |rs| && gs'[j].head == rs[FirstIndex(rs, Key(gs'[j]))]
      ensures j < n ==> FirstIndex(rs, Key(gs'[j])) < |rows|
    {
      if j < n {
        assert gs'[j] == gs[j];
      }
    }
  }

  /** The fold step when the row starts a new project. */
  lemma AbsorbNew<C>(gs: seq<Group<C>>, rows: seq<JoinRow>, r: JoinRow, child: JoinRow -> Option<C>)
    requires GroupedBy(gs, rows, child)
    requires FindGroup(gs, r.projectId) == |gs|
    ensures GroupedBy(Absorb(gs, r, child), rows + [r], child)
  {
    var n := |gs|;
    var g := Group(r, Emit(child(r)));
    var gs' := gs + [g];
    var rs := rows + [r];
    NewRowIsFresh(gs, rows, r);
    NewKeysAndCover(gs, rows, r, g);
    NewAnchors(gs, rows, r, g);
    FirstIndexSnoc(rows, r, r.projectId);
    ChildrenSnoc(gs, rows, r, child, n);
    CollectSnoc(rows, r, r.projectId, child);
    CollectAbsent(rows, r.projectId, child);
    assert Collected(gs', rs, child) by {
      forall j | 0 <= j < |gs'|
        ensures gs'[j].children == Collect(rs, Key(gs'[j]), child)
      {
        if j < n {
          assert gs'[j] == gs[j];
        }
      }
    }
  }

  /** The fold meets its reference description, for every sequence of rows. */
  lemma {:induction false} GroupRowsSpec<C>(rows: seq<JoinRow>, child: JoinRow -> Option<C>)
    ensures GroupedBy(GroupRows(rows, child), rows, child)
    decreases |rows|
  {
    if |rows| > 0 {
      var init := rows[..|rows| - 1];
      var last := rows[|rows| - 1];
      assert init + [last] == rows;
      GroupRowsSpec(init, child);
      var gs := GroupRows(init, child);
      if FindGroup(gs, last.projectId) < |gs| {
        AbsorbExisting(gs, init, last, child);
      } else {
        AbsorbNew(gs, init, last, child);
      }
    }
  }

  // ---------------------------------------------------------------------------
  // The three folds of the API

  /** An entry of the full listing (getProjects); `creatorEmail` is the md5 of the email. */
  datatype ProjectCard = ProjectCard(
    projectId: int,
    projectName: string,
    description: string,
    creator: string,
    creatorId: int,
    creatorEmail: string,
    technologies: seq<Option<string>>)

  /** An entry of one user's listing (getProjectsByUserId); the query does not select the
      creator columns, so the entry carries none. */
  datatype UserProjectCard = UserProjectCard(
    projectId: int,
    projectName: string,
    description: string,
    technologies: seq<Option<string>>)

  /** A technology of a favourite project. */
  datatype Tech = Tech(id: int, name: Option<string>)

  /** An entry of the favourite-projects listing (getProjectsFavorites). */
  datatype FavProject = FavProject(
    id: int,
    name: string,
    description: string,
    creatorId: int,
    technologies: seq<Tech>)

  /** The listings append `technologyName` for every row, NULL included. */
  function NameChild(r: JoinRow): Option<Option<string>> {
    Some(r.techName)
  }

  /** The favourites listing appends a technology only when `technology_id` is truthy. */
  function TruthyTech(r: JoinRow): Option<Tech> {
    if r.techId.Some? && r.techId.value != 0 then Some(Tech(r.techId.value, r.techName)) else None
  }

  /** getProjects' reduce: at most one entry per row, none exactly when there is no row,
      and each for a project some row belongs to. */
  function ListProjects(rows: seq<JoinRow>, md5: string -> string): (cards: seq<ProjectCard>)
    ensures |cards| <= |rows| && (|cards| == 0 <==> |rows| == 0)
    ensures forall i :: 0 <= i < |cards| ==> FirstIndex(rows, cards[i].projectId) < |rows|
  {
    var gs := GroupRows(rows, NameChild);
    GroupRowsSpec(rows, NameChild);
    seq(|gs|, i requires 0 <= i < |gs| =>
      ProjectCard(Key(gs[i]), gs[i].head.projectName, gs[i].head.description, gs[i].head.creatorName,
                  gs[i].head.creatorId, md5(gs[i].head.creatorEmail), gs[i].children))
  }

  /** getProjectsByUserId's reduce, with the same bounds as the full listing. */
  function ListUserProjects(rows: seq<JoinRow>): (cards: seq<UserProjectCard>)
    ensures |cards| <= |rows| && (|cards| == 0 <==> |rows| == 0)
    ensures forall i :: 0 <= i < |cards| ==> FirstIndex(rows, cards[i].projectId) < |rows|
  {
    var gs := GroupRows(rows, NameChild);
    GroupRowsSpec(rows, NameChild);
    seq(|gs|, i requires 0 <= i < |gs| =>
      UserProjectCard(Key(gs[i]), gs[i].head.projectName, gs[i].head.description, gs[i].children))
  }

  /** getProjectsFavorites' reduce, with the same bounds as the full listing. */
  function FavoriteProjects(rows: seq<JoinRow>): (favs: seq<FavProject>)
    ensures |favs| <= |rows| && (|favs| == 0 <==> |rows| == 0)
    ensures forall i :: 0 <= i < |favs| ==> FirstIndex(rows, favs[i].id) < |rows|
  {
    var gs := GroupRows(rows, TruthyTech);
    GroupRowsSpec(rows, TruthyTech);
    seq(|gs|, i requires 0 <= i < |gs| =>
      FavProject(Key(gs[i]), gs[i].head.projectName, gs[i].head.description, gs[i].head.creatorId, gs[i].children))
  }

  // ---------------------------------------------------------------------------
  // Properties of the folds

  /** Group `i` of the fold is headed by its project's first row and collects the
      children of all that project's rows. */
  lemma GroupAt<C>(rows: seq<JoinRow>, child: JoinRow -> Option<C>, i: int)
    requires 0 <= i < |GroupRows(rows, child)|
    ensures var g := GroupRows(rows, child)[i];
            && FirstIndex(rows, Key(g)) < |rows|
            && g.head == rows[FirstIndex(rows, Key(g))]
            && g.children == Collect(rows, Key(g), child)
  {
    GroupRowsSpec(rows, child);
  }

  /** Two groups of the fold have different projects, in order of first appearance. */
  lemma GroupPair<C>(rows: seq<JoinRow>, child: JoinRow -> Option<C>, i: int, j: int)
    requires 0 <= i < j < |GroupRows(rows, child)|
    ensures var gs := GroupRows(rows, child);
            Key(gs[i]) != Key(gs[j]) && FirstIndex(rows, Key(gs[i])) < FirstIndex(rows, Key(gs[j]))
  {
    GroupRowsSpec(rows, child);
  }

  /** Every row's project has a group. */
  lemma GroupCover<C>(rows: seq<JoinRow>, child: JoinRow -> Option<C>, k: int)
    requires 0 <= k < |rows|
    ensures var gs := GroupRows(rows, child);
            exists i :: 0 <= i < |gs| && Key(gs[i]) == rows[k].projectId
  {
    var gs := GroupRows(rows, child);
    GroupRowsSpec(rows, child);
    assert Covers(gs, rows);
    assert HasKey(gs, rows[k].projectId);
    var i :| 0 <= i < |gs| && Key(gs[i]) == rows[k].projectId;
    assert 0 <= i < |GroupRows(rows, child)| && Key(GroupRows(rows, child)[i]) == rows[k].projectId;
  }

  /** The full listing: one entry per distinct project id, in order of first appearance,
      with the header of that project's first row, and with the `technologyName` of every
      one of its rows, NULL included, in row order. */
  lemma ListProjectsSpec(rows: seq<JoinRow>, md5: string -> string)
    ensures var cards := ListProjects(rows, md5);
            && (forall i, j :: 0 <= i < j < |cards| ==> cards[i].projectId != cards[j].projectId)
            && (forall k :: 0 <= k < |rows| ==> exists i :: 0 <= i < |cards| && cards[i].projectId == rows[k].projectId)
            && (forall i, j :: 0 <= i < j < |cards| ==>
                  FirstIndex(rows, cards[i].projectId) < FirstIndex(rows, cards[j].projectId))
            && (forall i :: 0 <= i < |cards| ==>
                  && FirstIndex(rows, cards[i].projectId) < |rows|
                  && var first := rows[FirstIndex(rows, cards[i].projectId)];
                  && cards[i].projectName == first.projectName
                  && cards[i].description == first.description
                  && cards[i].creator == first.creatorName
                  && cards[i].creatorId == first.creatorId
                  && cards[i].creatorEmail == md5(first.creatorEmail)
                  && cards[i].technologies == Collect(rows, cards[i].projectId, NameChild))
  {
    var gs := GroupRows(rows, NameChild);
    var cards := ListProjects(rows, md5);
    forall i, j | 0 <= i < j < |cards|
      ensures cards[i].projectId != cards[j].projectId
      ensures FirstIndex(rows, cards[i].projectId) < FirstIndex(rows, cards[j].projectId)
    {
      GroupPair(rows, NameChild, i, j);
    }
    forall i | 0 <= i < |cards|
      ensures FirstIndex(rows, cards[i].projectId) < |rows|
      ensures var first := rows[FirstIndex(rows, cards[i].projectId)];
              && cards[i].projectName == first.projectName
              && cards[i].description == first.description
              && cards[i].creator == first.creatorName
              && cards[i].creatorId == first.creatorId
              && cards[i].creatorEmail == md5(first.creatorEmail)
      ensures cards[i].technologies == Collect(rows, cards[i].projectId, NameChild)
    {
      GroupAt(rows, NameChild, i);
    }
    forall k | 0 <= k < |rows|
      ensures exists i :: 0 <= i < |cards| && cards[i].projectId == rows[k].projectId
    {
      GroupCover(rows, NameChild, k);
      var i :| 0 <= i < |gs| && Key(gs[i]) == rows[k].projectId;
      assert cards[i].projectId == rows[k].projectId;
    }
  }

  /** One user's listing: the same grouping as the full listing, without creator columns. */
  lemma ListUserProjectsSpec(rows: seq<JoinRow>)
    ensures var cards := ListUserProjects(rows);
            && (forall i, j :: 0 <= i < j < |cards| ==> cards[i].projectId != cards[j].projectId)
            && (forall k :: 0 <= k < |rows| ==> exists i :: 0 <= i < |cards| && cards[i].projectId == rows[k].projectId)
            && (forall i, j :: 0 <= i < j < |cards| ==>
                  FirstIndex(rows, cards[i].projectId) < FirstIndex(rows, cards[j].projectId))
            && (forall i :: 0 <= i < |cards| ==>
                  && FirstIndex(rows, cards[i].projectId) < |rows|
                  && cards[i].projectName == rows[FirstIndex(rows, cards[i].projectId)].projectName
                  && cards[i].description == rows[FirstIndex(rows, cards[i].projectId)].description
                  && cards[i].technologies == Collect(rows, cards[i].projectId, NameChild))
  {
    var gs := GroupRows(rows, NameChild);
    var cards := ListUserProjects(rows);
    forall i, j | 0 <= i < j < |cards|
      ensures cards[i].projectId != cards[j].projectId
      ensures FirstIndex(rows, cards[i].projectId) < FirstIndex(rows, cards[j].projectId)
    {
      GroupPair(rows, NameChild, i, j);
    }
    forall i | 0 <= i < |cards|
      ensures FirstIndex(rows, cards[i].projectId) < |rows|
      ensures cards[i].projectName == rows[FirstIndex(rows, cards[i].projectId)].projectName
      ensures cards[i].description == rows[FirstIndex(rows, cards[i].projectId)].description
      ensures cards[i].technologies == Collect(rows, cards[i].projectId, NameChild)
    {
      GroupAt(rows, NameChild, i);
    }
    forall k | 0 <= k < |rows|
      ensures exists i :: 0 <= i < |cards| && cards[i].projectId == rows[k].projectId
    {
      GroupCover(rows, NameChild, k);
      var i :| 0 <= i < |gs| && Key(gs[i]) == rows[k].projectId;
      assert cards[i].projectId == rows[k].projectId;
    }
  }

  /** The favourites listing: one entry per distinct project id in order of first
      appearance, with the header of that project's first row, whose technologies are
      exactly the rows of that project with a truthy `technology_id`, in row order. */
  lemma FavoriteProjectsSpec(rows: seq<JoinRow>)
    ensures var favs := FavoriteProjects(rows);
            && (forall i, j :: 0 <= i < j < |favs| ==> favs[i].id != favs[j].id)
            && (forall k :: 0 <= k < |rows| ==> exists i :: 0 <= i < |favs| && favs[i].id == rows[k].projectId)
            && (forall i, j :: 0 <= i < j < |favs| ==> FirstIndex(rows, favs[i].id) < FirstIndex(rows, favs[j].id))
            && (forall i :: 0 <= i < |favs| ==>
                  && FirstIndex(rows, favs[i].id) < |rows|
                  && favs[i].name == rows[FirstIndex(rows, favs[i].id)].projectName
                  && favs[i].description == rows[FirstIndex(rows, favs[i].id)].description
                  && favs[i].creatorId == rows[FirstIndex(rows, favs[i].id)].creatorId
                  && favs[i].technologies == Collect(rows, favs[i].id, TruthyTech))
  {
    var gs := GroupRows(rows, TruthyTech);
    var favs := FavoriteProjects(rows);
    forall i, j | 0 <= i < j < |favs|
      ensures favs[i].id != favs[j].id
      ensures FirstIndex(rows, favs[i].id) < FirstIndex(rows, favs[j].id)
    {
      GroupPair(rows, TruthyTech, i, j);
    }
    forall i | 0 <= i < |favs|
      ensures FirstIndex(rows, favs[i].id) < |rows|
      ensures favs[i].name == rows[FirstIndex(rows, favs[i].id)].projectName
      ensures favs[i].description == rows[FirstIndex(rows, favs[i].id)].description
      ensures favs[i].creatorId == rows[FirstIndex(rows, favs[i].id)].creatorId
      ensures favs[i].technologies == Collect(rows, favs[i].id, TruthyTech)
    {
      GroupAt(rows, TruthyTech, i);
    }
    forall k | 0 <= k < |rows|
      ensures exists i :: 0 <= i < |favs| && favs[i].id == rows[k].projectId
    {
      GroupCover(rows, TruthyTech, k);
      var i :| 0 <= i < |gs| && Key(gs[i]) == rows[k].projectId;
      assert favs[i].id == rows[k].projectId;
    }
  }

  /** The number of rows of project `pid`. */
  function CountRows(rows: seq<JoinRow>, pid: int): nat
    decreases |rows|
  {
    if |rows| == 0 then 0
    else (if rows[0].projectId == pid then 1 else 0) + CountRows(rows[1..], pid)
  }

  /** A project none of whose rows has a technology: the favourites listing gives it an
      empty list, while the full listing gives it one NULL entry per row. */
  lemma {:induction false} NullTechnologies(rows: seq<JoinRow>, pid: int)
    requires forall k :: 0 <= k < |rows| ==> rows[k].projectId == pid ==> rows[k].techId.None? && rows[k].techName.None?
    ensures Collect(rows, pid, TruthyTech) == []
    ensures Collect(rows, pid, NameChild) == seq(CountRows(rows, pid), _ => None)
    decreases |rows|
  {
    if |rows| > 0 {
      NullTechnologies(rows[1..], pid);
    }
  }

  /** When every row belongs to project `pid`, the listing's technologies are the names
      of all rows, in order. */
  lemma {:induction false} CollectAllNames(rows: seq<JoinRow>, pid: int)
    requires forall k :: 0 <= k < |rows| ==> rows[k].projectId == pid
    ensures Collect(rows, pid, NameChild) == seq(|rows|, i requires 0 <= i < |rows| => rows[i].techName)
    decreases |rows|
  {
    if |rows| > 0 {
      CollectAllNames(rows[1..], pid);
    }
  }

  /** Groups with distinct keys are identified by their key. */
  lemma SameKeySameGroup<C>(gs: seq<Group<C>>, i: int, j: int)
    requires DistinctKeys(gs)
    requires 0 <= i < |gs| && 0 <= j < |gs|
    requires Key(gs[i]) == Key(gs[j])
    ensures i == j
  {
  }

  /** Two worked examples: a lone NULL row gives one project with no
      technologies; rows (1,10), (1,11), (2,NULL) give project 1 with [10, 11] then
      project 2 with none. */
  lemma FavoriteFoldExamples(a: JoinRow, b: JoinRow, c: JoinRow)
    requires a.projectId == 1 && a.techId == Some(10)
    requires b.projectId == 1 && b.techId == Some(11)
    requires c.projectId == 2 && c.techId == None
    ensures var one := FavoriteProjects([c]);
            |one| == 1 && one[0].id == 2 && one[0].technologies == []
    ensures var favs := FavoriteProjects([a, b, c]);
            && |favs| == 2
            && favs[0].id == 1 && favs[0].technologies == [Tech(10, a.techName), Tech(11, b.techName)]
            && favs[1].id == 2 && favs[1].technologies == []
  {
    assert [c][..0] == [];
    assert GroupRows([c], TruthyTech) == [Group(c, [])];
    assert [a][..0] == [];
    var g1 := GroupRows([a], TruthyTech);
    assert g1 == [Group(a, [Tech(10, a.techName)])];
    assert [a, b][..1] == [a];
    var g2 := GroupRows([a, b], TruthyTech);
    assert FindGroup(g1, b.projectId) == 0;
    assert g2 == Absorb(g1, b, TruthyTech);
    assert Emit(TruthyTech(b)) == [Tech(11, b.techName)];
    assert [Tech(10, a.techName)] + [Tech(11, b.techName)] == [Tech(10, a.techName), Tech(11, b.techName)];
    assert g2 == [Group(a, [Tech(10, a.techName), Tech(11, b.techName)])];
    assert [a, b, c][..2] == [a, b];
    assert g2[1..] == [];
    assert FindGroup(g2[1..], c.projectId) == 0;
    assert FindGroup(g2, c.projectId) == 1;
    assert GroupRows([a, b, c], TruthyTech) == g2 + [Group(c, [])];
  }
}
