/**
 * The identifier remapping and embedding alignment of the data-loading layer.
 *
 * Raw user and item identifiers are replaced by one index space: users get their position
 * among the sorted distinct train users, items get `|users|` plus their position among the
 * sorted distinct train items. The test split is looked up against the same two arrays;
 * item–property triples get items by plain position and properties from `|items|` upward.
 * Embedding tables are reordered into rows that follow the index space, users first.
 * File reading is not modelled: every table arrives already parsed, as a sequence of rows.
 */
module Loaders {
  import opened Results
  import opened Numpy

  /** One row of a ratings table. Raw rows hold file identifiers, remapped rows hold indices. */
  datatype Rating = Rating(user: int, item: int, rating: int)

  /** One remapped item–property triple; `weight` is the third column. */
  datatype PropTriple = PropTriple(item: int, prop: int, weight: int)

  /** The raw identifiers behind the index space: sorted distinct users, then items. */
  datatype IdSpace = IdSpace(users: seq<int>, items: seq<int>)

  ghost predicate ValidSpace(space: IdSpace)
  {
    StrictlyIncreasing(space.users) && StrictlyIncreasing(space.items)
  }

  function UserColumn(rows: seq<Rating>): (c: seq<int>)
    ensures |c| == |rows| && forall k :: 0 <= k < |rows| ==> c[k] == rows[k].user
  {
    seq(|rows|, k requires 0 <= k < |rows| => rows[k].user)
  }

  function ItemColumn(rows: seq<Rating>): (c: seq<int>)
    ensures |c| == |rows| && forall k :: 0 <= k < |rows| ==> c[k] == rows[k].item
  {
    seq(|rows|, k requires 0 <= k < |rows| => rows[k].item)
  }

  function RatingColumn(rows: seq<Rating>): (c: seq<int>)
    ensures |c| == |rows| && forall k :: 0 <= k < |rows| ==> c[k] == rows[k].rating
  {
    seq(|rows|, k requires 0 <= k < |rows| => rows[k].rating)
  }

  /** `np.stack([users, items, ratings], axis=1)`: raises ValueError unless the columns have one length. */
  function StackRatings(users: seq<int>, items: seq<int>, ratings: seq<int>): (r: Result<seq<Rating>>)
    ensures r.Ok? <==> |users| == |items| == |ratings|
    ensures r.Ok? ==> |r.value| == |users| &&
                      forall k :: 0 <= k < |users| ==> r.value[k] == Rating(users[k], items[k], ratings[k])
  {
    if |users| == |items| == |ratings| then Ok(seq(|users|, k requires 0 <= k < |users| => Rating(users[k], items[k], ratings[k])))
    else Err(ValueError)
  }

  /** The same stacking for item–property triples. */
  function StackTriples(items: seq<int>, props: seq<int>, weights: seq<int>): (r: Result<seq<PropTriple>>)
    ensures r.Ok? <==> |items| == |props| == |weights|
    ensures r.Ok? ==> |r.value| == |items| &&
                      forall k :: 0 <= k < |items| ==> r.value[k] == PropTriple(items[k], props[k], weights[k])
  {
    if |items| == |props| == |weights| then Ok(seq(|items|, k requires 0 <= k < |items| => PropTriple(items[k], props[k], weights[k])))
    else Err(ValueError)
  }

  /** The index of a raw user. */
  function UserIndex(space: IdSpace, u: int): nat
    requires u in space.users
  {
    Position(space.users, u)
  }

  /** The index of a raw item: offset past every user. */
  function ItemIndex(space: IdSpace, i: int): nat
    requires i in space.items
  {
    |space.users| + Position(space.items, i)
  }

  /**
   * The index space of a train split: its sorted distinct users and its sorted distinct items
   * (`np.unique` of each column).
   */
  function TrainSpace(train: seq<Rating>): (space: IdSpace)
    ensures ValidSpace(space)
    ensures forall u :: u in space.users <==> u in UserColumn(train)
    ensures forall i :: i in space.items <==> i in ItemColumn(train)
  {
    IdSpace(Unique(UserColumn(train)), Unique(ItemColumn(train)))
  }

  datatype Remapped = Remapped(space: IdSpace, rows: seq<Rating>)

  /**
   * The train half of `load_train_test_ratings`: the index space is read off the train split
   * and every train row is rewritten into it, in order, with its rating untouched.
   */
  function RemapTrain(train: seq<Rating>): (r: Remapped)
    ensures r.space == TrainSpace(train)
    ensures |r.rows| == |train|
    ensures forall k :: 0 <= k < |train| ==>
      && 0 <= r.rows[k].user < |r.space.users|
      && r.space.users[r.rows[k].user] == train[k].user
      && |r.space.users| <= r.rows[k].item < |r.space.users| + |r.space.items|
      && r.space.items[r.rows[k].item - |r.space.users|] == train[k].item
      && r.rows[k].rating == train[k].rating
  {
    var space := TrainSpace(train);
    var userColumn, itemColumn := UserColumn(train), ItemColumn(train);
    assert forall k :: 0 <= k < |train| ==> userColumn[k] in space.users;
    assert forall k :: 0 <= k < |train| ==> itemColumn[k] in space.items;
    var userIndexes := Inverse(space.users, userColumn);
    var itemIndexes := Shift(Inverse(space.items, itemColumn), |space.users|);
    var rows := StackRatings(userIndexes, itemIndexes, RatingColumn(train));
    Remapped(space, rows.value)
  }

  /** Every train row is written with the canonical user and item index of its raw identifiers. */
  lemma TrainRowsUseSpace(train: seq<Rating>, k: nat)
    requires k < |train|
    ensures var r := RemapTrain(train);
      && train[k].user in r.space.users && train[k].item in r.space.items
      && r.rows[k] == Rating(UserIndex(r.space, train[k].user), ItemIndex(r.space, train[k].item), train[k].rating)
  {
    var r := RemapTrain(train);
    PositionOfSorted(r.space.users, r.rows[k].user);
    PositionOfSorted(r.space.items, r.rows[k].item - |r.space.users|);
  }

  /** Positions in a strictly increasing sequence are told apart by their values. */
  lemma IncreasingInjective(s: seq<int>, i: nat, j: nat)
    requires StrictlyIncreasing(s) && i < |s| && j < |s| && s[i] == s[j]
    ensures i == j
  {
  }

  /** Every user index is the index of some train row. */
  lemma TrainUsersCovered(train: seq<Rating>, x: nat)
    requires x < |TrainSpace(train).users|
    ensures exists k :: 0 <= k < |train| && RemapTrain(train).rows[k].user == x
  {
    var r := RemapTrain(train);
    var u := r.space.users[x];
    assert u in UserColumn(train);
    var k :| 0 <= k < |train| && UserColumn(train)[k] == u;
    IncreasingInjective(r.space.users, r.rows[k].user, x);
  }

  /** Every item index is the index of some train row. */
  lemma TrainItemsCovered(train: seq<Rating>, x: nat)
    requires |TrainSpace(train).users| <= x < |TrainSpace(train).users| + |TrainSpace(train).items|
    ensures exists k :: 0 <= k < |train| && RemapTrain(train).rows[k].item == x
  {
    var r := RemapTrain(train);
    var nu := |r.space.users|;
    var i := r.space.items[x - nu];
    assert i in ItemColumn(train);
    var k :| 0 <= k < |train| && ItemColumn(train)[k] == i;
    IncreasingInjective(r.space.items, r.rows[k].item - nu, x - nu);
  }

  /**
   * The index space has no gaps: every index below `|users| + |items|` is the user index
   * (below `|users|`) or the item index (from `|users|` on) of some train row.
   */
  lemma TrainIndexesCoverSpace(train: seq<Rating>, x: nat)
    requires x < |RemapTrain(train).space.users| + |RemapTrain(train).space.items|
    ensures var r := RemapTrain(train);
      exists k :: 0 <= k < |train| &&
        if x < |r.space.users| then r.rows[k].user == x else r.rows[k].item == x
  {
    if x < |TrainSpace(train).users| {
      TrainUsersCovered(train, x);
    } else {
      TrainItemsCovered(train, x);
    }
  }

  /**
   * The test half of `load_train_test_ratings`: each column is looked up with `argwhere`
   * against the train arrays, then the columns are stacked with the test ratings.
   */
  function RemapTest(test: seq<Rating>, space: IdSpace): (r: Result<seq<Rating>>)
    ensures r.Err? ==> r.error == ValueError
    ensures r.Ok? ==> |r.value| == |test| && forall k :: 0 <= k < |test| ==> r.value[k].rating == test[k].rating
  {
    var userIndexes := ArgwhereEq(UserColumn(test), space.users);
    var itemIndexes := Shift(ArgwhereEq(ItemColumn(test), space.items), |space.users|);
    StackRatings(userIndexes, itemIndexes, RatingColumn(test))
  }

  /** Whether every test identifier already occurs in the train-derived index space. */
  predicate KnownIds(test: seq<Rating>, space: IdSpace)
  {
    forall k :: 0 <= k < |test| ==> test[k].user in space.users && test[k].item in space.items
  }

  /** The test remap succeeds exactly when every test identifier is known. */
  lemma TestRemapSucceeds(test: seq<Rating>, space: IdSpace)
    requires ValidSpace(space)
    ensures RemapTest(test, space).Ok? <==> KnownIds(test, space)
  {
    var users, items := UserColumn(test), ItemColumn(test);
    ArgwhereEqLength(users, space.users);
    ArgwhereEqLength(items, space.items);
    UnmatchedZero(users, space.users);
    UnmatchedZero(items, space.items);
    assert KnownIds(test, space) <==>
      (forall k :: 0 <= k < |users| ==> users[k] in space.users) &&
      (forall k :: 0 <= k < |items| ==> items[k] in space.items);
  }

  /** With every test identifier known, each looked-up column holds the canonical indices. */
  lemma TestColumns(test: seq<Rating>, space: IdSpace)
    requires ValidSpace(space) && KnownIds(test, space)
    ensures var userIndexes := ArgwhereEq(UserColumn(test), space.users);
      && |userIndexes| == |test|
      && forall k :: 0 <= k < |test| ==> test[k].user in space.users && userIndexes[k] == UserIndex(space, test[k].user)
    ensures var itemIndexes := Shift(ArgwhereEq(ItemColumn(test), space.items), |space.users|);
      && |itemIndexes| == |test|
      && forall k :: 0 <= k < |test| ==> test[k].item in space.items && itemIndexes[k] == ItemIndex(space, test[k].item)
  {
    var users, items := UserColumn(test), ItemColumn(test);
    ArgwhereEqIsInverse(users, space.users);
    ArgwhereEqIsInverse(items, space.items);
  }

  /**
   * The test remap succeeds exactly when every test identifier is known, and then every row
   * keeps its place and its rating and gets the canonical indices. An unknown identifier
   * shortens one looked-up column below the full-length rating column, so `np.stack` raises
   * instead of letting rows shift.
   */
  lemma TestRemapAligned(test: seq<Rating>, space: IdSpace)
    requires ValidSpace(space)
    ensures RemapTest(test, space).Ok? <==> KnownIds(test, space)
    ensures RemapTest(test, space).Ok? ==>
      var rows := RemapTest(test, space).value;
      |rows| == |test| &&
      forall k :: 0 <= k < |test| ==>
        rows[k] == Rating(UserIndex(space, test[k].user), ItemIndex(space, test[k].item), test[k].rating)
  {
    TestRemapSucceeds(test, space);
    if KnownIds(test, space) {
      TestColumns(test, space);
    }
  }

  /** A test row and a train row with the same raw user (item) get the same user (item) index. */
  lemma TrainTestConsistent(train: seq<Rating>, test: seq<Rating>, k: nat, t: nat)
    requires k < |train| && t < |test|
    requires RemapTest(test, RemapTrain(train).space).Ok?
    ensures var r := RemapTrain(train);
      var rows := RemapTest(test, r.space).value;
      && (test[t].user == train[k].user ==> rows[t].user == r.rows[k].user)
      && (test[t].item == train[k].item ==> rows[t].item == r.rows[k].item)
  {
    TrainRowsUseSpace(train, k);
    TestRemapAligned(test, RemapTrain(train).space);
  }

  datatype PropsRemap = PropsRemap(props: seq<int>, triples: seq<PropTriple>)

  function TripleItems(raw: seq<(int, int)>): (c: seq<int>)
    ensures |c| == |raw| && forall k :: 0 <= k < |raw| ==> c[k] == raw[k].0
  {
    seq(|raw|, k requires 0 <= k < |raw| => raw[k].0)
  }

  function TripleProps(raw: seq<(int, int)>): (c: seq<int>)
    ensures |c| == |raw| && forall k :: 0 <= k < |raw| ==> c[k] == raw[k].1
  {
    seq(|raw|, k requires 0 <= k < |raw| => raw[k].1)
  }

  /** The sorted distinct properties of the raw triples. */
  function PropsOf(raw: seq<(int, int)>): (props: seq<int>)
    ensures StrictlyIncreasing(props)
    ensures forall p :: p in props <==> p in TripleProps(raw)
  {
    Unique(TripleProps(raw))
  }

  /**
   * The property-triple remap of `load_train_test_ratings`: items by plain position in `items`
   * (no user offset), properties by position among the sorted distinct properties plus `|items|`,
   * and a weight column of ones.
   */
  function RemapProps(raw: seq<(int, int)>, items: seq<int>): (r: Result<PropsRemap>)
    ensures r.Err? ==> r.error == ValueError
    ensures r.Ok? ==> r.value.props == PropsOf(raw) && |r.value.triples| == |raw|
    ensures r.Ok? ==> forall k :: 0 <= k < |raw| ==> r.value.triples[k].weight == 1
  {
    var props := PropsOf(raw);
    var propColumn := TripleProps(raw);
    assert forall k :: 0 <= k < |raw| ==> propColumn[k] in props;
    var itemIndexes := ArgwhereEq(TripleItems(raw), items);
    var propIndexes := Shift(Inverse(props, propColumn), |items|);
    var ones := seq(|raw|, _ => 1);
    var triples :- StackTriples(itemIndexes, propIndexes, ones);
    Ok(PropsRemap(props, triples))
  }

  /** The property remap succeeds exactly when every triple's item is a train item. */
  lemma {:induction false} PropsRemapSucceeds(raw: seq<(int, int)>, items: seq<int>)
    requires StrictlyIncreasing(items)
    ensures RemapProps(raw, items).Ok? <==> forall k :: 0 <= k < |raw| ==> raw[k].0 in items
  {
    var itemColumn := TripleItems(raw);
    ArgwhereEqLength(itemColumn, items);
    UnmatchedZero(itemColumn, items);
    assert (forall k :: 0 <= k < |raw| ==> raw[k].0 in items) <==>
           (forall k :: 0 <= k < |itemColumn| ==> itemColumn[k] in items);
  }

  /**
   * A successful property remap keeps the sorted distinct raw properties and rewrites each
   * triple in place: item by position, property by position past every item, weight one.
   */
  lemma {:induction false} PropsRemapAligned(raw: seq<(int, int)>, items: seq<int>)
    requires StrictlyIncreasing(items)
    requires RemapProps(raw, items).Ok?
    ensures var r := RemapProps(raw, items).value;
      && r.props == PropsOf(raw)
      && |r.triples| == |raw|
      && forall k :: 0 <= k < |raw| ==>
        && raw[k].0 in items && raw[k].1 in r.props
        && r.triples[k] == PropTriple(Position(items, raw[k].0), |items| + Position(r.props, raw[k].1), 1)
  {
    PropsRemapSucceeds(raw, items);
    ArgwhereEqIsInverse(TripleItems(raw), items);
  }

  /** The arguments `build_adjacency_matrix` is called with; its body is not part of this model. */
  datatype AdjacencyArgs = AdjacencyArgs(
    ratings: seq<Rating>, space: IdSpace,
    propsTriples: Option<seq<PropTriple>>, props: Option<seq<int>>,
    typeAdjacency: string, sparse: bool, symmetric: bool)

  /** What `load_train_test_ratings` returns; `adjacency` records the builder call, if one is made. */
  datatype Loaded = Loaded(train: seq<Rating>, test: seq<Rating>, space: IdSpace, adjacency: Option<AdjacencyArgs>)

  /** Whether the property triples are read: a KG or unified variant and a property file. */
  predicate ReadsProps(typeAdjacency: string, propsTable: Option<seq<(int, int)>>)
  {
    (typeAdjacency == "unary-kg" || typeAdjacency == "unary-uip") && propsTable.Some?
  }

  /**
   * `load_train_test_ratings` on already-parsed tables; `propsTable` is `None` when no property
   * file is given.
   */
  function LoadTrainTestRatings(
    train: seq<Rating>, test: seq<Rating>, propsTable: Option<seq<(int, int)>>,
    returnAdjacency: bool, typeAdjacency: string, sparse: bool, symmetric: bool): Result<Loaded>
  {
    var remapped := RemapTrain(train);
    var testRows :- RemapTest(test, remapped.space);
    if !returnAdjacency then Ok(Loaded(remapped.rows, testRows, remapped.space, None))
    else if ReadsProps(typeAdjacency, propsTable) then
      var p :- RemapProps(propsTable.value, remapped.space.items);
      Ok(Loaded(remapped.rows, testRows, remapped.space,
        Some(AdjacencyArgs(remapped.rows, remapped.space, Some(p.triples), Some(p.props), typeAdjacency, sparse, symmetric))))
    else
      Ok(Loaded(remapped.rows, testRows, remapped.space,
        Some(AdjacencyArgs(remapped.rows, remapped.space, None, None, typeAdjacency, sparse, symmetric))))
  }

  /**
   * Loading fails exactly on an unknown test identifier or, when properties are read, on a
   * property triple whose item is not a train item. Without `returnAdjacency` no builder call is
   * made; with it, the builder gets the remapped train ratings and properties only when read.
   */
  lemma LoadTrainTestRatingsOutcome(
    train: seq<Rating>, test: seq<Rating>, propsTable: Option<seq<(int, int)>>,
    returnAdjacency: bool, typeAdjacency: string, sparse: bool, symmetric: bool)
    ensures var space := RemapTrain(train).space;
      var r := LoadTrainTestRatings(train, test, propsTable, returnAdjacency, typeAdjacency, sparse, symmetric);
      && (r.Ok? <==>
            KnownIds(test, space) &&
            (returnAdjacency && ReadsProps(typeAdjacency, propsTable) ==>
               forall k :: 0 <= k < |propsTable.value| ==> propsTable.value[k].0 in space.items))
      && (r.Ok? ==>
            && r.value.space == space
            && r.value.train == RemapTrain(train).rows
            && Ok(r.value.test) == RemapTest(test, space)
            && (r.value.adjacency.Some? <==> returnAdjacency))
    ensures var space := RemapTrain(train).space;
      var r := LoadTrainTestRatings(train, test, propsTable, returnAdjacency, typeAdjacency, sparse, symmetric);
      r.Ok? && r.value.adjacency.Some? ==>
        var a := r.value.adjacency.value;
        && a.ratings == r.value.train && a.space == space
        && a.typeAdjacency == typeAdjacency && a.sparse == sparse && a.symmetric == symmetric
        && (a.props.Some? <==> ReadsProps(typeAdjacency, propsTable))
        && (a.propsTriples.Some? <==> ReadsProps(typeAdjacency, propsTable))
        && (ReadsProps(typeAdjacency, propsTable) ==>
              && RemapProps(propsTable.value, space.items).Ok?
              && a.props == Some(PropsOf(propsTable.value))
              && a.propsTriples == Some(RemapProps(propsTable.value, space.items).value.triples))
  {
    var space := RemapTrain(train).space;
    TestRemapAligned(test, space);
    if returnAdjacency && ReadsProps(typeAdjacency, propsTable) {
      PropsRemapSucceeds(propsTable.value, space.items);
      if RemapProps(propsTable.value, space.items).Ok? {
        PropsRemapAligned(propsTable.value, space.items);
      }
    }
  }

  /**
   * `load_graph_user_item_embeddings`: the rows of a positionally indexed embedding table,
   * picked by raw user identifiers and then by raw item identifiers.
   */
  function GraphUserItemEmbeddings<V>(table: seq<V>, space: IdSpace): (r: Result<seq<V>>)
    ensures r.Ok? <==>
      (forall k :: 0 <= k < |space.users| ==> InBounds(|table|, space.users[k])) &&
      (forall k :: 0 <= k < |space.items| ==> InBounds(|table|, space.items[k]))
    ensures r.Ok? ==>
      && |r.value| == |space.users| + |space.items|
      && (forall k :: 0 <= k < |space.users| ==> r.value[k] == table[Wrap(|table|, space.users[k])])
      && (forall k :: |space.users| <= k < |r.value| ==>
            r.value[k] == table[Wrap(|table|, space.items[k - |space.users|])])
  {
    var userRows :- Take(table, space.users);
    var itemRows :- Take(table, space.items);
    Ok(userRows + itemRows)
  }

  /** One row of a profile-embedding frame. */
  datatype EmbeddingRow<V> = EmbeddingRow(id: int, vector: V)

  function Ids<V>(rows: seq<EmbeddingRow<V>>): set<int>
  {
    set k | 0 <= k < |rows| :: rows[k].id
  }

  /** The vector of the last row that carries `id`. */
  function LastVector<V>(rows: seq<EmbeddingRow<V>>, id: int): (v: V)
    requires id in Ids(rows)
    ensures exists j :: 0 <= j < |rows| && rows[j].id == id && rows[j].vector == v &&
                        (forall j' :: j < j' < |rows| ==> rows[j'].id != id)
  {
    var n := |rows| - 1;
    if rows[n].id == id then rows[n].vector
    else
      IdsInit(rows, id);
      LastVector(rows[..n], id)
  }

  /** An identifier other than the last row's is carried by an earlier row. */
  lemma IdsInit<V>(rows: seq<EmbeddingRow<V>>, id: int)
    requires id in Ids(rows) && rows[|rows| - 1].id != id
    ensures id in Ids(rows[..|rows| - 1])
    ensures forall j :: 0 <= j < |rows| - 1 ==> rows[..|rows| - 1][j] == rows[j]
  {
    var k :| 0 <= k < |rows| && rows[k].id == id;
    assert rows[..|rows| - 1][k].id == id;
  }

  /**
   * One `iterrows` loop of `load_bert_user_item_embeddings`: a dictionary from identifier to
   * vector, where a repeated identifier keeps the vector of its last row.
   */
  method CollectEmbeddings<V>(rows: seq<EmbeddingRow<V>>) returns (m: map<int, V>)
    ensures m.Keys == Ids(rows)
    ensures forall id :: id in m ==> m[id] == LastVector(rows, id)
  {
    m := map[];
    var i := 0;
    while i < |rows|
      invariant 0 <= i <= |rows|
      invariant m.Keys == Ids(rows[..i])
      invariant forall id :: id in m ==> m[id] == LastVector(rows[..i], id)
    {
      assert rows[..i + 1][..i] == rows[..i];
      assert Ids(rows[..i + 1]) == Ids(rows[..i]) + {rows[i].id} by {
        forall id ensures id in Ids(rows[..i + 1]) <==> id in Ids(rows[..i]) || id == rows[i].id {
          if id in Ids(rows[..i + 1]) {
            var k :| 0 <= k < i + 1 && rows[..i + 1][k].id == id;
            if k < i {
              assert rows[..i][k].id == id;
            }
          }
          if id in Ids(rows[..i]) {
            var k :| 0 <= k < i && rows[..i][k].id == id;
            assert rows[..i + 1][k].id == id;
          }
          assert rows[..i + 1][i].id == rows[i].id;
        }
      }
      m := m[rows[i].id := rows[i].vector];
      i := i + 1;
    }
    assert rows[..i] == rows;
  }

  /** Whether some identifier of `ids` has no entry in `m`. */
  predicate Missing<V>(m: map<int, V>, ids: seq<int>)
  {
    exists k :: 0 <= k < |ids| && ids[k] !in m
  }

  /** `np.stack([m[x] for x in ids])`: KeyError on a missing identifier, ValueError on no rows. */
  function StackLookup<V>(m: map<int, V>, ids: seq<int>): (r: Result<seq<V>>)
    ensures r.Ok? <==> |ids| > 0 && forall k :: 0 <= k < |ids| ==> ids[k] in m
    ensures r.Ok? ==> |r.value| == |ids| && forall k :: 0 <= k < |ids| ==> r.value[k] == m[ids[k]]
    ensures r.Err? ==> r.error == if Missing(m, ids) then KeyError else ValueError
  {
    if exists k :: 0 <= k < |ids| && ids[k] !in m then Err(KeyError)
    else if ids == [] then Err(ValueError)
    else Ok(seq(|ids|, k requires 0 <= k < |ids| => m[ids[k]]))
  }

  /** Whether some identifier of `ids` has no row in the frame `rows`. */
  predicate MissingFrom<V>(rows: seq<EmbeddingRow<V>>, ids: seq<int>)
  {
    exists k :: 0 <= k < |ids| && ids[k] !in Ids(rows)
  }

  /**
   * `load_bert_user_item_embeddings` on already-read (and ID-sorted) frames: user rows
   * `0..|users|-1` hold each user's profile vector and the remaining rows each item's, in
   * index-space order; an identifier repeated in a frame contributes its last row's vector.
   * It fails when a user or item of the index space is missing from its frame, or when there are
   * no users or no items to stack.
   */
  method LoadBertUserItemEmbeddings<V>(userRows: seq<EmbeddingRow<V>>, itemRows: seq<EmbeddingRow<V>>, space: IdSpace)
    returns (r: Result<seq<V>>)
    ensures r.Ok? <==>
      && |space.users| > 0 && |space.items| > 0
      && (forall k :: 0 <= k < |space.users| ==> space.users[k] in Ids(userRows))
      && (forall k :: 0 <= k < |space.items| ==> space.items[k] in Ids(itemRows))
    ensures r.Ok? ==>
      && |r.value| == |space.users| + |space.items|
      && (forall k :: 0 <= k < |space.users| ==> r.value[k] == LastVector(userRows, space.users[k]))
      && (forall k :: |space.users| <= k < |r.value| ==>
            r.value[k] == LastVector(itemRows, space.items[k - |space.users|]))
    ensures r.Err? ==>
      r.error == (if MissingFrom(userRows, space.users) then KeyError
                  else if |space.users| == 0 then ValueError
                  else if MissingFrom(itemRows, space.items) then KeyError
                  else ValueError)
  {
    var userEmbeddings := CollectEmbeddings(userRows);
    var itemEmbeddings := CollectEmbeddings(itemRows);
    var users := StackLookup(userEmbeddings, space.users);
    if users.Err? {
      return Err(users.error);
    }
    var items := StackLookup(itemEmbeddings, space.items);
    if items.Err? {
      return Err(items.error);
    }
    r := Ok(users.value + items.value);
  }

  /** The adjacency structure `build_adjacency_matrix` returns: one, two or three matrices. */
  datatype Adjacency<M> = Single(matrix: M) | Pair(userItem: M, itemProps: M) | Triple(userItem: M, itemProps: M, userProps: M)

  /**
   * The user-properties extension of `load_user_item_graph`: unless the variant is the unified
   * one, the adjacency is unpacked into two parts, a user–property matrix is computed from them
   * by `getUserProperties` and appended. A pair unpacks into its two matrices; a single matrix
   * unpacks into its rows, which `twoRows` gives when it has exactly two; anything else raises
   * ValueError.
   */
  function WithUserProperties<M>(adj: Adjacency<M>, userProperties: bool, typeAdjacency: string,
                                 nUsers: nat, nItems: nat, getUserProperties: (M, M, nat, nat) -> M,
                                 twoRows: M -> Option<(M, M)>): (r: Result<Adjacency<M>>)
    ensures !userProperties || typeAdjacency == "unary-uip" ==> r == Ok(adj)
    ensures userProperties && typeAdjacency != "unary-uip" ==>
      && (r.Ok? <==> adj.Pair? || (adj.Single? && twoRows(adj.matrix).Some?))
      && (r.Err? ==> r.error == ValueError)
      && (adj.Pair? ==>
            r == Ok(Triple(adj.userItem, adj.itemProps, getUserProperties(adj.userItem, adj.itemProps, nUsers, nItems))))
      && (adj.Single? && twoRows(adj.matrix).Some? ==>
            var (first, second) := twoRows(adj.matrix).value;
            r == Ok(Triple(first, second, getUserProperties(first, second, nUsers, nItems))))
  {
    if userProperties && typeAdjacency != "unary-uip" then
      match adj
      case Pair(ui, ip) => Ok(Triple(ui, ip, getUserProperties(ui, ip, nUsers, nItems)))
      case Single(m) =>
        if twoRows(m).Some? then
          var (ui, ip) := twoRows(m).value;
          Ok(Triple(ui, ip, getUserProperties(ui, ip, nUsers, nItems)))
        else Err(ValueError)
      case Triple(_, _, _) => Err(ValueError)
    else Ok(adj)
  }
}
