/**
 The registry of tile definitions: a sorted array that transactions replace owner by
 owner, all or nothing, with a generation counter that every commit advances.
 */
module ContentRegistry {
  import opened Common
  import opened ContentModel
  import opened Sorting

  // --------------------------------------------------------- transactions

  datatype Replacement = Replacement(owner: string, tiles: seq<Tile>)

  predicate WellKeyed(t: Tile) {
    && Normalize(t.owner, OWNER_CAPACITY) == Some(t.owner)
    && Normalize(t.localId, LOCAL_ID_CAPACITY) == Some(t.localId)
    && MakeKey(t.owner, t.localId) == Some(t.key)
  }

  /** What a transaction holds at any time. */
  predicate ValidReplacement(tx: Replacement) {
    && |tx.tiles| <= TILES_PER_OWNER
    && (forall i :: 0 <= i < |tx.tiles| ==> WellKeyed(tx.tiles[i]) && tx.tiles[i].owner == tx.owner)
    && DistinctKeys(tx.tiles)
  }

  /** The definition registered under an id, None when the name or the body is not acceptable. */
  function Built(owner: string, localId: string, body: Option<Body>): Option<Tile> {
    match (MakeKey(owner, localId), body)
    case (Some(key), Some(b)) =>
      Some(Tile(Normalize(owner, OWNER_CAPACITY).value, Normalize(localId, LOCAL_ID_CAPACITY).value, key, b))
    case _ => None
  }

  /** Registering one more tile; None leaves the transaction alone. */
  function Registered(tx: Replacement, localId: string, body: Option<Body>): Option<Replacement> {
    if |tx.tiles| >= TILES_PER_OWNER then None
    else
      match Built(tx.owner, localId, body)
      case None => None
      case Some(t) =>
        if exists i :: 0 <= i < |tx.tiles| && tx.tiles[i].key == t.key then None
        else Some(tx.(tiles := tx.tiles + [t]))
  }

  lemma RegisteringKeepsValid(tx: Replacement, localId: string, body: Option<Body>)
    requires ValidReplacement(tx) && Normalize(tx.owner, OWNER_CAPACITY) == Some(tx.owner)
    ensures Registered(tx, localId, body).Some? ==> ValidReplacement(Registered(tx, localId, body).value)
  {
    hide Normalize;
    if Built(tx.owner, localId, body).Some? {
      NormalizeIsStable(localId, LOCAL_ID_CAPACITY);
    }
  }

  /** Registering is granted exactly if the owner has room, the id is a proper name it has not used yet in any case, and
      the body is acceptable. Granted, that one tile is added after the others, under the owner's name and its own;
      otherwise there is no new transaction. */
  lemma RegisteringAddsOne(tx: Replacement, localId: string, body: Option<Body>)
    requires ValidReplacement(tx) && Normalize(tx.owner, OWNER_CAPACITY) == Some(tx.owner)
    ensures var (r, name) := (Registered(tx, localId, body), Normalize(localId, LOCAL_ID_CAPACITY));
            && (r.Some? <==> |tx.tiles| < TILES_PER_OWNER && name.Some? && body.Some?
                             && forall i :: 0 <= i < |tx.tiles| ==> tx.tiles[i].localId != name.value)
            && (r.Some? ==>
                  && r.value.owner == tx.owner && |r.value.tiles| == |tx.tiles| + 1
                  && r.value.tiles[..|tx.tiles|] == tx.tiles
                  && r.value.tiles[|tx.tiles|] == Tile(tx.owner, name.value, tx.owner + ":" + name.value, body.value))
  {
    var name := Normalize(localId, LOCAL_ID_CAPACITY);
    NormalizeIsStable(localId, LOCAL_ID_CAPACITY);
    KeysFit(tx.owner, localId);
    forall i | 0 <= i < |tx.tiles| && name.Some?
      ensures tx.tiles[i].key == tx.owner + ":" + name.value <==> tx.tiles[i].localId == name.value
    {
      var t := tx.tiles[i];
      assert WellKeyed(t) && t.owner == tx.owner;
      if t.key == tx.owner + ":" + name.value { KeysAreInjective(t.owner, t.localId, tx.owner, localId); }
    }
    hide Normalize;
  }

  // --------------------------------------------------------------- commits

  predicate Replaces(txs: seq<Replacement>, owner: string) {
    exists k :: 0 <= k < |txs| && txs[k].owner == owner
  }

  predicate DistinctOwners(txs: seq<Replacement>) {
    forall i, j :: 0 <= i < j < |txs| ==> txs[i].owner != txs[j].owner
  }

  /** The tiles of owners no transaction replaces, in their order. */
  function Survivors(tiles: seq<Tile>, txs: seq<Replacement>): (r: seq<Tile>)
    ensures |r| <= |tiles|
  {
    if tiles == [] then []
    else
      var t := tiles[|tiles| - 1];
      Survivors(tiles[..|tiles| - 1], txs) + if Replaces(txs, t.owner) then [] else [t]
  }

  /** The tiles of all transactions. */
  function Gathered(txs: seq<Replacement>): seq<Tile> {
    if txs == [] then [] else Gathered(txs[..|txs| - 1]) + txs[|txs| - 1].tiles
  }

  /** What the registry becomes; None when the commit fails. */
  function Committed(tiles: seq<Tile>, txs: seq<Replacement>): Option<seq<Tile>> {
    var all := Survivors(tiles, txs) + Gathered(txs);
    if txs == [] then Some(tiles)
    else if !DistinctOwners(txs) || |all| > TILES_GLOBAL || !StrictlySorted(SortedByKey(all)) then None
    else Some(SortedByKey(all))
  }

  predicate ValidTiles(tiles: seq<Tile>) {
    && |tiles| <= TILES_GLOBAL && StrictlySorted(tiles)
    && forall i :: 0 <= i < |tiles| ==> WellKeyed(tiles[i])
  }

  predicate ValidReplacements(txs: seq<Replacement>) {
    forall k :: 0 <= k < |txs| ==> ValidReplacement(txs[k])
  }

  // -------------------------------------------------- who is in the outcome

  lemma {:induction false} InSurvivors(tiles: seq<Tile>, txs: seq<Replacement>, t: Tile)
    ensures t in Survivors(tiles, txs) <==> t in tiles && !Replaces(txs, t.owner)
  {
    if tiles != [] {
      var n := |tiles| - 1;
      InSurvivors(tiles[..n], txs, t);
      assert tiles == tiles[..n] + [tiles[n]];
    }
  }

  predicate Offers(txs: seq<Replacement>, t: Tile) {
    exists k :: 0 <= k < |txs| && t in txs[k].tiles
  }

  lemma {:induction false} InGathered(txs: seq<Replacement>, t: Tile)
    ensures t in Gathered(txs) <==> Offers(txs, t)
  {
    if txs != [] {
      var n := |txs| - 1;
      InGathered(txs[..n], t);
      if Offers(txs, t) {
        var k :| 0 <= k < |txs| && t in txs[k].tiles;
        assert k < n ==> t in txs[..n][k].tiles;
      }
      if Offers(txs[..n], t) {
        var k :| 0 <= k < n && t in txs[..n][k].tiles;
        assert t in txs[k].tiles;
      }
    }
  }

  /** Well-keyed tiles with the same key have the same owner. */
  lemma KeyNamesOwner(t: Tile, u: Tile)
    requires WellKeyed(t) && WellKeyed(u) && t.key == u.key
    ensures t.owner == u.owner && t.localId == u.localId
  {
    KeysAreInjective(t.owner, t.localId, u.owner, u.localId);
  }

  predicate AllWellKeyed(tiles: seq<Tile>) {
    forall i :: 0 <= i < |tiles| ==> WellKeyed(tiles[i])
  }

  lemma LastOwnerIsNew(txs: seq<Replacement>, owner: string)
    requires DistinctOwners(txs) && txs != [] && Replaces(txs[..|txs| - 1], owner)
    ensures owner != txs[|txs| - 1].owner
  {
    var k :| 0 <= k < |txs| - 1 && txs[..|txs| - 1][k].owner == owner;
    assert txs[k].owner != txs[|txs| - 1].owner;
  }

  lemma {:induction false} GatheredIsDistinct(txs: seq<Replacement>)
    requires ValidReplacements(txs) && DistinctOwners(txs)
    ensures DistinctKeys(Gathered(txs)) && AllWellKeyed(Gathered(txs))
    ensures forall i :: 0 <= i < |Gathered(txs)| ==> Replaces(txs, Gathered(txs)[i].owner)
  {
    hide WellKeyed;
    if txs != [] {
      var n := |txs| - 1;
      var front, last := txs[..n], txs[n];
      GatheredIsDistinct(front);
      var a := Gathered(front);
      assert ValidReplacement(last);
      forall i, j | 0 <= i < |a| && 0 <= j < |last.tiles| ensures a[i].key != last.tiles[j].key {
        LastOwnerIsNew(txs, a[i].owner);
        if a[i].key == last.tiles[j].key { KeyNamesOwner(a[i], last.tiles[j]); }
      }
      forall i | 0 <= i < |a| ensures Replaces(txs, a[i].owner) {
        var k :| 0 <= k < n && front[k].owner == a[i].owner;
        assert txs[k].owner == a[i].owner;
      }
      assert txs[n].owner == last.owner;
    }
  }

  lemma StrictIsDistinct(tiles: seq<Tile>)
    requires StrictlySorted(tiles)
    ensures DistinctKeys(tiles)
  {
    forall i, j | 0 <= i < j < |tiles| ensures tiles[i].key != tiles[j].key {
      CompareIsEquality(tiles[i].key, tiles[j].key);
    }
  }

  lemma {:induction false} SurvivorsAreDistinct(tiles: seq<Tile>, txs: seq<Replacement>)
    requires DistinctKeys(tiles) && AllWellKeyed(tiles)
    ensures DistinctKeys(Survivors(tiles, txs)) && AllWellKeyed(Survivors(tiles, txs))
    ensures forall i :: 0 <= i < |Survivors(tiles, txs)| ==>
              Survivors(tiles, txs)[i] in tiles && !Replaces(txs, Survivors(tiles, txs)[i].owner)
  {
    hide WellKeyed, Replaces;
    if tiles != [] {
      var n := |tiles| - 1;
      SurvivorsAreDistinct(tiles[..n], txs);
      var a := Survivors(tiles[..n], txs);
      forall i | 0 <= i < |a| ensures a[i] in tiles && a[i].key != tiles[n].key {
        var k :| 0 <= k < n && tiles[..n][k] == a[i];
        assert tiles[k] == a[i];
      }
    }
  }

  /** The collision branch is dead: keys decide owners, survivors and replacements have different owners. */
  lemma NoCollision(tiles: seq<Tile>, txs: seq<Replacement>)
    requires ValidTiles(tiles) && ValidReplacements(txs) && DistinctOwners(txs)
    ensures DistinctKeys(Survivors(tiles, txs) + Gathered(txs)) && AllWellKeyed(Survivors(tiles, txs) + Gathered(txs))
    ensures StrictlySorted(SortedByKey(Survivors(tiles, txs) + Gathered(txs)))
  {
    hide WellKeyed, Survivors, Gathered, SortedByKey, StrictlySorted, Replaces;
    StrictIsDistinct(tiles);
    SurvivorsAreDistinct(tiles, txs);
    GatheredIsDistinct(txs);
    var a, b := Survivors(tiles, txs), Gathered(txs);
    forall i, j | 0 <= i < |a| && 0 <= j < |b| ensures a[i].key != b[j].key {
      if a[i].key == b[j].key { KeyNamesOwner(a[i], b[j]); }
    }
    SortedIsStrict(a + b);
  }

  // ------------------------------------------------------------ refinement

  /** The tiles of one owner: the registry as a map from owners. */
  function Owned(tiles: seq<Tile>, owner: string): set<Tile> {
    set t | t in tiles && t.owner == owner
  }

  lemma CommittedElements(tiles: seq<Tile>, txs: seq<Replacement>, t: Tile)
    requires ValidTiles(tiles) && ValidReplacements(txs) && Committed(tiles, txs).Some?
    ensures t in Committed(tiles, txs).value <==> (t in tiles && !Replaces(txs, t.owner)) || Offers(txs, t)
  {
    if txs != [] {
      hide ValidTiles, ValidReplacements, Survivors, Gathered, SortedByKey, StrictlySorted, Replaces, Offers;
      var all := Survivors(tiles, txs) + Gathered(txs);
      InSurvivors(tiles, txs, t);
      InGathered(txs, t);
      SameElements(SortedByKey(all), all, t);
    }
  }

  /** A commit succeeds exactly when no owner occurs twice and the outcome is within the global limit. Then the
      registry is again strictly sorted and well keyed, the tiles of every committed owner are the transaction's,
      and those of every other owner are unchanged. */
  lemma CommitReplacesOwners(tiles: seq<Tile>, txs: seq<Replacement>)
    requires ValidTiles(tiles) && ValidReplacements(txs)
    ensures Committed(tiles, txs).Some? <==>
              DistinctOwners(txs) && |Survivors(tiles, txs) + Gathered(txs)| <= TILES_GLOBAL
    ensures Committed(tiles, txs).Some? ==> ValidTiles(Committed(tiles, txs).value)
    ensures Committed(tiles, txs).Some? ==>
              forall k :: 0 <= k < |txs| ==> Owned(Committed(tiles, txs).value, txs[k].owner) == set t | t in txs[k].tiles
    ensures Committed(tiles, txs).Some? ==>
              forall o :: !Replaces(txs, o) ==> Owned(Committed(tiles, txs).value, o) == Owned(tiles, o)
  {
    hide Survivors, Gathered, SortedByKey, StrictlySorted, WellKeyed;
    CommitSucceeds(tiles, txs);
    if Committed(tiles, txs).Some? {
      var after := Committed(tiles, txs).value;
      hide Committed, ValidTiles;
      forall k | 0 <= k < |txs| ensures Owned(after, txs[k].owner) == set t | t in txs[k].tiles {
        forall t ensures t in Owned(after, txs[k].owner) <==> t in txs[k].tiles {
          CommittedElements(tiles, txs, t);
          OfferedByItsOwner(txs, k, t);
        }
      }
      forall o | !Replaces(txs, o) ensures Owned(after, o) == Owned(tiles, o) {
        forall t ensures t in Owned(after, o) <==> t in Owned(tiles, o) {
          CommittedElements(tiles, txs, t);
          OfferedIsReplaced(txs, t);
        }
      }
    }
  }

  lemma OfferedIsReplaced(txs: seq<Replacement>, t: Tile)
    requires ValidReplacements(txs)
    ensures Offers(txs, t) ==> Replaces(txs, t.owner)
  {
    if Offers(txs, t) {
      var k :| 0 <= k < |txs| && t in txs[k].tiles;
      var i :| 0 <= i < |txs[k].tiles| && txs[k].tiles[i] == t;
      assert txs[k].owner == t.owner;
    }
  }

  lemma OfferedByItsOwner(txs: seq<Replacement>, k: nat, t: Tile)
    requires ValidReplacements(txs) && DistinctOwners(txs) && k < |txs|
    ensures Offers(txs, t) && t.owner == txs[k].owner <==> t in txs[k].tiles
    ensures Replaces(txs, txs[k].owner)
  {
    if Offers(txs, t) && t.owner == txs[k].owner {
      var j :| 0 <= j < |txs| && t in txs[j].tiles;
      var i :| 0 <= i < |txs[j].tiles| && txs[j].tiles[i] == t;
      assert txs[j].owner == txs[k].owner;
    }
    if t in txs[k].tiles {
      var i :| 0 <= i < |txs[k].tiles| && txs[k].tiles[i] == t;
    }
  }

  lemma CommitSucceeds(tiles: seq<Tile>, txs: seq<Replacement>)
    requires ValidTiles(tiles) && ValidReplacements(txs)
    ensures Committed(tiles, txs).Some? <==>
              DistinctOwners(txs) && |Survivors(tiles, txs) + Gathered(txs)| <= TILES_GLOBAL
    ensures Committed(tiles, txs).Some? ==> ValidTiles(Committed(tiles, txs).value)
  {
    hide SortedByKey, StrictlySorted, WellKeyed;
    if DistinctOwners(txs) {
      NoCollision(tiles, txs);
      var all := Survivors(tiles, txs) + Gathered(txs);
      hide Survivors, Gathered;
      forall i | 0 <= i < |SortedByKey(all)| ensures WellKeyed(SortedByKey(all)[i]) {
        SameElements(SortedByKey(all), all, SortedByKey(all)[i]);
        assert SortedByKey(all)[i] in all;
      }
      if txs == [] { SurvivorsOfNone(tiles, txs); }
    }
  }

  lemma {:induction false} SurvivorsOfNone(tiles: seq<Tile>, txs: seq<Replacement>)
    requires txs == []
    ensures Survivors(tiles, txs) == tiles && Gathered(txs) == []
  {
    if tiles != [] { SurvivorsOfNone(tiles[..|tiles| - 1], txs); }
  }

  // -------------------------------------------------------------- batches

  /** Committing the transactions one after the other. */
  function CommittedEach(tiles: seq<Tile>, txs: seq<Replacement>): Option<seq<Tile>> {
    if txs == [] then Some(tiles)
    else
      match CommittedEach(tiles, txs[..|txs| - 1])
      case None => None
      case Some(next) => Committed(next, [txs[|txs| - 1]])
  }

  /** A commit's outcome is pinned down by its elements. */
  lemma OutcomeIsUnique(tiles: seq<Tile>, txs: seq<Replacement>, after: seq<Tile>)
    requires ValidTiles(tiles) && ValidReplacements(txs) && DistinctOwners(txs) && ValidTiles(after)
    requires forall t :: t in after <==> (t in tiles && !Replaces(txs, t.owner)) || Offers(txs, t)
    ensures Committed(tiles, txs) == Some(after)
  {
    hide Survivors, Gathered, SortedByKey, WellKeyed, Replaces, Offers;
    NoCollision(tiles, txs);
    var all := Survivors(tiles, txs) + Gathered(txs);
    var r := if txs == [] then tiles else SortedByKey(all);
    if txs == [] { SurvivorsOfNone(tiles, txs); }
    forall t ensures t in r <==> t in after {
      InSurvivors(tiles, txs, t);
      InGathered(txs, t);
      SameElements(r, all, t);
    }
    StrictlySortedIsUnique(r, after);
  }

  lemma LastReplaces(txs: seq<Replacement>, t: Tile)
    requires txs != []
    ensures var n := |txs| - 1;
            && (Replaces(txs, t.owner) <==> Replaces(txs[..n], t.owner) || Replaces([txs[n]], t.owner))
            && (Offers(txs, t) <==> Offers(txs[..n], t) || Offers([txs[n]], t))
  {
    var n := |txs| - 1;
    assert [txs[n]][0] == txs[n];
    if Replaces(txs, t.owner) {
      var k :| 0 <= k < |txs| && txs[k].owner == t.owner;
      assert if k < n then txs[..n][k].owner == t.owner else [txs[n]][0].owner == t.owner;
    }
    if Offers(txs, t) {
      var k :| 0 <= k < |txs| && t in txs[k].tiles;
      assert if k < n then t in txs[..n][k].tiles else t in [txs[n]][0].tiles;
    }
    if Replaces(txs[..n], t.owner) {
      var k :| 0 <= k < n && txs[..n][k].owner == t.owner;
      assert txs[k].owner == t.owner;
    }
    if Offers(txs[..n], t) {
      var k :| 0 <= k < n && t in txs[..n][k].tiles;
      assert t in txs[k].tiles;
    }
  }

  /** Committing a batch and then one more owner is committing the longer batch. */
  lemma OneMore(tiles: seq<Tile>, txs: seq<Replacement>)
    requires ValidTiles(tiles) && ValidReplacements(txs) && DistinctOwners(txs) && txs != []
    requires Committed(tiles, txs[..|txs| - 1]).Some?
    ensures Committed(Committed(tiles, txs[..|txs| - 1]).value, [txs[|txs| - 1]]) == Committed(tiles, txs)
  {
    var n := |txs| - 1;
    var front, last := txs[..n], [txs[n]];
    var next := Committed(tiles, front).value;
    CommitSucceeds(tiles, front);
    CommitSucceeds(next, last);
    CommitSucceeds(tiles, txs);
    if Committed(next, last).Some? {
      var after := Committed(next, last).value;
      forall t ensures t in after <==> (t in tiles && !Replaces(txs, t.owner)) || Offers(txs, t) {
        ElementsOfOneMore(tiles, txs, t);
      }
      OutcomeIsUnique(tiles, txs, after);
    } else if Committed(tiles, txs).Some? {
      var after := Committed(tiles, txs).value;
      forall t ensures t in after <==> (t in next && !Replaces(last, t.owner)) || Offers(last, t) {
        ElementsOfOneMoreBack(tiles, txs, t);
      }
      OutcomeIsUnique(next, last, after);
    }
  }

  lemma LastIsNew(txs: seq<Replacement>, t: Tile)
    requires ValidReplacements(txs) && DistinctOwners(txs) && txs != []
    ensures Offers(txs[..|txs| - 1], t) ==> !Replaces([txs[|txs| - 1]], t.owner)
  {
    var n := |txs| - 1;
    if Offers(txs[..n], t) {
      OfferedIsReplaced(txs[..n], t);
      var k :| 0 <= k < n && txs[..n][k].owner == t.owner;
      assert txs[k].owner == t.owner;
    }
  }

  lemma ElementsOfOneMore(tiles: seq<Tile>, txs: seq<Replacement>, t: Tile)
    requires ValidTiles(tiles) && ValidReplacements(txs) && DistinctOwners(txs) && txs != []
    requires Committed(tiles, txs[..|txs| - 1]).Some?
    requires Committed(Committed(tiles, txs[..|txs| - 1]).value, [txs[|txs| - 1]]).Some?
    ensures t in Committed(Committed(tiles, txs[..|txs| - 1]).value, [txs[|txs| - 1]]).value
       <==> (t in tiles && !Replaces(txs, t.owner)) || Offers(txs, t)
  {
    var front, last := txs[..|txs| - 1], [txs[|txs| - 1]];
    var next := Committed(tiles, front).value;
    CommitSucceeds(tiles, front);
    CommittedElements(tiles, front, t);
    CommittedElements(next, last, t);
    LastReplaces(txs, t);
    LastIsNew(txs, t);
    hide Committed, Replaces, Offers;
  }

  lemma ElementsOfOneMoreBack(tiles: seq<Tile>, txs: seq<Replacement>, t: Tile)
    requires ValidTiles(tiles) && ValidReplacements(txs) && DistinctOwners(txs) && txs != []
    requires Committed(tiles, txs[..|txs| - 1]).Some? && Committed(tiles, txs).Some?
    ensures t in Committed(tiles, txs).value
       <==> (t in Committed(tiles, txs[..|txs| - 1]).value && !Replaces([txs[|txs| - 1]], t.owner))
            || Offers([txs[|txs| - 1]], t)
  {
    var front, last := txs[..|txs| - 1], [txs[|txs| - 1]];
    CommittedElements(tiles, front, t);
    CommittedElements(tiles, txs, t);
    LastReplaces(txs, t);
    LastIsNew(txs, t);
    hide Committed, Replaces, Offers;
  }

  lemma {:induction false} FrontIsValid(txs: seq<Replacement>, n: nat)
    requires ValidReplacements(txs) && DistinctOwners(txs) && n <= |txs|
    ensures ValidReplacements(txs[..n]) && DistinctOwners(txs[..n])
  {
  }

  /** One by one gives what the batch gives, exactly when every intermediate registry fits the limit. */
  lemma {:induction false} BatchIsOneByOne(tiles: seq<Tile>, txs: seq<Replacement>)
    requires ValidTiles(tiles) && ValidReplacements(txs) && DistinctOwners(txs)
    ensures CommittedEach(tiles, txs) ==
            if forall n :: 0 <= n <= |txs| ==> Committed(tiles, txs[..n]).Some? then Committed(tiles, txs) else None
    decreases |txs|
  {
    hide Committed, ValidTiles, ValidReplacements, DistinctOwners;
    assert txs[..|txs|] == txs;
    if txs != [] {
      var front := txs[..|txs| - 1];
      FrontIsValid(txs, |txs| - 1);
      BatchIsOneByOne(tiles, front);
      forall n | 0 <= n < |txs| ensures front[..n] == txs[..n] { }
      assert front[..|front|] == front;
      if CommittedEach(tiles, front).Some? { OneMore(tiles, txs); }
    } else {
      CommitOfNothing(tiles);
    }
  }

  lemma RepeatedOwnerFails(tiles: seq<Tile>, txs: seq<Replacement>)
    requires !DistinctOwners(txs)
    ensures Committed(tiles, txs) == None
  {
  }

  /** A transaction without tiles only removes, so it never exceeds the limit. */
  lemma EmptyFits(tiles: seq<Tile>, owner: string)
    requires ValidTiles(tiles)
    ensures Committed(tiles, [Replacement(owner, [])]).Some?
  {
    hide WellKeyed, StrictlySorted;
    var txs := [Replacement(owner, [])];
    assert txs[..0] == [];
    assert Gathered(txs) == [];
    CommitSucceeds(tiles, txs);
  }

  lemma CommitOfNothing(tiles: seq<Tile>)
    ensures Committed(tiles, []) == Some(tiles)
  {
  }

  /** The order of the owners in a batch does not matter. */
  lemma BatchOrderIsIrrelevant(tiles: seq<Tile>, txs: seq<Replacement>, txs': seq<Replacement>)
    requires ValidTiles(tiles) && ValidReplacements(txs) && DistinctOwners(txs)
    requires ValidReplacements(txs') && DistinctOwners(txs')
    requires forall tx :: tx in txs <==> tx in txs'
    ensures Committed(tiles, txs) == Committed(tiles, txs')
  {
    forall t: Tile ensures Replaces(txs, t.owner) == Replaces(txs', t.owner) && Offers(txs, t) == Offers(txs', t) {
      SameMembers(txs, txs', t);
      SameMembers(txs', txs, t);
    }
    SameOutcome(tiles, txs, txs');
  }

  /** Transactions that replace the same owners by the same tiles commit alike. */
  lemma SameOutcome(tiles: seq<Tile>, txs: seq<Replacement>, txs': seq<Replacement>)
    requires ValidTiles(tiles) && ValidReplacements(txs) && DistinctOwners(txs)
    requires ValidReplacements(txs') && DistinctOwners(txs')
    requires forall t: Tile :: Replaces(txs, t.owner) == Replaces(txs', t.owner) && Offers(txs, t) == Offers(txs', t)
    ensures Committed(tiles, txs) == Committed(tiles, txs')
  {
    CommitSucceeds(tiles, txs);
    CommitSucceeds(tiles, txs');
    hide Replaces, Offers, ValidReplacements;
    if Committed(tiles, txs).Some? {
      var after := Committed(tiles, txs).value;
      hide Committed;
      forall t ensures t in after <==> (t in tiles && !Replaces(txs', t.owner)) || Offers(txs', t) {
        CommittedElements(tiles, txs, t);
      }
      OutcomeIsUnique(tiles, txs', after);
    } else if Committed(tiles, txs').Some? {
      var after := Committed(tiles, txs').value;
      hide Committed;
      forall t ensures t in after <==> (t in tiles && !Replaces(txs, t.owner)) || Offers(txs, t) {
        CommittedElements(tiles, txs', t);
      }
      OutcomeIsUnique(tiles, txs, after);
    }
  }

  lemma SameMembers(txs: seq<Replacement>, txs': seq<Replacement>, t: Tile)
    requires forall tx :: tx in txs ==> tx in txs'
    ensures Replaces(txs, t.owner) ==> Replaces(txs', t.owner)
    ensures Offers(txs, t) ==> Offers(txs', t)
  {
    if Replaces(txs, t.owner) {
      var k :| 0 <= k < |txs| && txs[k].owner == t.owner;
      assert txs[k] in txs && txs[k] in txs';
    }
    if Offers(txs, t) {
      var k :| 0 <= k < |txs| && t in txs[k].tiles;
      assert txs[k] in txs && txs[k] in txs';
    }
  }

  // --------------------------------------------------- the registry itself

  /** One owner's transaction under construction. */
  class Transaction {
    var owner: string
    var tiles: seq<Tile>

    ghost function Value(): Replacement
      reads this
    {
      Replacement(owner, tiles)
    }

    ghost predicate Valid()
      reads this
    {
      ValidReplacement(Value()) && Normalize(owner, OWNER_CAPACITY) == Some(owner)
    }

    constructor (owner: string)
      requires Normalize(owner, OWNER_CAPACITY) == Some(owner)
      ensures Valid() && Value() == Replacement(owner, [])
    {
      this.owner, tiles := owner, [];
    }

    /** Adds a tile unless the transaction is full, the definition is unacceptable or its id is taken. */
    method RegisterTile(localId: string, body: Option<Body>) returns (ok: bool)
      requires Valid()
      modifies this
      ensures Valid() && ok == Registered(old(Value()), localId, body).Some?
      ensures Value() == if ok then Registered(old(Value()), localId, body).value else old(Value())
    {
      hide Normalize, WellKeyed;
      RegisteringKeepsValid(Value(), localId, body);
      if |tiles| >= TILES_PER_OWNER { return false; }
      var built := Built(owner, localId, body);
      if built.None? { return false; }
      for i := 0 to |tiles|
        invariant forall k :: 0 <= k < i ==> tiles[k].key != built.value.key
      {
        if tiles[i].key == built.value.key { return false; }
      }
      tiles := tiles + [built.value];
      ok := true;
    }

    method Sort()
      requires Valid()
      modifies this`tiles
      ensures Valid() && tiles == SortedByKey(old(tiles))
    {
      hide WellKeyed;
      SortKeepsValid(Value());
      tiles := SortBy(tiles, NotAfter);
    }

    /** Releases the transaction's storage. */
    method Abort()
      modifies this
      ensures Value() == Replacement("", [])
    {
      owner, tiles := "", [];
    }
  }

  method Begin(owner: string) returns (tx: Transaction?)
    ensures tx != null <==> Normalize(owner, OWNER_CAPACITY).Some?
    ensures tx != null ==> fresh(tx) && tx.Valid() && tx.Value() == Replacement(Normalize(owner, OWNER_CAPACITY).value, [])
  {
    NormalizeIsStable(owner, OWNER_CAPACITY);
    var normalized := Normalize(owner, OWNER_CAPACITY);
    if normalized.None? { return null; }
    tx := new Transaction(normalized.value);
  }

  lemma SortKeepsValid(tx: Replacement)
    requires ValidReplacement(tx)
    ensures ValidReplacement(tx.(tiles := SortedByKey(tx.tiles)))
  {
    hide WellKeyed, SortedByKey;
    SortingByKey(tx.tiles);
    var r := SortedByKey(tx.tiles);
    forall i | 0 <= i < |r| ensures WellKeyed(r[i]) && r[i].owner == tx.owner {
      SameElements(r, tx.tiles, r[i]);
      assert r[i] in tx.tiles;
    }
  }

  ghost function Values(transactions: seq<Transaction>): (values: seq<Replacement>)
    reads transactions
    ensures |values| == |transactions|
    ensures forall k :: 0 <= k < |values| ==> values[k] == transactions[k].Value()
  {
    if transactions == [] then []
    else Values(transactions[..|transactions| - 1]) + [transactions[|transactions| - 1].Value()]
  }

  /** Transactions of different owners to be committed together. */
  class Batch {
    var transactions: seq<Transaction>

    ghost predicate Valid()
      reads this, transactions
    {
      && (forall k :: 0 <= k < |transactions| ==> transactions[k].Valid())
      && forall i, j :: 0 <= i < j < |transactions| ==> transactions[i].owner != transactions[j].owner
    }

    constructor ()
      ensures Valid() && transactions == []
    {
      transactions := [];
    }

    /** Refuses a second transaction of an owner. */
    method Add(tx: Transaction) returns (ok: bool)
      requires Valid() && tx.Valid()
      modifies this
      ensures Valid() && ok == forall k :: 0 <= k < |old(transactions)| ==> old(transactions)[k].owner != tx.owner
      ensures transactions == if ok then old(transactions) + [tx] else old(transactions)
    {
      hide ValidReplacement, Normalize;
      for k := 0 to |transactions|
        invariant forall i :: 0 <= i < k ==> transactions[i].owner != tx.owner
      {
        if transactions[k].owner == tx.owner { return false; }
      }
      transactions := transactions + [tx];
      ok := true;
    }

    method Abort()
      modifies this, transactions
      ensures transactions == [] && forall tx :: tx in old(transactions) ==> tx.Value() == Replacement("", [])
    {
      for k := 0 to |transactions|
        invariant transactions == old(transactions)
        invariant forall i :: 0 <= i < k ==> transactions[i].Value() == Replacement("", [])
      {
        transactions[k].Abort();
      }
      transactions := [];
    }
  }

  class Registry {
    var tiles: seq<Tile>
    var generation: nat

    ghost predicate Valid()
      reads this
    {
      ValidTiles(tiles)
    }

    constructor ()
      ensures Valid() && tiles == [] && generation == 1
    {
      tiles, generation := [], 1;
    }

    method Shutdown()
      requires Valid()
      modifies this
      ensures Valid() && tiles == [] && generation == old(generation) + 1
    {
      tiles, generation := [], generation + 1;
    }

    /** Replaces the tiles of every transaction's owner, or nothing. The transactions may come back sorted. */
    method CommitTransactions(transactions: seq<Transaction>) returns (ok: bool)
      requires Valid() && forall k :: 0 <= k < |transactions| ==> transactions[k].Valid()
      modifies this, transactions
      ensures Valid() && forall k :: 0 <= k < |transactions| ==> transactions[k].Valid()
      ensures forall k :: 0 <= k < |transactions| ==> transactions[k].owner == old(transactions[k].owner)
      ensures ok == Committed(old(tiles), old(Values(transactions))).Some?
      ensures tiles == if ok then Committed(old(tiles), old(Values(transactions))).value else old(tiles)
      ensures generation == if ok && transactions != [] then old(generation) + 1 else old(generation)
    {
      hide WellKeyed, Committed, Normalize, ValidReplacements, SameUpToOrder, DistinctOwners, Values, SortedByKey;
      ghost var values := Values(transactions);
      if transactions == [] {
        CommitOfNothing(tiles);
        return true;
      }
      ValuesAreValid(transactions, values);
      var distinct := SortAll(transactions, values);
      ValuesAreValid(transactions, values);
      if !distinct {
        RepeatedOwnerFails(tiles, values);
        return false;
      }
      SortedBatchIsSame(tiles, values, Values(transactions));
      CommitSucceeds(tiles, values);
      ok := Replace(transactions);
    }

    /** Commits one transaction, which is used up if the commit succeeds. */
    method Commit(tx: Transaction) returns (ok: bool)
      requires Valid() && tx.Valid()
      modifies this, tx
      ensures Valid() && ok == Committed(old(tiles), [old(tx.Value())]).Some?
      ensures tiles == if ok then Committed(old(tiles), [old(tx.Value())]).value else old(tiles)
      ensures generation == if ok then old(generation) + 1 else old(generation)
      ensures if ok then tx.Value() == Replacement("", []) else tx.Valid() && tx.owner == old(tx.owner)
    {
      hide Committed, ValidReplacement, Normalize;
      assert Values([tx]) == [tx.Value()];
      ok := CommitTransactions([tx]);
      assert [tx][0] == tx;
      if ok { tx.Abort(); }
    }

    /** Commits a whole batch; its transactions are used up if the commit succeeds. */
    method CommitBatch(batch: Batch) returns (ok: bool)
      requires Valid() && batch.Valid()
      modifies this, batch, batch.transactions
      ensures Valid() && ok == Committed(old(tiles), old(Values(batch.transactions))).Some?
      ensures tiles == if ok then Committed(old(tiles), old(Values(batch.transactions))).value else old(tiles)
      ensures generation == if ok && old(batch.transactions) != [] then old(generation) + 1 else old(generation)
      ensures if ok then batch.transactions == [] else batch.Valid() && batch.transactions == old(batch.transactions)
    {
      hide Committed, ValidReplacement, Normalize, Values;
      ok := CommitTransactions(batch.transactions);
      if ok { batch.Abort(); }
    }

    /** Removing an owner is committing an empty transaction for it; a proper name is always enough. */
    method RemoveOwner(owner: string) returns (ok: bool)
      requires Valid()
      modifies this
      ensures Valid() && ok == Normalize(owner, OWNER_CAPACITY).Some?
      ensures ok ==> generation == old(generation) + 1
      ensures ok ==>
        Committed(old(tiles), [Replacement(Normalize(owner, OWNER_CAPACITY).value, [])]) == Some(tiles)
      ensures !ok ==> tiles == old(tiles) && generation == old(generation)
    {
      hide Committed, Normalize;
      var tx := Begin(owner);
      if tx == null { return false; }
      EmptyFits(tiles, tx.owner);
      ok := Commit(tx);
    }

    /** The part of a commit that holds the registry's lock. */
    method Replace(transactions: seq<Transaction>) returns (ok: bool)
      requires transactions != [] && DistinctOwners(Values(transactions))
      modifies this
      ensures ok == Committed(old(tiles), Values(transactions)).Some?
      ensures tiles == if ok then Committed(old(tiles), Values(transactions)).value else old(tiles)
      ensures generation == if ok then old(generation) + 1 else old(generation)
    {
      hide Sorted, StrictlySorted, Survivors, Gathered, DistinctOwners;
      var replacement := Survive(transactions);
      replacement := Gather(replacement, transactions);
      if |replacement| > TILES_GLOBAL { return false; }
      SortingByKey(replacement);
      replacement := SortBy(replacement, NotAfter);
      var collision := AdjacentRepeat(replacement);
      if collision { return false; }
      tiles, generation := replacement, generation + 1;
      ok := true;
    }

    /** The tiles that stay, in their order. */
    method Survive(transactions: seq<Transaction>) returns (r: seq<Tile>)
      ensures r == Survivors(tiles, Values(transactions))
    {
      r := [];
      assert tiles[..0] == [];
      for i := 0 to |tiles|
        invariant r == Survivors(tiles[..i], Values(transactions))
      {
        assert tiles[..i + 1][..i] == tiles[..i];
        var replaced := OwnerInTransactions(transactions, tiles[i].owner);
        if !replaced { r := r + [tiles[i]]; }
      }
      assert tiles[..|tiles|] == tiles;
    }

    /** Finds the tile of a key by binary search. */
    method TileFind(key: string) returns (r: Option<Tile>)
      requires Valid()
      ensures r == Found(tiles, key)
    {
      FoundIsUnique(tiles);
      var normalized := NormalizeKey(key);
      if normalized.None? { return None; }
      var lo, hi := 0, |tiles|;
      while lo < hi
        invariant 0 <= lo <= hi <= |tiles|
        invariant forall i :: 0 <= i < lo ==> tiles[i].key != normalized.value
        invariant forall i :: hi <= i < |tiles| ==> tiles[i].key != normalized.value
      {
        var mid := lo + (hi - lo) / 2;
        var order := Compare(normalized.value, tiles[mid].key);
        SearchHalves(tiles, mid, normalized.value);
        if order == 0 { return Some(tiles[mid]); }
        if order < 0 { hi := mid; } else { lo := mid + 1; }
      }
      r := None;
    }
  }

  method OwnerInTransactions(transactions: seq<Transaction>, owner: string) returns (found: bool)
    ensures found == Replaces(Values(transactions), owner)
  {
    found := false;
    for k := 0 to |transactions|
      invariant found ==> Replaces(Values(transactions), owner)
      invariant !found ==> forall j :: 0 <= j < k ==> transactions[j].owner != owner
    {
      if transactions[k].owner == owner {
        assert Values(transactions)[k].owner == owner;
        found := true;
      }
    }
  }

  method Gather(start: seq<Tile>, transactions: seq<Transaction>) returns (r: seq<Tile>)
    ensures r == start + Gathered(Values(transactions))
  {
    r := start;
    ghost var values := Values(transactions);
    assert values[..0] == [];
    for k := 0 to |transactions|
      invariant r == start + Gathered(values[..k])
    {
      assert values[..k + 1][..k] == values[..k] && values[k].tiles == transactions[k].tiles;
      r := r + transactions[k].tiles;
    }
    assert values[..|values|] == values;
  }

  /** The same owners with the same tiles, perhaps in another order. */
  predicate SameUpToOrder(txs: seq<Replacement>, txs': seq<Replacement>) {
    |txs| == |txs'| && forall k :: 0 <= k < |txs| ==> SameReplacement(txs[k], txs'[k])
  }

  predicate SameReplacement(tx: Replacement, tx': Replacement) {
    tx.owner == tx'.owner && multiset(tx.tiles) == multiset(tx'.tiles)
  }

  lemma ValuesAreValid(transactions: seq<Transaction>, values: seq<Replacement>)
    requires |values| == |transactions|
    requires forall k :: 0 <= k < |transactions| ==>
               transactions[k].Valid() && SameReplacement(values[k], transactions[k].Value())
    ensures SameUpToOrder(values, Values(transactions)) && ValidReplacements(Values(transactions))
  {
    hide ValidReplacement, Normalize, Values;
  }

  /** Sorts the transactions one after the other until an owner is seen twice. */
  method SortAll(transactions: seq<Transaction>, ghost values: seq<Replacement>) returns (distinct: bool)
    requires |values| == |transactions|
    requires forall k :: 0 <= k < |transactions| ==> transactions[k].Valid() && values[k] == transactions[k].Value()
    modifies transactions
    ensures forall k :: 0 <= k < |transactions| ==>
              transactions[k].Valid() && SameReplacement(values[k], transactions[k].Value())
    ensures distinct == DistinctOwners(values)
  {
    hide ValidReplacement, Normalize, SortedByKey;
    for k := 0 to |transactions|
      invariant forall i :: 0 <= i < |transactions| ==> transactions[i].Valid()
      invariant forall i :: 0 <= i < |transactions| ==> transactions[i].owner == values[i].owner
      invariant forall i :: 0 <= i < |transactions| ==> multiset(transactions[i].tiles) == multiset(values[i].tiles)
      invariant forall i, j :: 0 <= i < k && i < j < |transactions| ==> values[i].owner != values[j].owner
    {
      transactions[k].Sort();
      for j := k + 1 to |transactions|
        invariant forall i :: k < i < j ==> values[k].owner != values[i].owner
      {
        if transactions[k].owner == transactions[j].owner { return false; }
      }
    }
    distinct := true;
  }

  /** Whether two neighbours share a key. */
  method AdjacentRepeat(tiles: seq<Tile>) returns (repeat: bool)
    requires Ordered(tiles, NotAfter)
    ensures repeat == !StrictlySorted(tiles)
  {
    var i := 1;
    while i < |tiles|
      invariant 1 <= i && forall j :: 0 < j < i && j < |tiles| ==> tiles[j - 1].key != tiles[j].key
    {
      if tiles[i - 1].key == tiles[i].key {
        CompareIsEquality(tiles[i - 1].key, tiles[i].key);
        return true;
      }
      i := i + 1;
    }
    StepwiseIsStrict(tiles);
    repeat := false;
  }

  lemma StepwiseIsStrict(tiles: seq<Tile>)
    requires Ordered(tiles, NotAfter) && forall j :: 0 < j < |tiles| ==> tiles[j - 1].key != tiles[j].key
    ensures StrictlySorted(tiles)
  {
    hide Compare;
    forall i, j | 0 <= i < j < |tiles| ensures Before(tiles[i].key, tiles[j].key) {
      CompareIsEquality(tiles[j - 1].key, tiles[j].key);
      if i < j - 1 { CompareIsTransitive(tiles[i].key, tiles[j - 1].key, tiles[j].key); }
    }
  }

  // ---------------------------------------------------------------- lookup

  predicate Has(tiles: seq<Tile>, key: string) {
    exists i :: 0 <= i < |tiles| && tiles[i].key == key
  }

  /** The tile registered under a key, whatever the case it is written in. */
  function Found(tiles: seq<Tile>, key: string): (r: Option<Tile>)
    ensures r.Some? ==> NormalizeKey(key) == Some(r.value.key) && r.value in tiles
    ensures r.None? ==> NormalizeKey(key).None? || !Has(tiles, NormalizeKey(key).value)
  {
    match NormalizeKey(key)
    case None => None
    case Some(k) => At(tiles, k)
  }

  function At(tiles: seq<Tile>, key: string): (r: Option<Tile>)
    ensures r.Some? ==> r.value.key == key && r.value in tiles
    ensures r.None? ==> !Has(tiles, key)
  {
    if tiles == [] then None
    else if tiles[|tiles| - 1].key == key then Some(tiles[|tiles| - 1])
    else
      var r := At(tiles[..|tiles| - 1], key);
      assert r.None? ==> !Has(tiles, key) by {
        assert forall i :: 0 <= i < |tiles| - 1 ==> tiles[..|tiles| - 1][i] == tiles[i];
      }
      r
  }

  lemma FoundIsUnique(tiles: seq<Tile>)
    requires StrictlySorted(tiles)
    ensures forall i :: 0 <= i < |tiles| ==> At(tiles, tiles[i].key) == Some(tiles[i])
  {
    StrictIsDistinct(tiles);
    forall i | 0 <= i < |tiles| ensures At(tiles, tiles[i].key) == Some(tiles[i]) {
      var r := At(tiles, tiles[i].key);
      assert Has(tiles, tiles[i].key);
      var j :| 0 <= j < |tiles| && tiles[j] == r.value;
    }
  }

  lemma SearchHalves(tiles: seq<Tile>, mid: nat, key: string)
    requires StrictlySorted(tiles) && mid < |tiles|
    ensures Compare(key, tiles[mid].key) == 0 <==> key == tiles[mid].key
    ensures Compare(key, tiles[mid].key) < 0 ==> forall i :: mid <= i < |tiles| ==> tiles[i].key != key
    ensures Compare(key, tiles[mid].key) > 0 ==> forall i :: 0 <= i <= mid ==> tiles[i].key != key
  {
    CompareIsEquality(key, tiles[mid].key);
    CompareIsAntisymmetric(key, tiles[mid].key);
    hide Compare;
    forall i | 0 <= i < |tiles| && tiles[i].key == key
      ensures Compare(key, tiles[mid].key) < 0 ==> i < mid
      ensures Compare(key, tiles[mid].key) > 0 ==> mid < i
    {
      CompareIsAntisymmetric(tiles[i].key, tiles[mid].key);
    }
  }

  /** Sorting each transaction first does not change what a commit does. */
  lemma SortedBatchIsSame(tiles: seq<Tile>, txs: seq<Replacement>, txs': seq<Replacement>)
    requires ValidTiles(tiles) && ValidReplacements(txs) && DistinctOwners(txs) && ValidReplacements(txs')
    requires SameUpToOrder(txs, txs')
    ensures Committed(tiles, txs) == Committed(tiles, txs') && DistinctOwners(txs')
  {
    forall t: Tile ensures Replaces(txs, t.owner) == Replaces(txs', t.owner) && Offers(txs, t) == Offers(txs', t) {
      SameOffers(txs, txs', t);
      SameOffers(txs', txs, t);
    }
    assert forall k :: 0 <= k < |txs| ==> SameReplacement(txs[k], txs'[k]);
    SameOutcome(tiles, txs, txs');
  }

  lemma SameOffers(txs: seq<Replacement>, txs': seq<Replacement>, t: Tile)
    requires |txs| == |txs'|
    requires forall k :: 0 <= k < |txs| ==> SameReplacement(txs[k], txs'[k]) || SameReplacement(txs'[k], txs[k])
    ensures Replaces(txs, t.owner) ==> Replaces(txs', t.owner)
    ensures Offers(txs, t) ==> Offers(txs', t)
  {
    if Replaces(txs, t.owner) {
      var k :| 0 <= k < |txs| && txs[k].owner == t.owner;
      assert txs'[k].owner == t.owner;
    }
    if Offers(txs, t) {
      var k :| 0 <= k < |txs| && t in txs[k].tiles;
      SameElements(txs[k].tiles, txs'[k].tiles, t);
    }
  }
}
