/**
 Collection resolution: expanding a list of workshop collection ids into the
 list of workshop item ids they contain (`get_collection_workshop_ids`).

 The remote catalog is a map from a collection id to its children, in the
 order the catalog lists them. A lookup returns the known collections among
 the requested ids, in request order; ids the catalog does not know are
 dropped, which is how a response can hold fewer collections than were asked for.

 The source recurses into nested collections without any cycle check. The model
 asks for a `rank` on collections that strictly decreases along every
 nested-collection edge; the rank is ghost and only serves termination.
 */
module Collections {
  import opened Seqs

  type FileId = string

  /** Child file type of a plain workshop item. */
  const ItemType: int := 0
  /** Child file type of a nested collection. */
  const CollectionType: int := 2

  datatype Child = Child(id: FileId, filetype: int)

  datatype Collection = Collection(id: FileId, children: seq<Child>)

  type Catalog = map<FileId, seq<Child>>

  /** The collection-details lookup: the known collections among `ids`, in request order. */
  function Lookup(cat: Catalog, ids: seq<FileId>): (r: seq<Collection>)
    ensures |r| <= |ids|
    ensures forall c :: c in r ==> c.id in ids && c.id in cat && c.children == cat[c.id]
    ensures forall id :: id in ids && id in cat ==> Collection(id, cat[id]) in r
  {
    if ids == [] then []
    else (if ids[0] in cat then [Collection(ids[0], cat[ids[0]])] else []) + Lookup(cat, ids[1..])
  }

  /** `rank` witnesses that following nested-collection children always terminates. */
  ghost predicate Ranked(cat: Catalog, rank: map<FileId, nat>) {
    && cat.Keys <= rank.Keys
    && forall id, ch :: id in cat && ch in cat[id] && ch.filetype == CollectionType && ch.id in cat ==>
         rank[ch.id] < rank[id]
  }

  ghost function Weight(rank: map<FileId, nat>, cols: seq<Collection>): nat {
    if cols == [] then 0
    else (if cols[0].id in rank then rank[cols[0].id] else 0) + 1 + Weight(rank, cols[1..])
  }

  /** `get_collection_workshop_ids(ids, nested)`. */
  function Resolve(cat: Catalog, ghost rank: map<FileId, nat>, ids: seq<FileId>, nested: bool): (r: seq<FileId>)
    requires Ranked(cat, rank)
    decreases Weight(rank, Lookup(cat, ids)), 2, 0
  {
    Walk(cat, rank, Lookup(cat, ids), [], nested)
  }

  /** The loop over the looked-up collections, threading the accumulated item list. */
  function Walk(cat: Catalog, ghost rank: map<FileId, nat>, cols: seq<Collection>, acc: seq<FileId>, nested: bool): (r: seq<FileId>)
    requires Ranked(cat, rank)
    requires forall c :: c in cols ==> c.id in cat && c.children == cat[c.id]
    ensures |acc| <= |r| && r[..|acc|] == acc
    decreases Weight(rank, cols), 1, |cols|
  {
    if cols == [] then acc
    else Walk(cat, rank, cols[1..], Visit(cat, rank, cols[0], 0, acc, nested), nested)
  }

  /** The loop over the children of one collection, from index `k` on. */
  function Visit(cat: Catalog, ghost rank: map<FileId, nat>, col: Collection, k: nat, acc: seq<FileId>, nested: bool): (r: seq<FileId>)
    requires Ranked(cat, rank)
    requires col.id in cat && col.children == cat[col.id]
    requires k <= |col.children|
    ensures |acc| <= |r| && r[..|acc|] == acc
    decreases rank[col.id] + 1, 0, |col.children| - k
  {
    if k == |col.children| then acc
    else Visit(cat, rank, col, k + 1, Step(cat, rank, col, k, acc, nested), nested)
  }

  /**
   One iteration for child `k`: a nested collection (when `nested`) has its own
   resolution appended without deduplication, an item is appended unless already
   present, any other child is skipped. The nested resolution always runs with
   `nested = true`, the default of the source.
   */
  function Step(cat: Catalog, ghost rank: map<FileId, nat>, col: Collection, k: nat, acc: seq<FileId>, nested: bool): (r: seq<FileId>)
    requires Ranked(cat, rank)
    requires col.id in cat && col.children == cat[col.id]
    requires k < |col.children|
    decreases rank[col.id] + 1, 0, |col.children| - k - 1
  {
    var c := col.children[k];
    if nested && c.filetype == CollectionType then
      assert Weight(rank, Lookup(cat, [c.id])) <= rank[col.id] by {
        assert c in cat[col.id];
        assert Lookup(cat, [c.id])
            == (if c.id in cat then [Collection(c.id, cat[c.id])] else []) + Lookup(cat, []);
      }
      acc + Resolve(cat, rank, [c.id], true)
    else if c.filetype == ItemType then
      (if c.id in acc then acc else acc + [c.id])
    else acc
  }

  // ---------------------------------------------------------------------------
  // Reference semantics: which items a collection contributes

  /**
   `x` is a plain item of collection `cid`, or of a collection reachable from
   `cid` through at most `depth` nested-collection children.
   */
  ghost predicate Under(cat: Catalog, x: FileId, cid: FileId, depth: nat)
    decreases depth
  {
    && cid in cat
    && (|| Child(x, ItemType) in cat[cid]
        || (depth > 0 && exists ch :: ch in cat[cid] && ch.filetype == CollectionType && Under(cat, x, ch.id, depth - 1)))
  }

  /** `x` is contributed by one of the requested collections (directly, unless `nested`). */
  ghost predicate Contributed(cat: Catalog, ids: seq<FileId>, x: FileId, nested: bool) {
    exists id, d :: id in ids && Under(cat, x, id, d) && (nested || d == 0)
  }

  /** What child `c` of a collection contributes `x` through, within depth `d`. */
  ghost predicate ChildYields(cat: Catalog, c: Child, x: FileId, nested: bool, d: nat) {
    || c == Child(x, ItemType)
    || (nested && c.filetype == CollectionType && d > 0 && Under(cat, x, c.id, d - 1))
  }

  // ---------------------------------------------------------------------------
  // Soundness: every returned id is contributed by a requested collection

  lemma {:induction false} ResolveSound(cat: Catalog, rank: map<FileId, nat>, ids: seq<FileId>, nested: bool, x: FileId)
    requires Ranked(cat, rank)
    requires x in Resolve(cat, rank, ids, nested)
    ensures Contributed(cat, ids, x, nested)
    decreases Weight(rank, Lookup(cat, ids)), 2, 0
  {
    var cols := Lookup(cat, ids);
    WalkSound(cat, rank, cols, [], nested, x);
    var j, d :| 0 <= j < |cols| && Under(cat, x, cols[j].id, d) && (nested || d == 0);
    assert cols[j] in cols;
  }

  lemma {:induction false} WalkSound(cat: Catalog, rank: map<FileId, nat>, cols: seq<Collection>, acc: seq<FileId>, nested: bool, x: FileId)
    requires Ranked(cat, rank)
    requires forall c :: c in cols ==> c.id in cat && c.children == cat[c.id]
    requires x in Walk(cat, rank, cols, acc, nested)
    ensures x in acc || exists j, d :: 0 <= j < |cols| && Under(cat, x, cols[j].id, d) && (nested || d == 0)
    decreases Weight(rank, cols), 1, |cols|
  {
    if cols != [] {
      var acc' := Visit(cat, rank, cols[0], 0, acc, nested);
      WalkSound(cat, rank, cols[1..], acc', nested, x);
      if x in acc' {
        VisitSound(cat, rank, cols[0], 0, acc, nested, x);
      } else {
        var j, d :| 0 <= j < |cols[1..]| && Under(cat, x, cols[1..][j].id, d) && (nested || d == 0);
        assert cols[1..][j] == cols[j + 1];
      }
    }
  }

  lemma {:induction false} VisitSound(cat: Catalog, rank: map<FileId, nat>, col: Collection, k: nat, acc: seq<FileId>, nested: bool, x: FileId)
    requires Ranked(cat, rank)
    requires col.id in cat && col.children == cat[col.id]
    requires k <= |col.children|
    requires x in Visit(cat, rank, col, k, acc, nested)
    ensures x in acc || exists d :: Under(cat, x, col.id, d) && (nested || d == 0)
    decreases rank[col.id] + 1, 0, |col.children| - k
  {
    if k < |col.children| {
      var c := col.children[k];
      assert c in cat[col.id];
      var acc' := Step(cat, rank, col, k, acc, nested);
      VisitSound(cat, rank, col, k + 1, acc', nested, x);
      if x !in acc && x in acc' {
        StepSound(cat, rank, col, k, acc, nested, x);
      }
    }
  }

  lemma {:induction false} StepSound(cat: Catalog, rank: map<FileId, nat>, col: Collection, k: nat, acc: seq<FileId>, nested: bool, x: FileId)
    requires Ranked(cat, rank)
    requires col.id in cat && col.children == cat[col.id]
    requires k < |col.children|
    requires x in Step(cat, rank, col, k, acc, nested)
    ensures x in acc || exists d :: Under(cat, x, col.id, d) && (nested || d == 0)
    decreases rank[col.id] + 1, 0, |col.children| - k - 1
  {
    var c := col.children[k];
    assert c in cat[col.id];
    if x !in acc {
      if nested && c.filetype == CollectionType {
        assert Weight(rank, Lookup(cat, [c.id])) <= rank[col.id] by {
          assert Lookup(cat, [c.id])
              == (if c.id in cat then [Collection(c.id, cat[c.id])] else []) + Lookup(cat, []);
        }
        ResolveSound(cat, rank, [c.id], true, x);
        var id: FileId, d: nat :| id in [c.id] && Under(cat, x, id, d);
        assert id == c.id;
        assert Under(cat, x, col.id, d + 1);
      } else {
        assert c == Child(x, ItemType);
        assert Under(cat, x, col.id, 0);
      }
    }
  }

  // ---------------------------------------------------------------------------
  // Completeness: every contributed item is returned

  lemma {:induction false} ResolveComplete(cat: Catalog, rank: map<FileId, nat>, ids: seq<FileId>, nested: bool, x: FileId, id: FileId, d: nat)
    requires Ranked(cat, rank)
    requires id in ids && Under(cat, x, id, d) && (nested || d == 0)
    ensures x in Resolve(cat, rank, ids, nested)
    decreases d, 2, 0
  {
    var cols := Lookup(cat, ids);
    assert Collection(id, cat[id]) in cols;
    var j :| 0 <= j < |cols| && cols[j] == Collection(id, cat[id]);
    WalkComplete(cat, rank, cols, [], nested, x, j, d);
  }

  lemma {:induction false} WalkComplete(cat: Catalog, rank: map<FileId, nat>, cols: seq<Collection>, acc: seq<FileId>, nested: bool, x: FileId, j: nat, d: nat)
    requires Ranked(cat, rank)
    requires forall c :: c in cols ==> c.id in cat && c.children == cat[c.id]
    requires j < |cols| && Under(cat, x, cols[j].id, d) && (nested || d == 0)
    ensures x in Walk(cat, rank, cols, acc, nested)
    decreases d, 1, |cols|
  {
    var col := cols[0];
    assert col in cols;
    var acc' := Visit(cat, rank, col, 0, acc, nested);
    if j == 0 {
      var i: nat;
      if Child(x, ItemType) in col.children {
        i :| i < |col.children| && col.children[i] == Child(x, ItemType);
      } else {
        var ch :| ch in cat[col.id] && ch.filetype == CollectionType && Under(cat, x, ch.id, d - 1);
        i :| i < |col.children| && col.children[i] == ch;
      }
      VisitComplete(cat, rank, col, 0, acc, nested, x, i, d);
      var r := Walk(cat, rank, cols[1..], acc', nested);
      assert r[..|acc'|] == acc';
    } else {
      assert cols[1..][j - 1] == cols[j];
      WalkComplete(cat, rank, cols[1..], acc', nested, x, j - 1, d);
    }
  }

  lemma {:induction false} VisitComplete(cat: Catalog, rank: map<FileId, nat>, col: Collection, k: nat, acc: seq<FileId>, nested: bool, x: FileId, i: nat, d: nat)
    requires Ranked(cat, rank)
    requires col.id in cat && col.children == cat[col.id]
    requires k <= i < |col.children|
    requires ChildYields(cat, col.children[i], x, nested, d)
    ensures x in Visit(cat, rank, col, k, acc, nested)
    decreases d, 0, |col.children| - k
  {
    var acc' := Step(cat, rank, col, k, acc, nested);
    if i == k {
      var c := col.children[k];
      if c == Child(x, ItemType) {
        assert x in acc';
      } else {
        ResolveComplete(cat, rank, [c.id], true, x, c.id, d - 1);
        assert x in acc';
      }
      var r := Visit(cat, rank, col, k + 1, acc', nested);
      assert r[..|acc'|] == acc';
    } else {
      VisitComplete(cat, rank, col, k + 1, acc', nested, x, i, d);
    }
  }

  /**
   The returned ids are exactly the plain items of the requested collections
   and, when `nested`, of every collection reachable through nested children.
   */
  lemma ResolveMembership(cat: Catalog, rank: map<FileId, nat>, ids: seq<FileId>, nested: bool, x: FileId)
    requires Ranked(cat, rank)
    ensures x in Resolve(cat, rank, ids, nested) <==> Contributed(cat, ids, x, nested)
  {
    if x in Resolve(cat, rank, ids, nested) {
      ResolveSound(cat, rank, ids, nested, x);
    }
    if Contributed(cat, ids, x, nested) {
      var id, d :| id in ids && Under(cat, x, id, d) && (nested || d == 0);
      ResolveComplete(cat, rank, ids, nested, x, id, d);
    }
  }

  // ---------------------------------------------------------------------------
  // Without nesting: deduplicated, in order of first discovery

  /** Ids of the plain-item children, in order. */
  function ItemIds(children: seq<Child>): (r: seq<FileId>)
    ensures forall x :: x in r <==> exists c :: c in children && c.filetype == ItemType && c.id == x
  {
    if children == [] then []
    else (if children[0].filetype == ItemType then [children[0].id] else []) + ItemIds(children[1..])
  }

  /** The plain items of the collections, collection by collection, repeats included. */
  function DirectItems(cols: seq<Collection>): seq<FileId> {
    if cols == [] then [] else ItemIds(cols[0].children) + DirectItems(cols[1..])
  }

  predicate NoNestedChildren(cols: seq<Collection>) {
    forall c, ch :: c in cols && ch in c.children ==> ch.filetype != CollectionType
  }

  lemma VisitItemStep(cat: Catalog, rank: map<FileId, nat>, col: Collection, k: nat, acc: seq<FileId>, nested: bool)
    requires Ranked(cat, rank)
    requires col.id in cat && col.children == cat[col.id]
    requires k < |col.children| && col.children[k].filetype == ItemType
    ensures var id := col.children[k].id;
            Visit(cat, rank, col, k, acc, nested) == Visit(cat, rank, col, k + 1, if id in acc then acc else acc + [id], nested)
  {
  }

  lemma VisitSkipStep(cat: Catalog, rank: map<FileId, nat>, col: Collection, k: nat, acc: seq<FileId>, nested: bool)
    requires Ranked(cat, rank)
    requires col.id in cat && col.children == cat[col.id]
    requires k < |col.children| && col.children[k].filetype != ItemType
    requires !(nested && col.children[k].filetype == CollectionType)
    ensures Visit(cat, rank, col, k, acc, nested) == Visit(cat, rank, col, k + 1, acc, nested)
  {
  }

  lemma {:induction false} VisitFlat(cat: Catalog, rank: map<FileId, nat>, col: Collection, k: nat, pre: seq<FileId>, nested: bool)
    requires Ranked(cat, rank)
    requires col.id in cat && col.children == cat[col.id]
    requires k <= |col.children|
    requires !nested || forall ch :: ch in col.children ==> ch.filetype != CollectionType
    ensures Visit(cat, rank, col, k, Dedup(pre), nested) == Dedup(pre + ItemIds(col.children[k..]))
    decreases |col.children| - k
  {
    if k == |col.children| {
      assert pre + ItemIds(col.children[k..]) == pre;
    } else {
      var c := col.children[k];
      assert c in col.children;
      var rest := col.children[k + 1..];
      var tail := col.children[k..];
      assert tail[0] == c && tail[1..] == rest;
      if c.filetype == ItemType {
        assert ItemIds(tail) == [c.id] + ItemIds(rest);
        VisitItemStep(cat, rank, col, k, Dedup(pre), nested);
        DedupAppendOne(pre, c.id);
        VisitFlat(cat, rank, col, k + 1, pre + [c.id], nested);
        AppendAssoc(pre, [c.id], ItemIds(rest));
      } else {
        assert ItemIds(tail) == ItemIds(rest);
        VisitSkipStep(cat, rank, col, k, Dedup(pre), nested);
        VisitFlat(cat, rank, col, k + 1, pre, nested);
      }
    }
  }

  lemma {:induction false} WalkFlat(cat: Catalog, rank: map<FileId, nat>, cols: seq<Collection>, pre: seq<FileId>, nested: bool)
    requires Ranked(cat, rank)
    requires forall c :: c in cols ==> c.id in cat && c.children == cat[c.id]
    requires !nested || NoNestedChildren(cols)
    ensures Walk(cat, rank, cols, Dedup(pre), nested) == Dedup(pre + DirectItems(cols))
  {
    if cols == [] {
      assert pre + DirectItems(cols) == pre;
    } else {
      var col := cols[0];
      assert col in cols;
      assert !nested || forall ch :: ch in col.children ==> ch.filetype != CollectionType;
      VisitFlat(cat, rank, col, 0, pre, nested);
      assert col.children[0..] == col.children;
      var pre' := pre + ItemIds(col.children);
      var rest := cols[1..];
      assert forall c :: c in rest ==> c in cols;
      WalkFlat(cat, rank, rest, pre', nested);
      assert Walk(cat, rank, cols, Dedup(pre), nested) == Walk(cat, rank, rest, Dedup(pre'), nested);
      AppendAssoc(pre, ItemIds(col.children), DirectItems(rest));
    }
  }

  /**
   When nothing is expanded (nesting off, or no nested child among the requested
   collections) the result is the deduplicated list of their plain items, each at
   its first occurrence, and holds no id twice.
   */
  lemma ResolveWithoutNesting(cat: Catalog, rank: map<FileId, nat>, ids: seq<FileId>, nested: bool)
    requires Ranked(cat, rank)
    requires !nested || NoNestedChildren(Lookup(cat, ids))
    ensures Resolve(cat, rank, ids, nested) == Dedup(DirectItems(Lookup(cat, ids)))
    ensures NoDuplicates(Resolve(cat, rank, ids, nested))
  {
    var cols := Lookup(cat, ids);
    assert Dedup<FileId>([]) == [];
    WalkFlat(cat, rank, cols, [], nested);
    assert [] + DirectItems(cols) == DirectItems(cols);
    DedupNoDuplicates(DirectItems(cols));
  }

  // ---------------------------------------------------------------------------
  // Concrete catalogs

  lemma ResolveSingle(cat: Catalog, rank: map<FileId, nat>, id: FileId, nested: bool)
    requires Ranked(cat, rank)
    requires id in cat
    ensures Resolve(cat, rank, [id], nested) == Visit(cat, rank, Collection(id, cat[id]), 0, [], nested)
  {
    var col := Collection(id, cat[id]);
    assert Lookup(cat, [id]) == [col] by {
      assert [id][1..] == [];
    }
    assert [col][1..] == [];
    assert Resolve(cat, rank, [id], nested) == Walk(cat, rank, [col], [], nested);
    assert Walk(cat, rank, [col], [], nested) == Walk(cat, rank, [], Visit(cat, rank, col, 0, [], nested), nested);
  }

  /**
   One collection holding two items and a nested collection with a third item
   resolves to the three distinct ids, in discovery order.
   */
  lemma NestedScenario()
    ensures var cat := map["10" := [Child("1", ItemType), Child("2", ItemType), Child("20", CollectionType)],
                           "20" := [Child("3", ItemType)]];
            var rank := map["10" := 1, "20" := 0];
            Ranked(cat, rank) && Resolve(cat, rank, ["10"], true) == ["1", "2", "3"]
  {
    var cat := map["10" := [Child("1", ItemType), Child("2", ItemType), Child("20", CollectionType)],
                   "20" := [Child("3", ItemType)]];
    var rank := map["10" := 1, "20" := 0];
    var c10 := Collection("10", cat["10"]);
    var c20 := Collection("20", cat["20"]);
    assert Resolve(cat, rank, ["20"], true) == ["3"] by {
      ResolveSingle(cat, rank, "20", true);
      VisitItemStep(cat, rank, c20, 0, [], true);
    }
    ResolveSingle(cat, rank, "10", true);
    VisitItemStep(cat, rank, c10, 0, [], true);
    VisitItemStep(cat, rank, c10, 1, ["1"], true);
    assert "2" !in ["1"] by { assert "2"[0] != "1"[0]; }
    calc {
      Resolve(cat, rank, ["10"], true);
      Visit(cat, rank, c10, 0, [], true);
      { assert [] + ["1"] == ["1"]; }
      Visit(cat, rank, c10, 1, ["1"], true);
      { assert ["1"] + ["2"] == ["1", "2"]; }
      Visit(cat, rank, c10, 2, ["1", "2"], true);
      { assert ["1", "2"] + ["3"] == ["1", "2", "3"]; }
      ["1", "2", "3"];
    }
  }

  /**
   A nested collection's items are concatenated without deduplication: an item
   the parent lists before a nested collection that also holds it comes back twice.
   */
  lemma NestedResultsMayRepeat()
    ensures var cat := map["1" := [Child("5", ItemType), Child("2", CollectionType)],
                           "2" := [Child("5", ItemType)]];
            var rank := map["1" := 1, "2" := 0];
            Ranked(cat, rank) && Resolve(cat, rank, ["1"], true) == ["5", "5"]
  {
    var cat := map["1" := [Child("5", ItemType), Child("2", CollectionType)],
                   "2" := [Child("5", ItemType)]];
    var rank := map["1" := 1, "2" := 0];
    var c1 := Collection("1", cat["1"]);
    var c2 := Collection("2", cat["2"]);
    assert Resolve(cat, rank, ["2"], true) == ["5"] by {
      ResolveSingle(cat, rank, "2", true);
      VisitItemStep(cat, rank, c2, 0, [], true);
    }
    ResolveSingle(cat, rank, "1", true);
    VisitItemStep(cat, rank, c1, 0, [], true);
    calc {
      Resolve(cat, rank, ["1"], true);
      Visit(cat, rank, c1, 0, [], true);
      { assert [] + ["5"] == ["5"]; }
      Visit(cat, rank, c1, 1, ["5"], true);
      { assert ["5"] + ["5"] == ["5", "5"]; }
      ["5", "5"];
    }
  }
}
