// The records a table holds: what is in its pages, each within the bounds the page is filed under.
module TableContents {
  import opened Base
  import opened Records
  import opened TreeView
  import opened TreeSearch
  import opened TreePages
  import opened TableState
  import opened LeafPages
  import opened PageSearch

  function Max(a: int, b: int): int { if a < b then b else a }

  ghost predicate InPage(pages: map<Addr, seq<Record>>, filed: map<Addr, Filed>, q: Addr, r: Record) {
    q in filed && q in pages && r in pages[q]
  }

  /** Page q's records are in ascending order of key, within the bounds it is filed under. */
  ghost predicate PageSound(pages: map<Addr, seq<Record>>, filed: map<Addr, Filed>, q: Addr) {
    && q in filed && q in pages && SortedRecords(pages[q])
    && forall i {:trigger pages[q][i]} :: 0 <= i < |pages[q]| ==> filed[q].lo < pages[q][i].key <= filed[q].hi
  }

  ghost predicate Kept(pages: map<Addr, seq<Record>>, filed: map<Addr, Filed>, contents: map<Key, Record>, k: Key) {
    k in contents && contents[k].key == k && exists q {:trigger InPage(pages, filed, q, contents[k])} :: InPage(pages, filed, q, contents[k])
  }

  /** The pages hold exactly the records of contents. */
  ghost predicate Stored(pages: map<Addr, seq<Record>>, filed: map<Addr, Filed>, contents: map<Key, Record>) {
    && (forall q {:trigger PageSound(pages, filed, q)} :: q in filed ==> PageSound(pages, filed, q))
    && (forall q, r {:trigger InPage(pages, filed, q, r)} :: InPage(pages, filed, q, r) ==> r.key in contents && contents[r.key] == r)
    && (forall k {:trigger Kept(pages, filed, contents, k)} :: k in contents ==> Kept(pages, filed, contents, k))
  }

  /** Every page but exc fits in its place, and only a page on its own can be empty. */
  ghost predicate PageFits(keySize: nat, capacity: nat, pages: map<Addr, seq<Record>>, filed: map<Addr, Filed>, q: Addr) {
    q in pages && Used(keySize, pages[q]) <= capacity && (pages[q] == [] ==> filed.Keys == {q})
  }

  ghost predicate AllFit(keySize: nat, capacity: nat, pages: map<Addr, seq<Record>>, filed: map<Addr, Filed>, exc: int) {
    forall q {:trigger PageFits(keySize, capacity, pages, filed, q)} :: q in filed && q != exc ==> PageFits(keySize, capacity, pages, filed, q)
  }

  lemma FitsAt(pages: map<Addr, seq<Record>>, f: map<Addr, Filed>, q: Addr, keySize: nat, capacity: nat)
    requires AllFit(keySize, capacity, pages, f, -1) && q in f
    ensures PageFits(keySize, capacity, pages, f, q)
  {
  }

  // ---- bounds that move

  ghost predicate BoundsKept(f: map<Addr, Filed>, g: map<Addr, Filed>) {
    && g.Keys == f.Keys
    && forall q {:trigger g[q]} :: q in f ==> g[q].lo <= f[q].lo && f[q].hi <= g[q].hi
  }

  lemma WiderBounds(pages: map<Addr, seq<Record>>, f: map<Addr, Filed>, g: map<Addr, Filed>, contents: map<Key, Record>,
                    keySize: nat, capacity: nat, exc: int)
    requires Stored(pages, f, contents) && BoundsKept(f, g) && AllFit(keySize, capacity, pages, f, exc)
    ensures Stored(pages, g, contents)
    ensures AllFit(keySize, capacity, pages, g, exc)
  {
    hide SortedRecords, Used;
    forall q | q in g ensures PageSound(pages, g, q) { assert PageSound(pages, f, q); }
    forall q, r | InPage(pages, g, q, r) ensures r.key in contents && contents[r.key] == r { assert InPage(pages, f, q, r); }
    forall k | k in contents ensures Kept(pages, g, contents, k) {
      assert Kept(pages, f, contents, k);
      var q :| InPage(pages, f, q, contents[k]);
      assert InPage(pages, g, q, contents[k]);
    }
    forall q | q in g && q != exc ensures PageFits(keySize, capacity, pages, g, q) { assert PageFits(keySize, capacity, pages, f, q); }
  }

  // ---- one page's records changed

  /** Page q's records, changed, and its bounds widened; every other page is as it was. */
  ghost predicate OnePage(pages: map<Addr, seq<Record>>, f: map<Addr, Filed>, newPages: map<Addr, seq<Record>>, g: map<Addr, Filed>,
                          q: Addr, recs: seq<Record>) {
    q in f && q in pages && newPages == pages[q := recs] && BoundsKept(f, g) && PageSound(newPages, g, q)
  }

  lemma ElsewhereSound(pages: map<Addr, seq<Record>>, f: map<Addr, Filed>, newPages: map<Addr, seq<Record>>, g: map<Addr, Filed>,
                       q: Addr, recs: seq<Record>, contents: map<Key, Record>)
    requires Stored(pages, f, contents) && OnePage(pages, f, newPages, g, q, recs)
    ensures forall x {:trigger PageSound(newPages, g, x)} :: x in g ==> PageSound(newPages, g, x)
    ensures forall x, r {:trigger InPage(newPages, g, x, r)} {:trigger InPage(pages, f, x, r)} :: x != q ==> (InPage(newPages, g, x, r) <==> InPage(pages, f, x, r))
  {
    hide SortedRecords;
    forall x | x in g ensures PageSound(newPages, g, x) { if x != q { assert PageSound(pages, f, x); } }
  }

  /** A record whose key no page holds is added to page q. */
  lemma AddRecord(pages: map<Addr, seq<Record>>, f: map<Addr, Filed>, newPages: map<Addr, seq<Record>>, g: map<Addr, Filed>,
                  q: Addr, r: Record, contents: map<Key, Record>)
    requires Stored(pages, f, contents) && r.key !in contents && q in pages
    requires OnePage(pages, f, newPages, g, q, InsertAt(pages[q], Position(pages[q], r.key), r))
    ensures Stored(newPages, g, contents[r.key := r])
  {
    hide SortedRecords, Position, InsertAt;
    var recs, c := InsertAt(pages[q], Position(pages[q], r.key), r), contents[r.key := r];
    InsertMembers(pages[q], Position(pages[q], r.key), r);
    ElsewhereSound(pages, f, newPages, g, q, recs, contents);
    forall x, s | InPage(newPages, g, x, s) ensures s.key in c && c[s.key] == s {
      assert InPage(pages, f, x, s) || s == r;
    }
    forall k | k in c ensures Kept(newPages, g, c, k) {
      if k == r.key {
        assert InPage(newPages, g, q, r);
      } else {
        assert Kept(pages, f, contents, k);
        var x :| InPage(pages, f, x, contents[k]);
        assert InPage(newPages, g, x, contents[k]);
      }
    }
  }

  /** Record i of page q is replaced by one with the same key. */
  lemma ChangeRecord(pages: map<Addr, seq<Record>>, f: map<Addr, Filed>, newPages: map<Addr, seq<Record>>, g: map<Addr, Filed>,
                     q: Addr, i: nat, r: Record, contents: map<Key, Record>)
    requires Stored(pages, f, contents) && q in pages && i < |pages[q]| && pages[q][i].key == r.key
    requires OnePage(pages, f, newPages, g, q, pages[q][i := r])
    requires OnlyIn(pages, f, q, r.key)
    ensures r.key in contents && Stored(newPages, g, contents[r.key := r])
  {
    var recs, c := pages[q][i := r], contents[r.key := r];
    assert InPage(pages, f, q, pages[q][i]) && PageSound(pages, f, q);
    assert recs[i] == r;
    ElsewhereSound(pages, f, newPages, g, q, recs, contents);
    forall x, s | InPage(newPages, g, x, s) ensures s.key in c && c[s.key] == s {
      assert InPage(pages, f, x, s) || s == r;
      assert x != q ==> s.key != r.key;
      if x == q { var j :| 0 <= j < |recs| && recs[j] == s; }
    }
    forall k | k in c ensures Kept(newPages, g, c, k) {
      if k == r.key {
        assert InPage(newPages, g, q, r);
      } else {
        assert Kept(pages, f, contents, k);
        var x :| InPage(pages, f, x, contents[k]);
        if x == q { var j :| 0 <= j < |pages[q]| && pages[q][j] == contents[k]; assert recs[j] == contents[k]; }
        assert InPage(newPages, g, x, contents[k]);
      }
    }
  }

  /** No page but q holds a record with key k. */
  ghost predicate OnlyIn(pages: map<Addr, seq<Record>>, f: map<Addr, Filed>, q: Addr, k: Key) {
    forall x, r {:trigger InPage(pages, f, x, r)} :: InPage(pages, f, x, r) && r.key == k ==> x == q
  }

  lemma DropRecord(pages: map<Addr, seq<Record>>, f: map<Addr, Filed>, newPages: map<Addr, seq<Record>>, g: map<Addr, Filed>,
                   q: Addr, i: nat, contents: map<Key, Record>)
    requires Stored(pages, f, contents) && q in pages && i < |pages[q]|
    requires OnePage(pages, f, newPages, g, q, RemoveAt(pages[q], i))
    requires OnlyIn(pages, f, q, pages[q][i].key)
    ensures pages[q][i].key in contents && Stored(newPages, g, contents - {pages[q][i].key})
  {
    var recs, c, k0 := RemoveAt(pages[q], i), contents - {pages[q][i].key}, pages[q][i].key;
    assert InPage(pages, f, q, pages[q][i]) && PageSound(pages, f, q);
    RemoveSorted(pages[q], i);
    ElsewhereSound(pages, f, newPages, g, q, recs, contents);
    hide RemoveAt;
    forall x, s | InPage(newPages, g, x, s) ensures s.key in c && c[s.key] == s {
      assert InPage(pages, f, x, s);
      assert x != q ==> s.key != k0;
    }
    forall k | k in c ensures Kept(newPages, g, c, k) {
      assert Kept(pages, f, contents, k);
      var x :| InPage(pages, f, x, contents[k]);
      assert InPage(newPages, g, x, contents[k]);
    }
  }

  /** An empty page holds nothing, so it can go. */
  lemma DropPage(pages: map<Addr, seq<Record>>, f: map<Addr, Filed>, q: Addr, contents: map<Key, Record>)
    requires Stored(pages, f, contents) && q in f && q in pages && pages[q] == []
    ensures Stored(pages, f - {q}, contents)
  {
    hide SortedRecords;
    var g := f - {q};
    forall x | x in g ensures PageSound(pages, g, x) { assert PageSound(pages, f, x); }
    forall x, s | InPage(pages, g, x, s) ensures s.key in contents && contents[s.key] == s { assert InPage(pages, f, x, s); }
    forall k | k in contents ensures Kept(pages, g, contents, k) {
      assert Kept(pages, f, contents, k);
      var x :| InPage(pages, f, x, contents[k]);
      assert InPage(pages, g, x, contents[k]);
    }
  }

  // ---- a page cut in two

  /** Page q filed under mid instead, and a new page x under the keys from there up to hi. */
  ghost function CutBounds(f: map<Addr, Filed>, q: Addr, x: Addr, mid: int, hi: int): map<Addr, Filed>
    requires q in f
  {
    f[q := f[q].(hi := mid)][x := Filed(0, mid, hi)]
  }

  /** Page q of (pages, f) has become pages q and x of (newPages, g), cut at key mid. */
  ghost predicate CutAt(pages: map<Addr, seq<Record>>, f: map<Addr, Filed>, newPages: map<Addr, seq<Record>>, g: map<Addr, Filed>,
                        q: Addr, x: Addr, mid: Key, lower: seq<Record>, upper: seq<Record>) {
    && q in f && q in pages && x !in f && x != q && pages[q] == lower + upper && lower != [] && upper != []
    && Last(lower).key == mid
    && newPages == pages[q := lower][x := upper]
    && SameBounds(CutBounds(f, q, x, mid, f[q].hi), g)
  }

  lemma CutSound(pages: map<Addr, seq<Record>>, f: map<Addr, Filed>, newPages: map<Addr, seq<Record>>, g: map<Addr, Filed>,
                 q: Addr, x: Addr, mid: Key, lower: seq<Record>, upper: seq<Record>)
    requires PageSound(pages, f, q) && CutAt(pages, f, newPages, g, q, x, mid, lower, upper)
    ensures PageSound(newPages, g, q) && PageSound(newPages, g, x)
    ensures f[q].lo < mid < Last(upper).key <= f[q].hi
  {
    var recs, n := pages[q], |lower|;
    assert forall i :: 0 <= i < n ==> lower[i] == recs[i];
    assert forall i :: 0 <= i < |upper| ==> upper[i] == recs[n + i];
    assert recs[n - 1].key == mid && recs[|recs| - 1] == Last(upper);
  }

  lemma CutPage(pages: map<Addr, seq<Record>>, f: map<Addr, Filed>, newPages: map<Addr, seq<Record>>, g: map<Addr, Filed>,
                q: Addr, x: Addr, mid: Key, lower: seq<Record>, upper: seq<Record>, contents: map<Key, Record>)
    requires Stored(pages, f, contents) && CutAt(pages, f, newPages, g, q, x, mid, lower, upper)
    ensures Stored(newPages, g, contents)
  {
    assert PageSound(pages, f, q);
    CutSound(pages, f, newPages, g, q, x, mid, lower, upper);
    hide SortedRecords;
    forall y | y in g ensures PageSound(newPages, g, y) {
      if y != q && y != x { assert PageSound(pages, f, y); }
    }
    forall y, s | InPage(newPages, g, y, s) ensures s.key in contents && contents[s.key] == s {
      assert InPage(pages, f, if y == x then q else y, s);
    }
    forall k | k in contents ensures Kept(newPages, g, contents, k) {
      assert Kept(pages, f, contents, k);
      var y :| InPage(pages, f, y, contents[k]);
      assert InPage(newPages, g, if y == q && contents[k] !in lower then x else y, contents[k]);
    }
  }

  lemma CutKeys(pages: map<Addr, seq<Record>>, f: map<Addr, Filed>, q: Addr, lower: seq<Record>, upper: seq<Record>)
    requires PageSound(pages, f, q) && pages[q] == lower + upper && lower != [] && upper != []
    ensures f[q].lo < Last(lower).key <= f[q].hi && Last(lower).key < Last(upper).key <= f[q].hi
  {
    var recs := pages[q];
    assert recs[|lower| - 1] == Last(lower) && recs[|recs| - 1] == Last(upper);
  }

  /** The lower part of an over-full page is stored, and the upper part is still to be. */
  lemma CutOffHolds(pages: map<Addr, seq<Record>>, f: map<Addr, Filed>, q: Addr, x: Addr, lower: seq<Record>, upper: seq<Record>,
                    g: map<Addr, Filed>, contents: map<Key, Record>, keySize: nat, capacity: nat)
    requires q in f && x !in f && x != q && lower != [] && upper != []
    requires Stored(pages[q := lower + upper], f, contents) && AllFit(keySize, capacity, pages[q := lower + upper], f, q)
    requires Used(keySize, lower) <= capacity
    requires SameBounds(CutBounds(f, q, x, Last(lower).key, Max(f[q].hi, Last(upper).key)), g)
    ensures Stored(pages[q := lower][x := upper], g, contents) && AllFit(keySize, capacity, pages[q := lower][x := upper], g, x)
    ensures x in g
  {
    var p, after := pages[q := lower + upper], pages[q := lower][x := upper];
    assert PageSound(p, f, q);
    CutKeys(p, f, q, lower, upper);
    assert after == p[q := lower][x := upper];
    assert CutAt(p, f, after, g, q, x, Last(lower).key, lower, upper);
    hide *;
    CutPage(p, f, after, g, q, x, Last(lower).key, lower, upper, contents);
    CutFits(p, f, after, g, q, x, Last(lower).key, lower, upper, keySize, capacity);
  }

  lemma FitsToo(pages: map<Addr, seq<Record>>, f: map<Addr, Filed>, q: Addr, keySize: nat, capacity: nat)
    requires AllFit(keySize, capacity, pages, f, q) && q in pages && pages[q] != [] && Used(keySize, pages[q]) <= capacity
    ensures AllFit(keySize, capacity, pages, f, -1)
  {
    hide Used;
    forall y | y in f ensures PageFits(keySize, capacity, pages, f, y) {
      if y != q { assert PageFits(keySize, capacity, pages, f, y); }
    }
  }

  lemma CutFits(pages: map<Addr, seq<Record>>, f: map<Addr, Filed>, newPages: map<Addr, seq<Record>>, g: map<Addr, Filed>,
                q: Addr, x: Addr, mid: Key, lower: seq<Record>, upper: seq<Record>, keySize: nat, capacity: nat)
    requires CutAt(pages, f, newPages, g, q, x, mid, lower, upper) && AllFit(keySize, capacity, pages, f, q)
    requires Used(keySize, lower) <= capacity
    ensures AllFit(keySize, capacity, newPages, g, x)
    ensures Used(keySize, upper) <= capacity ==> AllFit(keySize, capacity, newPages, g, -1)
  {
    hide Used, SortedRecords;
    forall y | y in g && (y != x || Used(keySize, upper) <= capacity) ensures PageFits(keySize, capacity, newPages, g, y) {
      if y != q && y != x {
        assert PageFits(keySize, capacity, pages, f, y);
        assert q in f.Keys;
      }
    }
  }

  // ---- where a key belongs

  /** The page of leaf n that k belongs in: the one that covers it or, past the end of the leaf, the last. */
  function Target(n: Node, k: int): (i: nat)
    requires |n.children| == |n.keys| > 0
    ensures i < |n.children|
  {
    if Route(n.keys, k) < |n.children| then Route(n.keys, k) else |n.children| - 1
  }

  /** Keys up to newKey can be added after page q: it is the last in its leaf, which covers them. */
  ghost predicate PastEnd(v: View, q: Addr, newKey: Key) {
    && q in v.filed && v.filed[q].leaf in v.spans && v.filed[q].leaf in v.nodes
    && newKey <= v.spans[v.filed[q].leaf].hi
    && |v.nodes[v.filed[q].leaf].children| > 0 && q == Last(v.nodes[v.filed[q].leaf].children)
  }

  /** The bounds of the leaf a search for k reaches, and of the page there that k belongs in, leave room for k. */
  ghost predicate PlaceFor(v: View, k: Key) {
    && LeafFor(v, k) in v.spans && LeafFor(v, k) in v.nodes && v.nodes[LeafFor(v, k)].isLeaf && Covers(v, LeafFor(v, k), k)
    && var n := v.nodes[LeafFor(v, k)];
       Route(n.keys, k) < |n.children| ==> n.children[Route(n.keys, k)] in v.filed && v.filed[n.children[Route(n.keys, k)]].lo < k
  }

  lemma KeyPlace(v: View, k: Key, pages: map<Addr, seq<Record>>, contents: map<Key, Record>) returns (q: Addr)
    requires Structure(v, 0) && PlaceFor(v, k) && Stored(pages, v.filed, contents)
    ensures LeafFor(v, k) in v.spans && LeafFor(v, k) in v.nodes
    ensures var n := v.nodes[LeafFor(v, k)];
            && n.isLeaf && |n.children| == |n.keys| > 0
            && q == n.children[Target(n, k)] && q in v.filed && v.filed[q].leaf == LeafFor(v, k) && v.filed[q].hi == n.keys[Target(n, k)]
            && (if Route(n.keys, k) < |n.keys| then k <= v.filed[q].hi else v.filed[q].hi < k && PastEnd(v, q, k))
    ensures v.filed[q].lo < k
    ensures q in pages && PageSound(pages, v.filed, q)
    ensures k in contents <==> Holds(pages[q], k)
  {
    var a := LeafFor(v, k);
    var n := v.nodes[a];
    LeafRun(v, a);
    var i := Target(n, k);
    q := n.children[i];
    assert PageAt(v.filed, n.children, n.keys, v.spans[a].lo, i);
    assert PageSound(pages, v.filed, q);
    hide Structure, PageRun;
    if k in contents {
      assert Kept(pages, v.filed, contents, k);
      var y :| InPage(pages, v.filed, y, contents[k]);
      assert PageSound(pages, v.filed, y);
      var j :| 0 <= j < |pages[y]| && pages[y][j] == contents[k];
      FindsPage(v, y, k);
      HoldsAny(pages[y], j);
    }
    if Holds(pages[q], k) {
      assert InPage(pages, v.filed, q, pages[q][Position(pages[q], k)]);
    }
  }

  /** Page q is the only one that can hold k's record. */
  ghost predicate Looked(pages: map<Addr, seq<Record>>, f: map<Addr, Filed>, contents: map<Key, Record>, q: Addr, k: Key) {
    && PageSound(pages, f, q)
    && (k in contents <==> Holds(pages[q], k))
    && (k in contents ==> contents[k] == pages[q][Position(pages[q], k)])
  }

  /** A search for a key ends at the only page that can hold it. */
  lemma KeyLookup(v: View, k: Key, pages: map<Addr, seq<Record>>, contents: map<Key, Record>)
    requires Structure(v, 0) && Stored(pages, v.filed, contents)
    requires LeafFor(v, k) in v.spans && LeafFor(v, k) in v.nodes && v.nodes[LeafFor(v, k)].isLeaf
    ensures var n := v.nodes[LeafFor(v, k)];
            && (Route(n.keys, k) == |n.children| ==> k !in contents)
            && (Route(n.keys, k) < |n.children| ==>
                  var q := n.children[Route(n.keys, k)];
                  q in v.filed && v.filed[q].leaf == LeafFor(v, k) && Looked(pages, v.filed, contents, q, k))
  {
    var n := v.nodes[LeafFor(v, k)];
    LeafRun(v, LeafFor(v, k));
    var i := Route(n.keys, k);
    if i < |n.children| { assert PageSound(pages, v.filed, n.children[i]); }
    hide Structure, PageRun;
    if k in contents {
      assert Kept(pages, v.filed, contents, k);
      var y :| InPage(pages, v.filed, y, contents[k]);
      assert PageSound(pages, v.filed, y);
      var j :| 0 <= j < |pages[y]| && pages[y][j] == contents[k];
      FindsPage(v, y, k);
      HoldsAny(pages[y], j);
    }
    if i < |n.children| && Holds(pages[n.children[i]], k) {
      assert InPage(pages, v.filed, n.children[i], pages[n.children[i]][Position(pages[n.children[i]], k)]);
    }
  }

  /** A key is in one page only. */
  lemma OnePlace(v: View, q: Addr, k: Key, pages: map<Addr, seq<Record>>, contents: map<Key, Record>)
    requires Structure(v, 0) && Stored(pages, v.filed, contents) && q in v.filed && v.filed[q].lo < k <= v.filed[q].hi
    ensures OnlyIn(pages, v.filed, q, k)
  {
    forall x, r | InPage(pages, v.filed, x, r) && r.key == k ensures x == q {
      assert PageSound(pages, v.filed, x);
      var j :| 0 <= j < |pages[x]| && pages[x][j] == r;
      PagesApart(v, q, x, k);
    }
  }

  // ---- inserting a record

  /** f with page q's bounds stretched to take in k. */
  ghost function Stretch(f: map<Addr, Filed>, q: Addr, k: Key): map<Addr, Filed>
    requires q in f
  {
    f[q := f[q].(hi := Max(f[q].hi, k))]
  }

  /** A record with a new key can go in page q. */
  ghost predicate Insertable(pages: map<Addr, seq<Record>>, f: map<Addr, Filed>, contents: map<Key, Record>, q: Addr, r: Record) {
    Stored(pages, f, contents) && q in f && q in pages && PageSound(pages, f, q) && !Holds(pages[q], r.key) && r.key !in contents && f[q].lo < r.key
  }

  lemma InsertStored(pages: map<Addr, seq<Record>>, f: map<Addr, Filed>, contents: map<Key, Record>, q: Addr, r: Record,
                     keySize: nat, capacity: nat)
    requires Insertable(pages, f, contents, q, r) && AllFit(keySize, capacity, pages, f, -1)
    ensures var p := pages[q := InsertAt(pages[q], Position(pages[q], r.key), r)];
            && Stored(p, Stretch(f, q, r.key), contents[r.key := r])
            && AllFit(keySize, capacity, p, Stretch(f, q, r.key), q)
            && (Used(keySize, pages[q]) + RecordBytes(keySize, r) <= capacity ==> AllFit(keySize, capacity, p, Stretch(f, q, r.key), -1))
  {
    hide SortedRecords, Used, Position, RecordBytes;
    var recs := InsertAt(pages[q], Position(pages[q], r.key), r);
    var p, g := pages[q := recs], Stretch(f, q, r.key);
    InsertSorted(pages[q], r);
    UsedInsert(keySize, pages[q], Position(pages[q], r.key), r);
    assert OnePage(pages, f, p, g, q, recs);
    AddRecord(pages, f, p, g, q, r, contents);
    forall y | y in g && (y != q || Used(keySize, recs) <= capacity) ensures PageFits(keySize, capacity, p, g, y) {
      if y != q { assert PageFits(keySize, capacity, pages, f, y); assert g.Keys == f.Keys; }
    }
  }

  /** The largest keys of the pages a page is divided into, within the bounds that page had. */
  lemma CutOrder(pages: map<Addr, seq<Record>>, f: map<Addr, Filed>, q: Addr, r: Record, inserted: bool, lower: seq<Record>, upper: seq<Record>)
    requires PageSound(pages, f, q) && pages[q] != [] && lower != [] && upper != [] && !Holds(pages[q], r.key) && f[q].lo < r.key
    requires lower + upper == if inserted then InsertAt(pages[q], Position(pages[q], r.key), r) else pages[q]
    ensures f[q].lo < Last(lower).key <= f[q].hi && Last(lower).key < Last(upper).key
    ensures Max(f[q].hi, Last(upper).key) == if inserted then Max(f[q].hi, r.key) else f[q].hi
    ensures Last(upper).key <= f[q].hi || Last(upper).key == r.key
  {
    var p, hi, all := pages[q], f[q].hi, lower + upper;
    var x, y := all[|lower| - 1], all[|all| - 1];
    if inserted { InsertSorted(p, r); }
    assert x == Last(lower) && y == Last(upper);
    assert x in all && y in all;
    assert inserted && hi < r.key ==> y == r;
    assert x.key < y.key;
    hide SortedRecords, Position, InsertAt;
    assert forall z :: z in p ==> f[q].lo < z.key <= hi;
  }

  /** Page q, full, becomes q and x, with the record among their records if inserted says so. */
  lemma InsertCut(pages: map<Addr, seq<Record>>, f: map<Addr, Filed>, contents: map<Key, Record>, q: Addr, x: Addr, r: Record, inserted: bool,
                  lower: seq<Record>, upper: seq<Record>, g: map<Addr, Filed>, keySize: nat, capacity: nat)
    requires Insertable(pages, f, contents, q, r) && AllFit(keySize, capacity, pages, f, -1) && x !in f && pages[q] != []
    requires lower != [] && upper != [] && Used(keySize, lower) <= capacity && Used(keySize, upper) <= capacity
    requires lower + upper == if inserted then InsertAt(pages[q], Position(pages[q], r.key), r) else pages[q]
    requires SameBounds(CutBounds(f, q, x, Last(lower).key, Max(f[q].hi, Last(upper).key)), g)
    ensures var p := pages[q := lower][x := upper];
            Stored(p, g, if inserted then contents[r.key := r] else contents) && AllFit(keySize, capacity, p, g, -1)
  {
    CutOrder(pages, f, q, r, inserted, lower, upper);
    var p, h := pages[q := lower + upper], f[q := f[q].(hi := Max(f[q].hi, Last(upper).key))];
    var c := if inserted then contents[r.key := r] else contents;
    InsertWhole(pages, f, contents, p, h, c, q, r, inserted, keySize, capacity);
    hide *;
    CutOfStretch(pages, f, p, h, q, x, lower, upper, pages[q := lower][x := upper], g);
    CutPage(p, h, pages[q := lower][x := upper], g, q, x, Last(lower).key, lower, upper, c);
    CutFits(p, h, pages[q := lower][x := upper], g, q, x, Last(lower).key, lower, upper, keySize, capacity);
  }

  lemma InsertWhole(pages: map<Addr, seq<Record>>, f: map<Addr, Filed>, contents: map<Key, Record>,
                    p: map<Addr, seq<Record>>, h: map<Addr, Filed>, c: map<Key, Record>, q: Addr, r: Record, inserted: bool,
                    keySize: nat, capacity: nat)
    requires Insertable(pages, f, contents, q, r) && AllFit(keySize, capacity, pages, f, -1)
    requires p == pages[q := if inserted then InsertAt(pages[q], Position(pages[q], r.key), r) else pages[q]]
    requires h == f[q := f[q].(hi := if inserted then Max(f[q].hi, r.key) else f[q].hi)]
    requires c == if inserted then contents[r.key := r] else contents
    ensures Stored(p, h, c)
    ensures AllFit(keySize, capacity, p, h, q)
  {
    hide InsertAt, Position, Used, Stored, PageSound, Holds, SortedRecords, Max;
    if inserted { InsertStored(pages, f, contents, q, r, keySize, capacity); } else { assert p == pages && h == f; }
  }

  lemma CutOfStretch(pages: map<Addr, seq<Record>>, f: map<Addr, Filed>, p: map<Addr, seq<Record>>, h: map<Addr, Filed>, q: Addr, x: Addr,
                     lower: seq<Record>, upper: seq<Record>, after: map<Addr, seq<Record>>, g: map<Addr, Filed>)
    requires q in f && q in pages && x !in f && lower != [] && upper != []
    requires p == pages[q := lower + upper] && after == pages[q := lower][x := upper]
    requires h == f[q := f[q].(hi := Max(f[q].hi, Last(upper).key))]
    requires SameBounds(CutBounds(f, q, x, Last(lower).key, Max(f[q].hi, Last(upper).key)), g)
    ensures CutAt(p, h, after, g, q, x, Last(lower).key, lower, upper)
  {
    assert after == p[q := lower][x := upper];
    assert CutBounds(h, q, x, Last(lower).key, h[q].hi) == CutBounds(f, q, x, Last(lower).key, h[q].hi);
  }

  // ---- a second round

  /** The page that k belongs in starts past k. */
  ghost predicate ReadyFor(pages: map<Addr, seq<Record>>, f: map<Addr, Filed>, k: Key) {
    exists q {:trigger f[q]} :: q in f && q in pages && f[q].lo < k <= f[q].hi && Position(pages[q], k) == 0
  }

  lemma IsReady(pages: map<Addr, seq<Record>>, f: map<Addr, Filed>, q: Addr, k: Key)
    requires q in f && q in pages && f[q].lo < k <= f[q].hi && Position(pages[q], k) == 0
    ensures ReadyFor(pages, f, k)
  {
  }

  lemma StillReady(pages: map<Addr, seq<Record>>, f: map<Addr, Filed>, g: map<Addr, Filed>, k: Key)
    requires BoundsKept(f, g)
    ensures ReadyFor(pages, f, k) ==> ReadyFor(pages, g, k)
  {
    if ReadyFor(pages, f, k) {
      var q :| q in f && q in pages && f[q].lo < k <= f[q].hi && Position(pages[q], k) == 0;
      assert g[q].lo < k <= g[q].hi;
    }
  }

  lemma ReadyHere(v: View, pages: map<Addr, seq<Record>>, q: Addr, k: Key)
    requires Structure(v, 0) && LeafFor(v, k) in v.nodes && |v.nodes[LeafFor(v, k)].children| == |v.nodes[LeafFor(v, k)].keys| > 0
    requires q == v.nodes[LeafFor(v, k)].children[Target(v.nodes[LeafFor(v, k)], k)] && q in pages
    ensures ReadyFor(pages, v.filed, k) ==> Position(pages[q], k) == 0
  {
    if ReadyFor(pages, v.filed, k) {
      var y :| y in v.filed && y in pages && v.filed[y].lo < k <= v.filed[y].hi && Position(pages[y], k) == 0;
      FindsPage(v, y, k);
    }
  }

  /** A page divided where a record belongs starts with that record's place. */
  lemma CutReady(pages: map<Addr, seq<Record>>, f: map<Addr, Filed>, newPages: map<Addr, seq<Record>>, g: map<Addr, Filed>,
                 q: Addr, x: Addr, pos: nat, k: Key, lower: seq<Record>, upper: seq<Record>)
    requires q in f && x !in f && PageSound(pages, f, q) && pos == Position(pages[q], k) && lower != [] && upper != []
    requires newPages == pages[q := lower][x := upper]
    requires SameBounds(CutBounds(f, q, x, Last(lower).key, Max(f[q].hi, Last(upper).key)), g)
    ensures x in newPages
    ensures 0 < pos < |pages[q]| && lower == pages[q][..pos] && upper == pages[q][pos..] ==> x in g && g[x].lo < k <= g[x].hi && Position(upper, k) == 0
  {
    var p := pages[q];
    if 0 < pos < |p| && lower == p[..pos] && upper == p[pos..] {
      PositionCut(p, k, pos);
      assert Last(lower) == p[pos - 1] && p[pos].key <= f[q].hi;
    }
  }

  // ---- changing a record

  lemma UpdateHolds(v: View, pages: map<Addr, seq<Record>>, contents: map<Key, Record>, q: Addr, i: nat, r: Record, keySize: nat, capacity: nat)
    requires Structure(v, 0) && Stored(pages, v.filed, contents) && AllFit(keySize, capacity, pages, v.filed, -1)
    requires q in v.filed && q in pages && i < |pages[q]| && pages[q][i].key == r.key
    ensures r.key in contents && contents[r.key] == pages[q][i]
    ensures Stored(pages[q := pages[q][i := r]], v.filed, contents[r.key := r])
    ensures AllFit(keySize, capacity, pages[q := pages[q][i := r]], v.filed, q)
  {
    var p := pages[q := pages[q][i := r]];
    assert PageSound(pages, v.filed, q) && InPage(pages, v.filed, q, pages[q][i]);
    OnePlace(v, q, r.key, pages, contents);
    hide Structure;
    assert OnePage(pages, v.filed, p, v.filed, q, pages[q][i := r]);
    ChangeRecord(pages, v.filed, p, v.filed, q, i, r, contents);
    forall y | y in v.filed && y != q ensures PageFits(keySize, capacity, p, v.filed, y) { assert PageFits(keySize, capacity, pages, v.filed, y); }
  }

  /** A change keeps the other records of a page as small as they were. */
  lemma UpdateSmall(pages: map<Addr, seq<Record>>, f: map<Addr, Filed>, q: Addr, i: nat, r: Record, keySize: nat, capacity: nat)
    requires AllFit(keySize, capacity, pages, f, -1) && q in f && q in pages && i < |pages[q]|
    ensures AllSmall(keySize, capacity, pages[q][i := r]) <==> RecordBytes(keySize, r) <= capacity
  {
    assert PageFits(keySize, capacity, pages, f, q);
    EachSmall(keySize, capacity, pages[q]);
    assert pages[q][i := r][i] == r;
  }

  // ---- deleting a record

  lemma RemoveSound(pages: map<Addr, seq<Record>>, f: map<Addr, Filed>, q: Addr, i: nat)
    requires PageSound(pages, f, q) && i < |pages[q]|
    ensures PageSound(pages[q := RemoveAt(pages[q], i)], f, q)
  {
  }

  /** Page q without its i-th record. */
  lemma RemoveStored(v: View, pages: map<Addr, seq<Record>>, contents: map<Key, Record>, q: Addr, i: nat, keySize: nat, capacity: nat)
    requires Structure(v, 0) && Stored(pages, v.filed, contents) && AllFit(keySize, capacity, pages, v.filed, -1)
    requires q in v.filed && q in pages && i < |pages[q]|
    ensures var p, c := pages[q := RemoveAt(pages[q], i)], contents - {pages[q][i].key};
            && pages[q][i].key in contents && Stored(p, v.filed, c)
            && (|pages[q]| > 1 || v.filed.Keys == {q} ==> AllFit(keySize, capacity, p, v.filed, -1))
  {
    var p, k := pages[q := RemoveAt(pages[q], i)], pages[q][i].key;
    assert PageSound(pages, v.filed, q) && PageFits(keySize, capacity, pages, v.filed, q);
    OnePlace(v, q, k, pages, contents);
    RemoveSound(pages, v.filed, q, i);
    UsedRemove(keySize, pages[q], i);
    hide Structure, Used, PageSound, SortedRecords;
    assert OnePage(pages, v.filed, p, v.filed, q, RemoveAt(pages[q], i));
    DropRecord(pages, v.filed, p, v.filed, q, i, contents);
    hide RemoveAt;
    forall y | y in v.filed && (y != q || |pages[q]| > 1 || v.filed.Keys == {q}) ensures PageFits(keySize, capacity, p, v.filed, y) {
      assert PageFits(keySize, capacity, pages, v.filed, y);
    }
  }

  /** A page with nothing but the record that goes. */
  lemma DropStored(v: View, pages: map<Addr, seq<Record>>, contents: map<Key, Record>, q: Addr, g: map<Addr, Filed>, keySize: nat, capacity: nat)
    requires Structure(v, 0) && Stored(pages, v.filed, contents) && AllFit(keySize, capacity, pages, v.filed, -1)
    requires q in v.filed && q in pages && |pages[q]| == 1 && SameBounds(v.filed - {q}, g)
    ensures Stored(pages, g, contents - {pages[q][0].key}) && AllFit(keySize, capacity, pages, g, -1)
  {
    var p, c := pages[q := RemoveAt(pages[q], 0)], contents - {pages[q][0].key};
    RemoveStored(v, pages, contents, q, 0, keySize, capacity);
    assert p[q] == [];
    DropPage(p, v.filed, q, c);
    var f := v.filed - {q};
    hide Structure, Used, SortedRecords;
    forall y | y in f ensures PageSound(pages, f, y) { assert PageSound(p, f, y); }
    forall y, r | InPage(pages, f, y, r) ensures r.key in c && c[r.key] == r { assert InPage(p, f, y, r); }
    forall k | k in c ensures Kept(pages, f, c, k) {
      assert Kept(p, f, c, k);
      var y :| InPage(p, f, y, c[k]);
      assert InPage(pages, f, y, c[k]);
    }
    forall y | y in f ensures PageFits(keySize, capacity, pages, f, y) {
      assert PageFits(keySize, capacity, pages, v.filed, y);
      assert q in v.filed.Keys;
    }
    WiderBounds(pages, f, g, c, keySize, capacity, -1);
  }
}
