// Runs of pages: what joining, cutting and refiling the pages of leaves keeps.
module TreePages {
  import opened Base
  import opened TreeView
  import opened TreeEdit

  ghost predicate PageAt(filed: map<Addr, Filed>, c: seq<Addr>, k: seq<Key>, lo: int, i: int) {
    && 0 <= i < |c| == |k|
    && c[i] in filed && filed[c[i]].hi == k[i]
    && (if i == 0 then lo else k[i - 1]) <= filed[c[i]].lo < filed[c[i]].hi
  }

  /** The pages c, filed under the keys k, lie above lo in ascending order. */
  ghost predicate PageRun(filed: map<Addr, Filed>, c: seq<Addr>, k: seq<Key>, lo: int) {
    && |c| == |k| && Sorted(k)
    && forall i {:trigger PageAt(filed, c, k, lo, i)} :: 0 <= i < |c| ==> PageAt(filed, c, k, lo, i)
  }

  lemma LeafRun(v: View, a: Addr)
    requires Structure(v, 0) && a in v.spans && v.nodes[a].isLeaf
    ensures PageRun(v.filed, v.nodes[a].children, v.nodes[a].keys, v.spans[a].lo)
    ensures |v.nodes[a].children| > 0 && Last(v.nodes[a].keys) <= v.nodes[a].maxKey <= v.spans[a].hi
    ensures forall i :: 0 <= i < |v.nodes[a].children| ==>
              v.nodes[a].children[i] in v.filed && v.filed[v.nodes[a].children[i]].leaf == a
  {
    assert NodeOK(v, a, 0);
    var c, k, lo := v.nodes[a].children, v.nodes[a].keys, v.spans[a].lo;
    forall i | 0 <= i < |c| ensures PageAt(v.filed, c, k, lo, i) && c[i] in v.filed && v.filed[c[i]].leaf == a { assert PageOK(v, a, i); }
  }

  lemma RunKeysAbove(filed: map<Addr, Filed>, c: seq<Addr>, k: seq<Key>, lo: int, i: int)
    requires PageRun(filed, c, k, lo) && 0 <= i < |k|
    ensures lo < k[i]
  {
    assert PageAt(filed, c, k, lo, 0);
  }

  lemma CutPages(filed: map<Addr, Filed>, c: seq<Addr>, k: seq<Key>, lo: int, m: nat)
    requires PageRun(filed, c, k, lo) && 0 < m <= |k|
    ensures PageRun(filed, c[..m], k[..m], lo)
    ensures PageRun(filed, c[m..], k[m..], k[m - 1])
  {
    var c1, k1, c2, k2, mid := c[..m], k[..m], c[m..], k[m..], k[m - 1];
    forall i | 0 <= i < m ensures PageAt(filed, c1, k1, lo, i) { assert PageAt(filed, c, k, lo, i); }
    forall i | 0 <= i < |c| - m ensures PageAt(filed, c2, k2, mid, i) { assert PageAt(filed, c, k, lo, m + i); }
  }

  lemma JoinPages(filed: map<Addr, Filed>, c: seq<Addr>, k: seq<Key>, lo: int, d: seq<Addr>, l: seq<Key>, mid: int)
    requires PageRun(filed, c, k, lo) && PageRun(filed, d, l, mid) && |k| > 0 && Last(k) <= mid
    ensures PageRun(filed, c + d, k + l, lo)
  {
    var e, s := c + d, k + l;
    forall i | 0 <= i < |e| ensures PageAt(filed, e, s, lo, i) {
      if i < |c| { assert PageAt(filed, c, k, lo, i); } else { assert PageAt(filed, d, l, mid, i - |c|); }
    }
    forall i | 0 <= i < |l| ensures mid < l[i] { RunKeysAbove(filed, d, l, mid, i); }
  }

  /** The pages of x and y shared out again: those filed up to bound to x, the others to y. */
  ghost function Refile(filed: map<Addr, Filed>, x: Addr, y: Addr, bound: int): map<Addr, Filed> {
    map q | q in filed ::
      if filed[q].leaf == x || filed[q].leaf == y then filed[q].(leaf := if filed[q].hi <= bound then x else y)
      else filed[q]
  }

  /** Leaf z of w has the pages c of v, refiled under z. */
  ghost predicate Refiled(v: View, w: View, z: Addr, c: seq<Addr>, k: seq<Key>) {
    && z in w.nodes && w.nodes[z].children == c && w.nodes[z].keys == k && z in w.spans
    && w.nodes[z].isLeaf && |c| > 0
    && PageRun(v.filed, c, k, w.spans[z].lo)
    && (forall i {:trigger c[i]} :: 0 <= i < |c| ==> c[i] in v.filed && c[i] in w.filed && w.filed[c[i]] == v.filed[c[i]].(leaf := z))
    && Last(k) <= w.nodes[z].maxKey <= w.spans[z].hi
  }

  lemma RefiledLeaf(v: View, w: View, z: Addr, c: seq<Addr>, k: seq<Key>)
    requires w.spans.Keys <= w.nodes.Keys && Refiled(v, w, z, c, k)
    requires w.root in w.spans && w.spans[z].h == 0 && -1 <= w.spans[z].lo && w.spans[z].hi <= KEY_LIMIT
    requires UpOK(w, z) && LinksOK(w, z)
    ensures NodeOK(w, z, 0)
    ensures forall q {:trigger FiledOK(w, q)} :: q in w.filed && q in c ==> FiledOK(w, q)
  {
    forall i | 0 <= i < |c| ensures PageOK(w, z, i) { assert PageAt(v.filed, c, k, w.spans[z].lo, i); }
    RunKeysAbove(v.filed, c, k, w.spans[z].lo, |k| - 1);
  }
}
