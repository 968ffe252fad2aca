// What is read from a table's file after a commit.
module CommittedObjects {
  import opened Base
  import opened Words
  import TreeView
  import NodeCodec
  import PageCodec
  import Commits
  import CommitMeaning

  /** The mark of a deleted object makes any bytes unreadable, as a page and as a node. */
  lemma DeletedUnreadable(raw: Bytes, keySize: nat, M: nat)
    requires keySize <= NodeCodec.KEY_MAX && raw != []
    ensures |raw| >= PageCodec.PageHeaderSize(keySize) ==> PageCodec.PageOf(raw[0 := Commits.GARBAGE[0]], keySize) == None
    ensures |raw| >= NodeCodec.HeaderSize(keySize) ==> NodeCodec.NodeOf(raw[0 := Commits.GARBAGE[0]], keySize, M) == None
  {
  }

  /** No bytes are a page's and a node's. */
  lemma NeverBoth(raw: Bytes, keySize: nat, M: nat, p: PageCodec.Page, n: TreeView.Node)
    requires keySize <= NodeCodec.KEY_MAX
    ensures !(PageCodec.PageSpelled(raw, p, keySize) && NodeCodec.NodeSpelled(raw, n, keySize, M))
  {
    if PageCodec.PageSpelled(raw, p, keySize) {
      assert PageCodec.PageHeader(p, keySize)[0] == 0 && raw[0] == raw[..PageCodec.PageHeaderSize(keySize)][0];
    }
    if NodeCodec.NodeSpelled(raw, n, keySize, M) {
      assert NodeCodec.Front(n, keySize)[0] == 1 && raw[0] == raw[..29 + keySize][0];
    }
  }

  /** What is deleted by a commit can't be read any more. */
  lemma DeletedByCommit(t: Commits.TableChange, base: Bytes, c: Bytes, a: nat, keySize: nat, M: nat, pageSize: nat, nodeSize: nat)
    requires CommitMeaning.Saved(t, base, c) && a in t.deletes && keySize <= NodeCodec.KEY_MAX
    requires PageCodec.PageHeaderSize(keySize) <= pageSize && NodeCodec.HeaderSize(keySize) <= nodeSize
    ensures a + pageSize <= |c| ==> PageCodec.PageOf(c[a..a + pageSize], keySize) == None
    ensures a + nodeSize <= |c| ==> NodeCodec.NodeOf(c[a..a + nodeSize], keySize, M) == None
  {
  }

  lemma BytesSaved(t: Commits.TableChange, c: Bytes, x: (nat, Bytes))
    requires CommitMeaning.Stored(c, x, t.deletes) && x.1 != []
    requires forall a {:trigger a in t.deletes} :: a in t.deletes ==> !CommitMeaning.In(a, x)
    ensures x.0 + |x.1| <= |c| && c[x.0..x.0 + |x.1|] == x.1
  {
    assert CommitMeaning.In(x.0 + |x.1| - 1, x);
    forall i | 0 <= i < |x.1| ensures x.0 + i < |c| && c[x.0 + i] == x.1[i] { assert CommitMeaning.In(x.0 + i, x); }
  }

  /** A page that was pending is read from the file as it was, once its table is saved. */
  lemma PageCommitted(t: Commits.TableChange, base: Bytes, c: Bytes, a: nat, p: PageCodec.Page, keySize: nat, pageSize: nat)
    requires CommitMeaning.Saved(t, base, c) && PageCodec.Legal(p, keySize, pageSize) && PageCodec.Gap(p, keySize, pageSize) >= 0
    requires (a, PageCodec.PageBytes(p, keySize, pageSize)) in t.pages
    requires forall d {:trigger d in t.deletes} :: d in t.deletes ==> !(a <= d < a + pageSize)
    ensures a + pageSize <= |c| && PageCodec.PageOf(c[a..a + pageSize], keySize) == Some(p)
  {
    hide PageCodec.PageOf, PageCodec.PageBytes, PageCodec.Legal;
    PageCodec.PageRoundTrip(p, keySize, pageSize);
    LegalSize(p, keySize, pageSize);
    BytesSaved(t, c, (a, PageCodec.PageBytes(p, keySize, pageSize)));
  }

  lemma LegalSize(p: PageCodec.Page, keySize: nat, pageSize: nat)
    requires PageCodec.Legal(p, keySize, pageSize)
    ensures pageSize > 0 && keySize <= NodeCodec.KEY_MAX && pageSize >= PageCodec.PageHeaderSize(keySize)
  {
  }

  /** And so is a node. */
  lemma NodeCommitted(t: Commits.TableChange, base: Bytes, c: Bytes, a: nat, n: TreeView.Node, keySize: nat, M: nat, nodeSize: nat)
    requires CommitMeaning.Saved(t, base, c) && keySize <= NodeCodec.KEY_MAX && NodeCodec.Writable(n, keySize, M)
    requires NodeCodec.HeaderSize(keySize) + |n.children| * 8 + |n.keys| * keySize <= nodeSize && nodeSize >= NodeCodec.HeaderSize(keySize)
    requires (a, NodeCodec.NodeBytes(n, keySize, nodeSize)) in t.nodes
    requires forall d {:trigger d in t.deletes} :: d in t.deletes ==> !(a <= d < a + nodeSize)
    ensures a + nodeSize <= |c| && NodeCodec.NodeOf(c[a..a + nodeSize], keySize, M) == Some(n)
  {
    hide NodeCodec.NodeOf, NodeCodec.NodeBytes, NodeCodec.Writable;
    NodeCodec.NodeRoundTrip(n, keySize, M, nodeSize);
    BytesSaved(t, c, (a, NodeCodec.NodeBytes(n, keySize, nodeSize)));
  }
}
