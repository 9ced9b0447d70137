/**
 * The node store of the trie dictionary as a value, and what each step of
 * an insertion does to it.
 *
 * Nodes live in a store and are referred to by their slot in it; a child
 * link is a slot number. Beside the real parts (the root map and the store)
 * a `Forest` carries the proof state:
 *  - `words`: the abstract set of stored words;
 *  - `at`: the slot of the node reached by each path of the forest;
 *  - `paths`: the path of each slot, the inverse of `at`, which makes the
 *    structure a tree (no node is reached by two paths).
 */
module TrieShape {
  import opened WordSet

  /** One character position along the stored words. */
  datatype WordNode = WordNode(value: char, isWord: bool, next: map<char, nat>)
  {
    /** Whether the node has at least one child. */
    predicate HasNext()
    {
      next != map[]
    }
  }

  /** The path one character shorter. */
  ghost function Parent(q: string): (p: string)
    requires q != []
  {
    q[..|q| - 1]
  }

  datatype Forest = Forest(
    roots: map<char, nat>,
    nodes: seq<WordNode>,
    words: set<string>,
    at: map<string, nat>,
    paths: seq<string>)
  {
    /**
     * Each path names one node of the store, every node is named by its
     * entry in `paths`, and no node has two paths.
     */
    ghost predicate Tree()
    {
      && |paths| == |nodes|
      && (forall p {:trigger p in at} :: p in at ==>
            && at[p] < |nodes| && paths[at[p]] == p
            && p != [] && nodes[at[p]].value == p[|p| - 1])
      && (forall i :: 0 <= i < |paths| ==> paths[i] in at && at[paths[i]] == i)
    }

    /** The roots are the nodes of the one-character paths. */
    ghost predicate Rooted()
    {
      && (forall c {:trigger c in roots} :: c in roots ==> [c] in at && at[[c]] == roots[c])
      && (forall p {:trigger p in at} :: p in at && |p| == 1 ==> p[0] in roots)
    }

    /** The children of the node at `p` are the nodes of the paths one longer. */
    ghost predicate Linked()
      requires Tree()
    {
      && (forall p, c {:trigger c in nodes[at[p]].next} :: p in at && c in nodes[at[p]].next ==>
            p + [c] in at && at[p + [c]] == nodes[at[p]].next[c])
      && (forall q {:trigger Parent(q)} :: q in at && 1 < |q| ==>
            Parent(q) in at && q[|q| - 1] in nodes[at[Parent(q)]].next)
    }

    /** The stored words are the paths that end at a terminal node, all upper-case. */
    ghost predicate Marked()
      requires Tree()
    {
      && (forall w :: w in words ==> w in at && nodes[at[w]].isWord && IsUpperCase(w))
      && (forall p {:trigger nodes[at[p]].isWord} :: p in at && nodes[at[p]].isWord ==> p in words)
    }

    /** Every non-empty prefix of a stored word is a path of the forest. */
    ghost predicate Covered()
    {
      forall w, k {:trigger w in words, w[..k]} :: w in words && 1 <= k <= |w| ==> w[..k] in at
    }

    /** Every path leads to a stored word, or to the word `pending` being inserted. */
    ghost predicate Live(pending: string)
    {
      forall p {:trigger Extended(words, p)} :: p in at ==> p <= pending || Extended(words, p)
    }

    /**
     * The invariant while `pending` is being inserted; with nothing pending
     * (the empty word, which no path is a prefix of) it is the invariant of
     * a dictionary at rest.
     */
    ghost predicate Building(pending: string)
    {
      Tree() && Rooted() && Linked() && Marked() && Covered() && Live(pending)
    }

    ghost predicate Valid()
    {
      Building([])
    }

    /** The paths at or below `p`. */
    ghost function Below(p: string): (r: set<string>)
    {
      set q | q in at && p <= q
    }

    // -------------------------------------------------------------------
    // What the invariant says about paths
    // -------------------------------------------------------------------

    /** A path absent from the forest is no prefix of a stored word. */
    lemma OffTrie(p: string)
      requires Valid()
      requires p != [] && p !in at
      ensures !Extended(words, p)
    {
      forall v | v in words && |p| <= |v| ensures v[..|p|] != p {
        assert v[..|p|] in at;
      }
    }

    /** Every non-empty prefix of a path is a path: the forest is closed under parents. */
    lemma {:induction false} Ancestors(p: string, k: nat)
      requires Tree() && Linked()
      requires p in at && 1 <= k <= |p|
      ensures p[..k] in at
      decreases |p|
    {
      if k < |p| {
        assert Parent(p) in at;
        Ancestors(Parent(p), k);
        assert Parent(p)[..k] == p[..k];
      } else {
        assert p[..k] == p;
      }
    }

    /** A stored word strictly below path `p` goes through a child of the node at `p`. */
    lemma StepDown(p: string, v: string)
      requires Valid()
      requires p in at && v in words && p < v
      ensures |p| < |v| && v[|p|] in nodes[at[p]].next
    {
      var q := v[..|p| + 1];
      assert q in at;
      assert Parent(q) == p;
    }

    /** A node has a child exactly when some stored word strictly extends its path. */
    lemma NextIffContinued(p: string)
      requires Valid()
      requires p in at
      ensures nodes[at[p]].HasNext() <==> Continued(words, p)
    {
      if nodes[at[p]].HasNext() {
        var c :| c in nodes[at[p]].next;
        assert p + [c] in at;
        assert Extended(words, p + [c]);
        var v :| v in words && p + [c] <= v;
        assert p < v by {
          assert v[..|p|] == (p + [c])[..|p|];
        }
      }
      if Continued(words, p) {
        var v :| v in words && p < v;
        StepDown(p, v);
      }
    }

    /** The paths below a child are strictly fewer than those below its parent. */
    lemma BelowShrinks(p: string, c: char)
      requires Valid()
      requires p in at && p + [c] in at
      ensures Below(p + [c]) < Below(p)
    {
      forall q | q in Below(p + [c]) ensures q in Below(p) {
        assert q[..|p|] == (p + [c])[..|p|];
      }
      assert p in Below(p);
    }

    // -------------------------------------------------------------------
    // The steps of an insertion
    // -------------------------------------------------------------------

    /** A new root node for first character `c`. */
    ghost function AddRoot(c: char): (g: Forest)
    {
      Forest(roots[c := |nodes|], nodes + [WordNode(c, false, map[])],
             words, at[[c] := |nodes|], paths + [[c]])
    }

    /** A new child for `c` under the node in slot `n`, whose path is `p`. */
    ghost function AddChild(n: nat, p: string, c: char): (g: Forest)
      requires n < |nodes|
    {
      Forest(roots, nodes[n := nodes[n].(next := nodes[n].next[c := |nodes|])] + [WordNode(c, false, map[])],
             words, at[p + [c] := |nodes|], paths + [p + [c]])
    }

    /** The node in slot `n`, whose path is `w`, becomes terminal. */
    ghost function Mark(n: nat, w: string): (g: Forest)
      requires n < |nodes|
    {
      Forest(roots, nodes[n := nodes[n].(isWord := true)], words + {w}, at, paths)
    }

    /** Adding a root for the first character of the pending word keeps the invariant. */
    lemma AddRootKeeps(c: char, pending: string)
      requires Building(pending)
      requires c !in roots && [c] <= pending
      ensures AddRoot(c).Building(pending)
      ensures [c] !in at && AddRoot(c).words == words
    {
      assert [c] !in at;
      AddRootTree(c);
      AddRootLinked(c);
      AddRootMarked(c);
      var g := AddRoot(c);
      assert g.Live(pending) by {
        forall p | p in g.at ensures p <= pending || Extended(g.words, p) {
          if p != [c] {
            assert p in at;
          }
        }
      }
    }

    lemma AddRootTree(c: char)
      requires Tree() && [c] !in at
      ensures AddRoot(c).Tree()
    {
      var g := AddRoot(c);
      forall p | p in g.at
        ensures g.at[p] < |g.nodes| && g.paths[g.at[p]] == p
        ensures p != [] && g.nodes[g.at[p]].value == p[|p| - 1]
      {
        if p != [c] {
          assert p in at && g.at[p] == at[p];
        }
      }
      forall i | 0 <= i < |g.paths| ensures g.paths[i] in g.at && g.at[g.paths[i]] == i {
        if i < |paths| {
          assert g.paths[i] == paths[i] && paths[i] in at;
        }
      }
    }

    lemma AddRootLinked(c: char)
      requires Tree() && Linked() && [c] !in at
      requires AddRoot(c).Tree()
      ensures AddRoot(c).Linked()
    {
      var g := AddRoot(c);
      forall p, d | p in g.at && d in g.nodes[g.at[p]].next
        ensures p + [d] in g.at && g.at[p + [d]] == g.nodes[g.at[p]].next[d]
      {
        assert p != [c];
        assert p in at && g.at[p] == at[p];
      }
      forall q {:trigger Parent(q)} | q in g.at && 1 < |q|
        ensures Parent(q) in g.at && q[|q| - 1] in g.nodes[g.at[Parent(q)]].next
      {
        assert q in at;
      }
    }

    lemma AddRootMarked(c: char)
      requires Tree() && Marked() && [c] !in at
      requires AddRoot(c).Tree()
      ensures AddRoot(c).Marked()
    {
      var g := AddRoot(c);
      forall w | w in g.words ensures w in g.at && g.nodes[g.at[w]].isWord {
        assert w in at && at[w] < |nodes|;
      }
      forall p | p in g.at && g.nodes[g.at[p]].isWord ensures p in g.words {
        assert p != [c];
        assert p in at;
      }
    }

    /** Adding a child along the pending word keeps the invariant. */
    lemma AddChildKeeps(n: nat, p: string, c: char, pending: string)
      requires Building(pending)
      requires p in at && at[p] == n && c !in nodes[n].next && p + [c] <= pending
      ensures AddChild(n, p, c).Building(pending)
      ensures p + [c] !in at && AddChild(n, p, c).words == words
    {
      assert Parent(p + [c]) == p;
      AddChildTree(n, p, c);
      AddChildLinked(n, p, c);
      AddChildMarked(n, p, c);
      var g := AddChild(n, p, c);
      assert g.Rooted() by {
        forall r | r in g.at && |r| == 1 ensures r[0] in g.roots {
          assert r in at;
        }
      }
      assert g.Live(pending) by {
        forall r | r in g.at ensures r <= pending || Extended(g.words, r) {
          if r != p + [c] {
            assert r in at;
          }
        }
      }
    }

    lemma AddChildTree(n: nat, p: string, c: char)
      requires Tree() && p in at && at[p] == n && p + [c] !in at
      ensures AddChild(n, p, c).Tree()
    {
      var g := AddChild(n, p, c);
      forall r | r in g.at
        ensures g.at[r] < |g.nodes| && g.paths[g.at[r]] == r
        ensures r != [] && g.nodes[g.at[r]].value == r[|r| - 1]
      {
        if r != p + [c] {
          assert r in at && g.at[r] == at[r];
        }
      }
      forall i | 0 <= i < |g.paths| ensures g.paths[i] in g.at && g.at[g.paths[i]] == i {
        if i < |paths| {
          assert g.paths[i] == paths[i] && paths[i] in at;
        }
      }
    }

    lemma AddChildLinked(n: nat, p: string, c: char)
      requires Tree() && Linked() && p in at && at[p] == n && p + [c] !in at
      requires AddChild(n, p, c).Tree()
      ensures AddChild(n, p, c).Linked()
    {
      AddChildLinksDown(n, p, c);
      AddChildLinksUp(n, p, c);
    }

    /** After adding a child, every child link still leads to the path one longer. */
    lemma AddChildLinksDown(n: nat, p: string, c: char)
      requires Tree() && Linked() && p in at && at[p] == n && p + [c] !in at
      requires AddChild(n, p, c).Tree()
      ensures var g := AddChild(n, p, c);
        forall r, d {:trigger d in g.nodes[g.at[r]].next} :: r in g.at && d in g.nodes[g.at[r]].next ==>
          r + [d] in g.at && g.at[r + [d]] == g.nodes[g.at[r]].next[d]
    {
      var g := AddChild(n, p, c);
      var q := p + [c];
      forall r, d | r in g.at && d in g.nodes[g.at[r]].next
        ensures r + [d] in g.at && g.at[r + [d]] == g.nodes[g.at[r]].next[d]
      {
        assert r != q;
        assert r in at && g.at[r] == at[r] && at[r] < |nodes|;
        if at[r] == n {
          assert r == p;
          if d != c {
            assert d in nodes[n].next && r + [d] in at;
            assert (r + [d])[|r|] == d;
          }
        } else {
          assert g.nodes[at[r]] == nodes[at[r]];
          assert r + [d] in at;
        }
      }
    }

    /** After adding a child, every path still hangs from its parent by its last character. */
    lemma AddChildLinksUp(n: nat, p: string, c: char)
      requires Tree() && Linked() && p in at && at[p] == n && p + [c] !in at
      requires AddChild(n, p, c).Tree()
      ensures var g := AddChild(n, p, c);
        forall r {:trigger Parent(r)} :: r in g.at && 1 < |r| ==>
          Parent(r) in g.at && r[|r| - 1] in g.nodes[g.at[Parent(r)]].next
    {
      var g := AddChild(n, p, c);
      var q := p + [c];
      forall r {:trigger Parent(r)} | r in g.at && 1 < |r|
        ensures Parent(r) in g.at && r[|r| - 1] in g.nodes[g.at[Parent(r)]].next
      {
        if r != q {
          assert r in at && Parent(r) in at;
          assert at[Parent(r)] < |nodes|;
        } else {
          assert Parent(r) == p;
        }
      }
    }

    lemma AddChildMarked(n: nat, p: string, c: char)
      requires Tree() && Marked() && p in at && at[p] == n && p + [c] !in at
      requires AddChild(n, p, c).Tree()
      ensures AddChild(n, p, c).Marked()
    {
      var g := AddChild(n, p, c);
      forall w | w in g.words ensures w in g.at && g.nodes[g.at[w]].isWord {
        assert w in at;
      }
      forall r | r in g.at && g.nodes[g.at[r]].isWord ensures r in g.words {
        assert r != p + [c];
        assert r in at;
      }
    }

    /** Marking the last node of a fully laid out word stores the word and restores the invariant with nothing pending. */
    lemma MarkKeeps(n: nat, w: string)
      requires Building(w)
      requires w in at && at[w] == n && IsUpperCase(w)
      ensures Mark(n, w).Valid()
    {
      var g := Mark(n, w);
      assert g.Tree();
      assert g.Marked() by {
        forall v | v in g.words ensures v in g.at && g.nodes[g.at[v]].isWord {
          if v != w {
            assert v in words;
          }
        }
        forall r | r in g.at && g.nodes[g.at[r]].isWord ensures r in g.words {
          if r != w {
            assert at[r] != n;
            assert r in at;
          }
        }
      }
      assert g.Covered() by {
        forall v, k | v in g.words && 1 <= k <= |v| ensures v[..k] in g.at {
          if v != w {
            assert v in words;
          } else {
            Ancestors(w, k);
          }
        }
      }
      assert g.Live([]) by {
        forall r | r in g.at ensures r <= [] || Extended(g.words, r) {
          if r <= w {
            assert w in g.words;
          } else {
            assert Extended(words, r);
          }
        }
      }
    }
  }
}
