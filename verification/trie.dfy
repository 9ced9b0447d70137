/**
 * The trie ("forest") word dictionary. A map from a word's first character
 * to a root node; each node holds one character, a terminal flag and its
 * children keyed by the next character. Words are upper-cased on the way
 * in and on every query.
 *
 * The dictionary's fields are updated in place; the nodes are values in
 * its node store `nodes` (see module TrieShape), changed by replacing
 * their slot.
 */
module Trie {
  import opened WordSet
  import opened TrieShape

  datatype Option<T> = None | Some(value: T)

  /** A dictionary argument of a merge: this implementation, or any other. */
  datatype DictionaryRef = Trie(dict: MyDictionary) | Foreign

  /** Outcome of a merge: done, or refused because the argument is of another kind. */
  datatype MergeOutcome = Merged | TypeMismatch

  class MyDictionary {
    var wordNodeMap: map<char, nat>
    var nodes: seq<WordNode>
    ghost var words: set<string>
    ghost var at: map<string, nat>
    ghost var paths: seq<string>

    /** The fields as one value. */
    ghost function State(): Forest
      reads this
    {
      Forest(wordNodeMap, nodes, words, at, paths)
    }

    ghost predicate Valid()
      reads this
    {
      State().Valid()
    }

    constructor ()
      ensures Valid() && words == {}
    {
      wordNodeMap := map[];
      nodes := [];
      words := {};
      at := map[];
      paths := [];
    }

    /** A dictionary holding the given words, inserted in order. */
    constructor FromWords(ws: seq<string>)
      ensures Valid() && words == InsertAll({}, ws)
    {
      wordNodeMap := map[];
      nodes := [];
      words := {};
      at := map[];
      paths := [];
      new;
      LoadDictionary(ws);
    }

    // -------------------------------------------------------------------
    // Insertion
    // -------------------------------------------------------------------

    /** Creates the root node for first character `c`, in a fresh slot. */
    method NewRoot(c: char, ghost pending: string) returns (root: nat)
      requires State().Building(pending)
      requires c !in wordNodeMap && [c] <= pending
      modifies this
      ensures State() == old(State()).AddRoot(c) && root == |old(nodes)|
      ensures State().Building(pending) && root == at[[c]] && [c] !in old(at)
    {
      State().AddRootKeeps(c, pending);
      root := |nodes|;
      wordNodeMap := wordNodeMap[c := root];
      nodes := nodes + [WordNode(c, false, map[])];
      at := at[[c] := root];
      paths := paths + [[c]];
    }

    /** Hangs a fresh, non-terminal, childless node for `c` under the node in slot `n`, at path `p`. */
    method NewChild(n: nat, ghost p: string, c: char, ghost pending: string) returns (child: nat)
      requires State().Building(pending)
      requires p in at && at[p] == n && c !in nodes[n].next && p + [c] <= pending
      modifies this
      ensures State() == old(State()).AddChild(n, p, c) && child == |old(nodes)|
      ensures State().Building(pending) && child == at[p + [c]] && p + [c] !in old(at)
    {
      State().AddChildKeeps(n, p, c, pending);
      child := |nodes|;
      nodes := nodes[n := nodes[n].(next := nodes[n].next[c := child])] + [WordNode(c, false, map[])];
      at := at[p + [c] := child];
      paths := paths + [p + [c]];
    }

    /** Sets the terminal flag of the node in slot `n`, the last node of the insertion of `w`. */
    method MarkWord(n: nat, ghost w: string)
      requires State().Building(w)
      requires w in at && at[w] == n && IsUpperCase(w)
      modifies this
      ensures State() == old(State()).Mark(n, w)
      ensures Valid()
    {
      State().MarkKeeps(n, w);
      nodes := nodes[n := nodes[n].(isWord := true)];
      words := words + {w};
    }

    /**
     * The child for `w[i]` of the node in slot `n`, the node at `w[..i]`,
     * created when missing: one step of the descent of the insertion of `w`.
     */
    method ChildFor(n: nat, w: string, i: nat) returns (next: nat)
      requires State().Building(w)
      requires i < |w| && w[..i] in at && at[w[..i]] == n
      modifies this
      ensures State().Building(w)
      ensures w[..i + 1] in at && at[w[..i + 1]] == next
      ensures words == old(words) && old(paths) <= paths
      ensures old(w[..i + 1] in at) ==> unchanged(this)
      ensures old(w[..i + 1] !in at) ==> State() == old(State()).AddChild(n, w[..i], w[i])
    {
      assert w[..i + 1] == w[..i] + [w[i]];
      if w[i] in nodes[n].next {
        next := nodes[n].next[w[i]];
      } else {
        assert Parent(w[..i + 1]) == w[..i];
        assert w[..i + 1] !in at;
        next := NewChild(n, w[..i], w[i], w);
      }
    }

    /**
     * Walks the upper-cased word `w` down from its root, creating every
     * missing node on the way: the slot of the node at `w`.
     */
    method LayOut(w: string) returns (n: nat)
      requires State().Building(w) && w != []
      modifies this
      ensures State().Building(w)
      ensures w in at && at[w] == n
      ensures words == old(words) && old(paths) <= paths
    {
      if w[0] in wordNodeMap {
        n := wordNodeMap[w[0]];
      } else {
        n := NewRoot(w[0], w);
      }
      assert w[..1] == [w[0]];
      var i := 1;
      while i < |w|
        invariant 1 <= i <= |w|
        invariant State().Building(w)
        invariant w[..i] in at && at[w[..i]] == n
        invariant words == old(words)
        invariant old(paths) <= paths
      {
        n := ChildFor(n, w, i);
        i := i + 1;
      }
      assert w[..i] == w;
    }

    /**
     * Inserts the upper-cased `word`; the empty word changes nothing. The
     * forest only grows: nodes are only ever appended to the store, and each
     * keeps its path.
     */
    method AddWord(word: string)
      requires Valid()
      modifies this
      ensures Valid()
      ensures words == Insert(old(words), word)
      ensures word == [] ==> unchanged(this)
      ensures old(paths) <= paths
    {
      if word == [] {
        return;
      }
      var w := UpperWord(word);
      assert State().Building(w) by {
        forall r | r in at ensures r <= w || Extended(words, r) {
          assert !(r <= []);
        }
      }
      var n := LayOut(w);
      MarkWord(n, w);
    }

    // -------------------------------------------------------------------
    // Queries
    // -------------------------------------------------------------------

    /**
     * Follows the upper-cased word `w` from its root, one character at a
     * time, stopping at the first missing node: the slot of the node at
     * `w`, or None when the forest has no such path.
     */
    method Descend(w: string) returns (node: Option<nat>)
      requires Valid() && w != []
      ensures node == (if w in at then Some(at[w]) else None)
      ensures node.None? ==> !Extended(words, w)
    {
      node := if w[0] in wordNodeMap then Some(wordNodeMap[w[0]]) else None;
      assert w[..1] == [w[0]];
      var i := 1;
      while i < |w|
        invariant 1 <= i <= |w|
        invariant node == (if w[..i] in at then Some(at[w[..i]]) else None)
      {
        if node.None? {
          State().OffTrie(w[..i]);
          assert w !in at by {
            if w in at {
              State().Ancestors(w, i);
            }
          }
          forall v | v in words && |w| <= |v| ensures v[..|w|] != w {
            assert v[..i] == v[..|w|][..i];
          }
          return None;
        }
        assert w[..i + 1] == w[..i] + [w[i]];
        assert Parent(w[..i + 1]) == w[..i];
        node := if w[i] in nodes[node.value].next then Some(nodes[node.value].next[w[i]]) else None;
        i := i + 1;
      }
      assert w[..i] == w;
      if node.None? {
        State().OffTrie(w);
      }
    }

    /**
     * The four-way lookup: ABSENT (-1), PREFIX_ONLY (0), WORD_NO_NEXT (1) or
     * WORD_HAS_NEXT (2), as the stored word set determines it.
     */
    method IsWord(word: string) returns (r: int)
      requires Valid()
      ensures r == QueryState(words, word)
    {
      if word == [] {
        return ABSENT;
      }
      var w := UpperWord(word);
      var node := Descend(w);
      if node.None? {
        return ABSENT;
      }
      State().NextIffContinued(w);
      if !nodes[node.value].isWord {
        assert Extended(words, w);
        ghost var v :| v in words && w <= v;
        assert v != w;
        return PREFIX_ONLY;
      } else if !nodes[node.value].HasNext() {
        return WORD_NO_NEXT;
      } else {
        return WORD_HAS_NEXT;
      }
    }

    /** Whether `word` is stored and some stored word strictly extends it. */
    method IsWordHasNext(word: string) returns (b: bool)
      requires Valid()
      ensures b == HasLongerWord(words, word)
    {
      if word == [] {
        return false;
      }
      var w := UpperWord(word);
      var node := Descend(w);
      if node.None? || !nodes[node.value].isWord {
        return false;
      }
      State().NextIffContinued(w);
      return nodes[node.value].HasNext();
    }

    /**
     * Depth-first enumeration below the node in slot `n`: appends to `list`
     * every stored word that starts with the path `prefix + [value]` of
     * that node, each once.
     */
    method GetWords(n: nat, prefix: string, list: seq<string>) returns (out: seq<string>)
      requires Valid()
      requires n < |nodes| && prefix + [nodes[n].value] in at && at[prefix + [nodes[n].value]] == n
      ensures |list| <= |out| && out[..|list|] == list
      ensures forall v :: v in out[|list|..] <==> v in words && prefix + [nodes[n].value] <= v
      ensures NoDuplicates(out[|list|..])
      decreases State().Below(prefix + [nodes[n].value])
    {
      var node := nodes[n];
      var path := prefix + [node.value];
      out := list;
      if node.isWord {
        out := out + [path];
      }
      assert out[|list|..] == if node.isWord then [path] else [];
      var keys := node.next.Keys;
      ghost var done: set<char> := {};
      while keys != {}
        invariant keys + done == node.next.Keys && keys !! done
        invariant |list| <= |out| && out[..|list|] == list
        invariant forall v :: v in out[|list|..] <==>
                    v in words && path <= v && (v == path || (|path| < |v| && v[|path|] in done))
        invariant NoDuplicates(out[|list|..])
        decreases keys
      {
        var c :| c in keys;
        var child := node.next[c];
        assert path + [c] in at && at[path + [c]] == child;
        assert nodes[child].value == c;
        State().BelowShrinks(path, c);
        var before := out;
        out := GetWords(child, path, out);
        ChildWordsAppended(words, path, c, done, list, before, out);
        keys := keys - {c};
        done := done + {c};
      }
      forall v | v in words && path <= v && v != path
        ensures |path| < |v| && v[|path|] in node.next
      {
        State().StepDown(path, v);
      }
    }

    /** Every stored word, each exactly once, in an unspecified order. */
    method GetAllWord() returns (list: seq<string>)
      requires Valid()
      ensures forall v :: v in list <==> v in words
      ensures NoDuplicates(list)
    {
      list := [];
      var roots := wordNodeMap.Keys;
      ghost var done: set<char> := {};
      while roots != {}
        invariant roots + done == wordNodeMap.Keys && roots !! done
        invariant forall v :: v in list <==> v in words && v != [] && v[0] in done
        invariant NoDuplicates(list)
        decreases roots
      {
        var c :| c in roots;
        var root := wordNodeMap[c];
        assert [] + [nodes[root].value] == [c];
        var before := list;
        list := GetWords(root, [], list);
        var added := list[|before|..];
        assert list == before + added;
        forall v | v in added ensures v != [] && v[0] == c && v !in before {
          assert [c] <= v;
        }
        NoDuplicatesAppend(before, added);
        roots := roots - {c};
        done := done + {c};
      }
      forall v | v in words ensures v != [] && v[0] in wordNodeMap {
        assert v[..1] in at && v[..1] == [v[0]];
      }
    }

    // -------------------------------------------------------------------
    // Bulk insertion and merge
    // -------------------------------------------------------------------

    /** Inserts every line, in order, as `AddWord` would. */
    method LoadDictionary(lines: seq<string>)
      requires Valid()
      modifies this
      ensures Valid()
      ensures words == InsertAll(old(words), lines)
    {
      var i := 0;
      while i < |lines|
        invariant 0 <= i <= |lines|
        invariant Valid()
        invariant InsertAll(words, lines[i..]) == InsertAll(old(words), lines)
      {
        assert lines[i..][1..] == lines[i + 1..];
        AddWord(lines[i]);
        i := i + 1;
      }
    }

    /**
     * Re-inserts every word of `other`; refuses a dictionary of another
     * implementation before changing anything.
     */
    method MergeDictionary(other: DictionaryRef) returns (r: MergeOutcome)
      requires Valid()
      requires other.Trie? ==> other.dict.Valid()
      modifies this
      ensures Valid()
      ensures other.Foreign? ==> r == TypeMismatch && unchanged(this)
      ensures other.Trie? ==> r == Merged && words == old(words) + old(other.dict.words)
      ensures other.Trie? && other.dict != this ==> unchanged(other.dict)
    {
      if !other.Trie? {
        return TypeMismatch;
      }
      var all := other.dict.GetAllWord();
      ghost var ws := words;
      forall w | w in other.dict.words ensures IsStored(w) {
        assert w in other.dict.at;
      }
      NormalisedEnumeration(other.dict.words, all);
      LoadDictionary(all);
      InsertAllIsUnion(ws, all);
      r := Merged;
    }
  }
}
