/**
 * The abstract view of the word dictionary: a finite set of non-empty,
 * upper-cased words, and the answers the dictionary's queries give in
 * terms of that set alone.
 */
module WordSet {

  /** Answers of the four-way lookup, with the source's integer codes. */
  const ABSENT: int := -1          // not a word, and no stored word continues it
  const PREFIX_ONLY: int := 0      // not a word, but some stored word continues it
  const WORD_NO_NEXT: int := 1     // a word, and no stored word continues it
  const WORD_HAS_NEXT: int := 2    // a word, and some stored word continues it

  /** ASCII upper-casing of one character; every other character is kept. */
  function Upper(c: char): (u: char)
    ensures !('a' <= u <= 'z')
  {
    if 'a' <= c <= 'z' then (c as int - 32) as char else c
  }

  /** A word without lower-case ASCII letters. */
  predicate IsUpperCase(w: string)
  {
    forall i :: 0 <= i < |w| ==> !('a' <= w[i] <= 'z')
  }

  /** Character-by-character upper-casing of a word. */
  function UpperWord(s: string): (u: string)
    ensures |u| == |s|
    ensures forall i :: 0 <= i < |s| ==> u[i] == Upper(s[i])
    ensures IsUpperCase(u)
  {
    if s == [] then [] else [Upper(s[0])] + UpperWord(s[1..])
  }

  /** A word the dictionary can hold: non-empty and already upper-cased. */
  predicate IsStored(w: string)
  {
    w != [] && IsUpperCase(w)
  }

  /** Upper-casing leaves an upper-case word as it is. */
  lemma {:induction false} UpperCaseFixed(s: string)
    requires IsUpperCase(s)
    ensures UpperWord(s) == s
  {
    if s != [] {
      assert IsUpperCase(s[1..]) by {
        forall i | 0 <= i < |s[1..]| ensures !('a' <= s[1..][i] <= 'z') {
          assert s[1..][i] == s[i + 1];
        }
      }
      UpperCaseFixed(s[1..]);
      assert s == [s[0]] + s[1..];
    }
  }

  /** Upper-casing is idempotent. */
  lemma UpperWordIdempotent(s: string)
    ensures UpperWord(UpperWord(s)) == UpperWord(s)
  {
    UpperCaseFixed(UpperWord(s));
  }

  /** Some stored word is strictly longer than `w` and starts with `w`. */
  predicate Continued(ws: set<string>, w: string)
  {
    exists v :: v in ws && w < v
  }

  /** Some stored word starts with `p` (or is `p`). */
  predicate Extended(ws: set<string>, p: string)
  {
    exists v :: v in ws && p <= v
  }

  /** The effect of inserting `word`: nothing for the empty word, else its upper-cased form joins. */
  function Insert(ws: set<string>, word: string): (r: set<string>)
  {
    if word == [] then ws else ws + {UpperWord(word)}
  }

  /** Repeated insertion, in list order. */
  function InsertAll(ws: set<string>, words: seq<string>): (r: set<string>)
    decreases |words|
  {
    if words == [] then ws else InsertAll(Insert(ws, words[0]), words[1..])
  }

  /** The upper-cased forms of the non-empty words of a list. */
  function Normalised(words: seq<string>): (r: set<string>)
  {
    set i | 0 <= i < |words| && words[i] != [] :: UpperWord(words[i])
  }

  /** The answer of the four-way lookup on the word set `ws`. */
  function QueryState(ws: set<string>, word: string): (r: int)
  {
    var w := UpperWord(word);
    if w == [] then ABSENT
    else if w in ws then (if Continued(ws, w) then WORD_HAS_NEXT else WORD_NO_NEXT)
    else if Continued(ws, w) then PREFIX_ONLY
    else ABSENT
  }

  /** The answer of the "stored and continued" query on the word set `ws`. */
  function HasLongerWord(ws: set<string>, word: string): (r: bool)
  {
    var w := UpperWord(word);
    w != [] && w in ws && Continued(ws, w)
  }

  /** A list without repeated entries. */
  predicate NoDuplicates(s: seq<string>)
  {
    forall i, j :: 0 <= i < j < |s| ==> s[i] != s[j]
  }

  // ---------------------------------------------------------------------
  // Properties of the abstract view
  // ---------------------------------------------------------------------

  /** The lookup answer is exactly what the set says, in all four cases. */
  lemma QueryStateCases(ws: set<string>, word: string)
    ensures QueryState(ws, word) in {ABSENT, PREFIX_ONLY, WORD_NO_NEXT, WORD_HAS_NEXT}
    ensures QueryState(ws, word) == ABSENT <==>
              word == [] || forall v :: v in ws ==> !(UpperWord(word) <= v)
    ensures QueryState(ws, word) == PREFIX_ONLY <==>
              word != [] && UpperWord(word) !in ws && Continued(ws, UpperWord(word))
    ensures QueryState(ws, word) == WORD_NO_NEXT <==>
              word != [] && UpperWord(word) in ws && !Continued(ws, UpperWord(word))
    ensures QueryState(ws, word) == WORD_HAS_NEXT <==>
              word != [] && UpperWord(word) in ws && Continued(ws, UpperWord(word))
  {
    var w := UpperWord(word);
    if w != [] && w !in ws && !Continued(ws, w) {
      forall v | v in ws ensures !(w <= v) {
        assert v != w;
        assert w <= v ==> w < v;
      }
    }
  }

  /** Lookups ignore case: a query and its upper-cased form get the same answer. */
  lemma QueryIgnoresCase(ws: set<string>, word: string)
    ensures QueryState(ws, word) == QueryState(ws, UpperWord(word))
    ensures HasLongerWord(ws, word) == HasLongerWord(ws, UpperWord(word))
  {
    UpperWordIdempotent(word);
  }

  /** "Stored and continued" holds exactly when the lookup answers WORD_HAS_NEXT. */
  lemma HasLongerWordIsQueryTwo(ws: set<string>, word: string)
    ensures HasLongerWord(ws, word) <==> QueryState(ws, word) == WORD_HAS_NEXT
    ensures word == [] ==> !HasLongerWord(ws, word)
    ensures QueryState(ws, word) == PREFIX_ONLY ==> !HasLongerWord(ws, word)
  {
  }

  /** After inserting a non-empty word, looking it up finds it. */
  lemma InsertedIsFound(ws: set<string>, word: string)
    requires word != []
    ensures QueryState(Insert(ws, word), word) in {WORD_NO_NEXT, WORD_HAS_NEXT}
  {
  }

  /** Insertion never loses a word, so a found word stays found after more insertions. */
  lemma FoundPersists(ws: set<string>, word: string, more: seq<string>)
    requires QueryState(ws, word) in {WORD_NO_NEXT, WORD_HAS_NEXT}
    ensures ws <= InsertAll(ws, more)
    ensures QueryState(InsertAll(ws, more), word) in {WORD_NO_NEXT, WORD_HAS_NEXT}
  {
    InsertAllIsUnion(ws, more);
  }

  /** A stored word that is a strict prefix of another stored word answers WORD_HAS_NEXT. */
  lemma InsertedPrefix(ws: set<string>, w1: string, w2: string)
    requires w1 != [] && UpperWord(w1) < UpperWord(w2)
    ensures QueryState(Insert(Insert(ws, w1), w2), w1) == WORD_HAS_NEXT
    ensures HasLongerWord(Insert(Insert(ws, w1), w2), w1)
  {
    var after := Insert(Insert(ws, w1), w2);
    assert UpperWord(w2) in after;
    assert Continued(after, UpperWord(w1));
  }

  /** A strict prefix of a stored word that was never stored itself answers PREFIX_ONLY. */
  lemma UninsertedPrefix(ws: set<string>, w1: string, w2: string)
    requires w1 != [] && UpperWord(w1) < UpperWord(w2) && UpperWord(w1) !in ws
    ensures QueryState(Insert(ws, w2), w1) == PREFIX_ONLY
    ensures !HasLongerWord(Insert(ws, w2), w1)
  {
    var after := Insert(ws, w2);
    assert UpperWord(w2) in after;
    assert Continued(after, UpperWord(w1));
  }

  /** Inserting a word twice is the same as inserting it once. */
  lemma InsertIdempotent(ws: set<string>, word: string)
    ensures Insert(Insert(ws, word), word) == Insert(ws, word)
    ensures Insert(Insert(ws, word), UpperWord(word)) == Insert(ws, word)
  {
    UpperWordIdempotent(word);
  }

  /** Re-inserting a stored word changes nothing. */
  lemma InsertStored(ws: set<string>, w: string)
    requires IsStored(w)
    ensures Insert(ws, w) == ws + {w}
  {
    UpperCaseFixed(w);
  }

  /** Repeated insertion adds exactly the normalised non-empty words, whatever their order. */
  lemma {:induction false} InsertAllIsUnion(ws: set<string>, words: seq<string>)
    ensures InsertAll(ws, words) == ws + Normalised(words)
    decreases |words|
  {
    if words != [] {
      InsertAllIsUnion(Insert(ws, words[0]), words[1..]);
      var rest := Normalised(words[1..]);
      assert Normalised(words) == Normalised([words[0]]) + rest by {
        forall v | v in Normalised(words) ensures v in Normalised([words[0]]) + rest {
          var i :| 0 <= i < |words| && words[i] != [] && v == UpperWord(words[i]);
          if i > 0 {
            assert words[1..][i - 1] == words[i];
          }
        }
        forall v | v in rest ensures v in Normalised(words) {
          var i :| 0 <= i < |words[1..]| && words[1..][i] != [] && v == UpperWord(words[1..][i]);
          assert words[i + 1] == words[1..][i];
        }
      }
      if words[0] == [] {
        assert Normalised([words[0]]) == {};
      } else {
        assert UpperWord([words[0]][0]) in Normalised([words[0]]);
        assert Normalised([words[0]]) == {UpperWord(words[0])};
      }
    }
  }

  /** A list that enumerates a set of stored words normalises to that set. */
  lemma NormalisedEnumeration(ws: set<string>, list: seq<string>)
    requires forall w :: w in ws ==> IsStored(w)
    requires forall v :: v in list <==> v in ws
    ensures Normalised(list) == ws
  {
    forall v | v in ws ensures v in Normalised(list) {
      var i :| 0 <= i < |list| && list[i] == v;
      UpperCaseFixed(v);
      assert UpperWord(list[i]) == v;
    }
    forall v | v in Normalised(list) ensures v in ws {
      var i :| 0 <= i < |list| && list[i] != [] && v == UpperWord(list[i]);
      assert list[i] in ws;
      UpperCaseFixed(list[i]);
    }
  }

  /**
   * Merging is commutative on the resulting word sets: re-inserting an
   * enumeration of `b` into `a` gives the same set as re-inserting an
   * enumeration of `a` into `b`, namely the union.
   */
  lemma MergeCommutes(a: set<string>, b: set<string>, listA: seq<string>, listB: seq<string>)
    requires forall w :: w in a ==> IsStored(w)
    requires forall w :: w in b ==> IsStored(w)
    requires forall v :: v in listA <==> v in a
    requires forall v :: v in listB <==> v in b
    ensures InsertAll(a, listB) == a + b
    ensures InsertAll(a, listB) == InsertAll(b, listA)
  {
    InsertAllIsUnion(a, listB);
    InsertAllIsUnion(b, listA);
    NormalisedEnumeration(a, listA);
    NormalisedEnumeration(b, listB);
  }

  /** Inserting three stored words, in any order, stores exactly those three. */
  lemma InsertThree(a: string, b: string, c: string)
    requires IsStored(a) && IsStored(b) && IsStored(c)
    ensures InsertAll({}, [a, b, c]) == {a, b, c}
  {
    var list := [a, b, c];
    InsertAllIsUnion({}, list);
    UpperCaseFixed(a);
    UpperCaseFixed(b);
    UpperCaseFixed(c);
    assert UpperWord(list[0]) == a && UpperWord(list[1]) == b && UpperWord(list[2]) == c;
    assert Normalised(list) == {a, b, c};
  }

  /** The worked example, first half: inserting CAT, CATALOG and DOG stores exactly those. */
  lemma CatalogWords()
    ensures InsertAll({}, ["CAT", "CATALOG", "DOG"]) == {"CAT", "CATALOG", "DOG"}
  {
    InsertThree("CAT", "CATALOG", "DOG");
  }

  /**
   * The worked example, second half: with CAT, CATALOG and DOG stored, the
   * lookups of CAT, CATALOG, CA and DOGS answer WORD_HAS_NEXT, WORD_NO_NEXT,
   * PREFIX_ONLY and ABSENT.
   */
  lemma CatalogQueries()
    ensures QueryState({"CAT", "CATALOG", "DOG"}, "CAT") == WORD_HAS_NEXT
    ensures QueryState({"CAT", "CATALOG", "DOG"}, "CATALOG") == WORD_NO_NEXT
    ensures QueryState({"CAT", "CATALOG", "DOG"}, "CA") == PREFIX_ONLY
    ensures QueryState({"CAT", "CATALOG", "DOG"}, "DOGS") == ABSENT
  {
    QueryCat();
    QueryCatalog();
    QueryCa();
    QueryDogs();
  }

  lemma QueryCat()
    ensures QueryState({"CAT", "CATALOG", "DOG"}, "CAT") == WORD_HAS_NEXT
  {
    UpperCaseFixed("CAT");
    assert "CAT" < "CATALOG";
  }

  lemma QueryCatalog()
    ensures QueryState({"CAT", "CATALOG", "DOG"}, "CATALOG") == WORD_NO_NEXT
  {
    var ws: set<string> := {"CAT", "CATALOG", "DOG"};
    var w := "CATALOG";
    UpperCaseFixed(w);
    assert !Continued(ws, w) by {
      forall v | v in ws ensures !(w < v) {
        assert |v| <= 7;
      }
    }
    QueryStateCases(ws, w);
  }

  lemma QueryCa()
    ensures QueryState({"CAT", "CATALOG", "DOG"}, "CA") == PREFIX_ONLY
  {
    UpperCaseFixed("CA");
    assert "CA" < "CAT";
  }

  lemma QueryDogs()
    ensures QueryState({"CAT", "CATALOG", "DOG"}, "DOGS") == ABSENT
  {
    var ws: set<string> := {"CAT", "CATALOG", "DOG"};
    UpperCaseFixed("DOGS");
    forall v | v in ws ensures !("DOGS" < v) {
      assert v == "CAT" || v == "CATALOG" || v == "DOG";
      assert |v| < 4 || v[0] == 'C';
    }
  }

  /** Joining two duplicate-free lists with no common entry gives a duplicate-free list. */
  lemma NoDuplicatesAppend(a: seq<string>, b: seq<string>)
    requires NoDuplicates(a) && NoDuplicates(b)
    requires forall v :: v in b ==> v !in a
    ensures NoDuplicates(a + b)
  {
    forall i, j | 0 <= i < j < |a + b| ensures (a + b)[i] != (a + b)[j] {
      if j < |a| {
        assert (a + b)[i] == a[i] && (a + b)[j] == a[j];
      } else if i < |a| {
        assert (a + b)[i] == a[i] && a[i] in a;
        assert (a + b)[j] == b[j - |a|] && b[j - |a|] in b;
      } else {
        assert (a + b)[i] == b[i - |a|] && (a + b)[j] == b[j - |a|];
      }
    }
  }

  /**
   * One step of a depth-first enumeration below `path`: the segment
   * appended so far lists the words at `path` or through the children in
   * `done`; appending the words through child `c` extends it to `done + {c}`.
   */
  lemma ChildWordsAppended(ws: set<string>, path: string, c: char, done: set<char>,
                           list: seq<string>, before: seq<string>, out: seq<string>)
    requires |list| <= |before| <= |out| && before[..|list|] == list && out[..|before|] == before
    requires forall v :: v in before[|list|..] <==>
               v in ws && path <= v && (v == path || (|path| < |v| && v[|path|] in done))
    requires forall v :: v in out[|before|..] <==> v in ws && path + [c] <= v
    requires NoDuplicates(before[|list|..]) && NoDuplicates(out[|before|..])
    requires c !in done
    ensures out[..|list|] == list
    ensures forall v :: v in out[|list|..] <==>
              v in ws && path <= v && (v == path || (|path| < |v| && v[|path|] in done + {c}))
    ensures NoDuplicates(out[|list|..])
  {
    var seg, added := before[|list|..], out[|before|..];
    assert out[|list|..] == seg + added;
    assert out[..|list|] == before[..|list|];
    forall v | v in added ensures |path| < |v| && v[|path|] == c && v !in seg {
      assert path + [c] <= v;
      assert v[|path|] == (path + [c])[|path|];
    }
    forall v | v in ws && path <= v && |path| < |v| && v[|path|] == c ensures v in added {
      assert v[..|path| + 1] == path + [c];
    }
    NoDuplicatesAppend(seg, added);
  }
}
