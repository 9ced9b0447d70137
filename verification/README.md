# Trie word dictionary (`MyDictionary`) in Dafny

This project models `MyDictionary`, the forest-shaped trie dictionary in
`src/main/java/dictionary/MyDictionary.java`, and proves its behaviour
against an abstract view. The abstract view is a set of non-empty,
upper-cased words.

- The dictionary maps the first character of a word to a root node
  (`wordNodeMap`).
- Each node holds one character, a terminal flag (`isWord`) and its
  children keyed by the next character.
- Words are upper-cased when they are inserted and on every query.

The model has three modules:

- `WordSet` (`words.dfy`): the abstract view. It defines upper-casing
  (`Upper`, `UpperWord`) and insertion on a word set (`Insert`,
  `InsertAll`). It also defines the answers of the four-way lookup
  (`QueryState`) and of the "stored and continued" query (`HasLongerWord`),
  with the properties they satisfy.
- `TrieShape` (`forest.dfy`): the node store as a value (`Forest`) and its
  invariant. The invariant says:
  - every path names one node, and no node has two paths;
  - the roots are the nodes of the one-character paths;
  - the children of a node are the nodes of the paths one character longer;
  - the terminal nodes are exactly the stored words;
  - every prefix of a stored word is a path;
  - every path leads to a stored word.

  It also holds one lemma per insertion step showing that the step keeps
  this invariant.
- `Trie` (`trie.dfy`): the class `MyDictionary`. Its methods update the
  fields in place, with loops where the source loops. Each method is proved
  against `WordSet`. For example, `IsWord` returns
  `QueryState(words, word)` and `AddWord` leaves
  `words == Insert(old(words), word)`.

Two things about the representation of nodes:

- Nodes live in the dictionary's node store `nodes` and are referred to by
  their slot in it.
- A node is changed by replacing its slot, and a new node is appended to
  the store.

The ghost fields `words`, `at` (path to slot) and `paths` (slot to path)
tie the store to the abstract set.

## Model

| member | source | states |
|---|---|---|
| WordSet.Upper | src/main/java/dictionary/MyDictionary.java:77 | upper-casing one character never yields a lower-case ASCII letter (`a`-`z` map to `A`-`Z`, every other character is kept) |
| WordSet.UpperWord | src/main/java/dictionary/MyDictionary.java:77-78 | upper-casing a word keeps its length, upper-cases every character in place, and yields an upper-case word |
| WordSet.UpperCaseFixed | src/main/java/dictionary/MyDictionary.java:37-38 | an already upper-case word is left unchanged, so stored words re-inserted by a merge are stored as they are |
| WordSet.UpperWordIdempotent | src/main/java/dictionary/MyDictionary.java:110 | upper-casing twice is upper-casing once |
| WordSet.QueryStateCases | src/main/java/dictionary/MyDictionary.java:100-128 | the lookup answers -1 exactly when the word is empty or is a prefix of no stored word, 0 exactly when it is a strict prefix of a stored word but not stored itself, 1 exactly when it is stored and no stored word extends it, and 2 exactly when it is stored and some stored word extends it |
| WordSet.QueryIgnoresCase | src/main/java/dictionary/MyDictionary.java:106-112 | both lookups give the same answer for a word and for its upper-cased form |
| WordSet.HasLongerWordIsQueryTwo | src/main/java/dictionary/MyDictionary.java:54-71 | `isWordHasNext` is true exactly when `isWord` answers 2; it is false for the empty word and for a prefix that is not stored |
| WordSet.InsertedIsFound | src/main/java/dictionary/MyDictionary.java:73-99 | after inserting a non-empty word, its lookup answers 1 or 2 |
| WordSet.FoundPersists | src/main/java/dictionary/MyDictionary.java:73-99 | later insertions never lose a word, so a found word stays found |
| WordSet.InsertedPrefix | src/main/java/dictionary/MyDictionary.java:119-126 | when two words are inserted and the first is a strict prefix of the second, the first answers 2 and `isWordHasNext` holds for it |
| WordSet.UninsertedPrefix | src/main/java/dictionary/MyDictionary.java:119-122 | a strict prefix of an inserted word that was never stored itself answers 0, and `isWordHasNext` is false for it |
| WordSet.InsertIdempotent | src/main/java/dictionary/MyDictionary.java:79-98 | inserting a word twice, or once in each case form, gives the same set as inserting it once |
| WordSet.InsertStored | src/main/java/dictionary/MyDictionary.java:37-39 | inserting an already stored-form word adds exactly that word |
| WordSet.InsertAllIsUnion | src/main/java/dictionary/MyDictionary.java:24-29 | inserting a list of words, in order, adds exactly the upper-cased non-empty words of the list, whatever their order |
| WordSet.NormalisedEnumeration | src/main/java/dictionary/MyDictionary.java:37-39 | re-inserting a list that enumerates a set of stored words adds exactly that set |
| WordSet.MergeCommutes | src/main/java/dictionary/MyDictionary.java:33-40 | merging `b` into `a` and merging `a` into `b` give the same word set, the union |
| WordSet.InsertThree | src/main/java/dictionary/MyDictionary.java:24-29 | building a dictionary from three words already in stored form stores exactly those three |
| WordSet.CatalogWords | src/main/java/dictionary/MyDictionary.java:24-29 | the dictionary built from CAT, CATALOG and DOG holds exactly those three words |
| WordSet.CatalogQueries | src/main/java/dictionary/MyDictionary.java:106-128 | with CAT, CATALOG and DOG stored, the lookups of CAT, CATALOG, CA and DOGS answer 2, 1, 0 and -1 |
| WordSet.NoDuplicatesAppend | src/main/java/dictionary/MyDictionary.java:47-49 | joining duplicate-free enumerations with no common word gives a duplicate-free enumeration |
| WordSet.ChildWordsAppended | src/main/java/dictionary/MyDictionary.java:48 | in the depth-first enumeration, appending the words below one more child extends the list of words below the node to that child, without repeats |
| TrieShape.Forest.OffTrie | src/main/java/dictionary/MyDictionary.java:112-120 | when the walk finds no node for a word, no stored word starts with it, so -1 is the right answer |
| TrieShape.Forest.Ancestors | src/main/java/dictionary/MyDictionary.java:89-96 | every non-empty prefix of a path in the forest is a path, which is why the walk can stop at the first missing node |
| TrieShape.Forest.StepDown | src/main/java/dictionary/MyDictionary.java:48 | a stored word strictly below a node passes through one of its children, so visiting the children finds every word below it |
| TrieShape.Forest.NextIffContinued | src/main/java/dictionary/MyDictionary.java:121-127 | a node has a child exactly when some stored word strictly extends its path, which makes `hasNext` the continuation test |
| TrieShape.Forest.BelowShrinks | src/main/java/dictionary/MyDictionary.java:48 | the paths below a child are strictly fewer than the paths below its parent, so the recursive enumeration ends |
| TrieShape.Forest.AddRootKeeps | src/main/java/dictionary/MyDictionary.java:81-86 | creating the missing root for the first character keeps the invariant and adds no word |
| TrieShape.Forest.AddRootTree | src/main/java/dictionary/MyDictionary.java:81-86 | after a new root, every path still names one node and every node one path |
| TrieShape.Forest.AddRootLinked | src/main/java/dictionary/MyDictionary.java:81-86 | after a new root, child links still lead to the paths one longer |
| TrieShape.Forest.AddRootMarked | src/main/java/dictionary/MyDictionary.java:81-86 | a new root is not terminal, so the terminal nodes are still exactly the stored words |
| TrieShape.Forest.AddChildKeeps | src/main/java/dictionary/MyDictionary.java:90-94 | hanging a missing child along the word being inserted keeps the invariant and adds no word |
| TrieShape.Forest.AddChildTree | src/main/java/dictionary/MyDictionary.java:92 | after a new child, every path still names one node and every node one path |
| TrieShape.Forest.AddChildLinked | src/main/java/dictionary/MyDictionary.java:92-93 | after a new child, the parent's new link leads to it and every other link is unchanged |
| TrieShape.Forest.AddChildLinksDown | src/main/java/dictionary/MyDictionary.java:92-93 | after a new child, every child link leads to the path one character longer |
| TrieShape.Forest.AddChildLinksUp | src/main/java/dictionary/MyDictionary.java:92-93 | after a new child, every path still hangs from its parent by its last character |
| TrieShape.Forest.AddChildMarked | src/main/java/dictionary/MyDictionary.java:92 | a new child is not terminal, so the terminal nodes are still exactly the stored words |
| TrieShape.Forest.MarkKeeps | src/main/java/dictionary/MyDictionary.java:98 | setting the terminal flag at the end of a laid-out word stores exactly that word and restores the invariant |
| Trie.MyDictionary.constructor | src/main/java/dictionary/MyDictionary.java:19-21 | a new dictionary is empty and satisfies the invariant |
| Trie.MyDictionary.FromWords | src/main/java/dictionary/MyDictionary.java:24-29 | the word-list constructor holds exactly the words obtained by inserting the list in order |
| Trie.MyDictionary.NewRoot | src/main/java/dictionary/MyDictionary.java:81-86 | creates a fresh, non-terminal, childless root for the first character in a new slot, and keeps the invariant |
| Trie.MyDictionary.NewChild | src/main/java/dictionary/MyDictionary.java:92-93 | appends a fresh, non-terminal, childless node, links it under its parent, and keeps the invariant |
| Trie.MyDictionary.ChildFor | src/main/java/dictionary/MyDictionary.java:90-95 | one step of the walk: yields the node one character further along the word; an existing child leaves the dictionary unchanged, and a missing one adds exactly one fresh child under the current node (the forest's `AddChild` step); no word is added and no node moved |
| Trie.MyDictionary.LayOut | src/main/java/dictionary/MyDictionary.java:79-96 | the walk from the root creates every missing node of the word and ends at the node of the whole word |
| Trie.MyDictionary.MarkWord | src/main/java/dictionary/MyDictionary.java:98 | sets the terminal flag of the last node and adds exactly that word |
| Trie.MyDictionary.AddWord | src/main/java/dictionary/MyDictionary.java:73-99 | the stored set becomes `Insert(old set, word)`: the empty word changes nothing, and any other word adds its upper-cased form; nodes are only appended and keep their paths |
| Trie.MyDictionary.Descend | src/main/java/dictionary/MyDictionary.java:112-118 | the walk yields the node at the upper-cased word when that path exists and none otherwise, and then no stored word starts with it |
| Trie.MyDictionary.IsWord | src/main/java/dictionary/MyDictionary.java:106-128 | returns `QueryState(words, word)`, whose four cases are given by `QueryStateCases`; it changes nothing |
| Trie.MyDictionary.IsWordHasNext | src/main/java/dictionary/MyDictionary.java:54-71 | returns whether the upper-cased word is stored and some stored word strictly extends it; it changes nothing |
| Trie.MyDictionary.GetWords | src/main/java/dictionary/MyDictionary.java:48 | appends to the list exactly the stored words that start with the node's path, each once, and keeps the list's earlier entries |
| Trie.MyDictionary.GetAllWord | src/main/java/dictionary/MyDictionary.java:43-52 | returns every stored word exactly once and nothing else; it changes nothing |
| Trie.MyDictionary.LoadDictionary | src/main/java/dictionary/MyDictionary.java:130-139 | inserting every line in order leaves the set `InsertAll(old set, lines)` |
| Trie.MyDictionary.MergeDictionary | src/main/java/dictionary/MyDictionary.java:33-40 | a dictionary of another kind is refused before anything changes; otherwise the stored set becomes the union of both sets and the other dictionary is unchanged |

## Left out

- Upper-casing covers ASCII letters only. Java's `String.toUpperCase` depends on the locale and on Unicode, and can even change a word's length; `Upper` maps only `a`-`z`.
- A `null` word is not modelled separately. Every operation treats `null` and the empty string in the same branch, so the empty string stands for both.
- `WordNode` is not part of this model. Its operations are read from how `MyDictionary.java` uses them:
  - `getNextNode` is a child lookup that may find nothing;
  - `addNextNode` hangs a fresh, non-terminal, childless node;
  - `hasNext` means "has at least one child";
  - `getWords(prefix, list)` appends the node's path when it is terminal, then recurses into each child.
- Node references are modelled as slots in a node store owned by the dictionary. Updating a node object in place becomes replacing its slot. Nodes are never shared between dictionaries, so aliasing of `WordNode` objects is not modelled.
- `HashMap` iteration order: the roots and children are visited in an unspecified order. `GetAllWord` and `GetWords` state their result as a set without duplicates, not as a particular sequence.
- `loadDictionary`'s file I/O: `LoadDictionary` takes the lines as a sequence. Opening the file, read errors, and the reader left unclosed when `readLine` throws are not modelled.
- The `Dictionary` interface is not modelled. The merge argument is `DictionaryRef`: either a `MyDictionary` or a dictionary of another kind, and a `null` argument counts as another kind. The `RuntimeException` thrown for another kind becomes the result `TypeMismatch`, with no change to the receiver.
- MergeDictionary: requires the other dictionary to satisfy its own invariant, which every `MyDictionary` built through these operations does.
- The depth of the recursion in `getWords` (the Java stack) is not modelled.
