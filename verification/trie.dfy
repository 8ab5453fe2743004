/** `gen_trie`: the package names compiled into a prefix trie built from
    nested insertion-ordered dictionaries. Each node maps a character to the
    child node for the prefix extended by that character; the key `$` with
    the value `0` marks that a word ends at the node. */
module Trie {
  import opened Results
  import opened Seqs

  /** The key marking the end of a word. */
  const Terminal: char := '$'

  /** A dictionary value: the terminal sentinel `0` or a child dictionary. */
  datatype Val = Zero | Sub(node: Node)

  /** A dictionary, as its entries in insertion order. */
  datatype Node = Node(entries: seq<Entry>)

  datatype Entry = Entry(key: char, val: Val)

  /** The empty dictionary `{}`. */
  const Empty: Node := Node([])

  /** `{'$': 0}`: the node of a word that nothing extends. */
  const Leaf: Node := Node([Entry(Terminal, Zero)])

  /** Walking into a `0` value: the next `in` test or item assignment on the
      integer raises `TypeError`. */
  datatype TrieError = NotADict

  /** The keys of a dictionary, in insertion order. */
  function Keys(es: seq<Entry>): (r: seq<char>)
    ensures |r| == |es|
    ensures forall i :: 0 <= i < |es| ==> r[i] == es[i].key
  {
    if es == [] then [] else [es[0].key] + Keys(es[1..])
  }

  /** The keys of a non-empty dictionary: its first key, then the rest. */
  lemma KeysCons(es: seq<Entry>)
    requires es != []
    ensures Keys(es) == [es[0].key] + Keys(es[1..])
  {
  }

  /** `p.get(k)`. */
  function Find(es: seq<Entry>, k: char): (r: Option<Val>)
    ensures r.Some? <==> k in Keys(es)
  {
    if es == [] then None
    else
      assert Keys(es) == [es[0].key] + Keys(es[1..]);
      if es[0].key == k then Some(es[0].val) else Find(es[1..], k)
  }

  /** `p[k] = v`: an existing key keeps its place and gets the new value, a
      new key is appended; nothing else changes. */
  function Put(es: seq<Entry>, k: char, v: Val): (r: seq<Entry>)
    ensures Keys(r) == AddKey(Keys(es), k)
  {
    if es == [] then [Entry(k, v)]
    else if es[0].key == k then
      var r := [Entry(k, v)] + es[1..];
      assert Keys(r) == Keys(es) by {
        assert forall i :: 0 <= i < |r| ==> r[i].key == es[i].key;
      }
      r
    else
      var rest := Put(es[1..], k, v);
      var r := [es[0]] + rest;
      PutCons(es, k, rest, r);
      r
  }

  /** The step of `Put` past a different first key. */
  lemma PutCons(es: seq<Entry>, k: char, rest: seq<Entry>, r: seq<Entry>)
    requires es != [] && es[0].key != k
    requires Keys(rest) == AddKey(Keys(es[1..]), k)
    requires r == [es[0]] + rest
    ensures Keys(r) == AddKey(Keys(es), k)
  {
    assert r[0] == es[0] && r[1..] == rest;
    KeysCons(r);
    KeysCons(es);
    AddKeyCons(es[0].key, Keys(es[1..]), k);
  }

  /** After `p[k] = v`, `k` finds `v` and every other key finds what it found
      before. */
  lemma {:induction false} FindPut(es: seq<Entry>, k: char, v: Val, k': char)
    ensures Find(Put(es, k, v), k') == if k' == k then Some(v) else Find(es, k')
  {
    if es != [] && es[0].key != k {
      FindPut(es[1..], k, v, k');
      var r := Put(es, k, v);
      assert r == [es[0]] + Put(es[1..], k, v);
      assert r[1..] == Put(es[1..], k, v);
    } else if es != [] {
      var r := Put(es, k, v);
      assert r == [Entry(k, v)] + es[1..];
      assert r[1..] == es[1..];
    }
  }

  /** Storing the value a key already has changes nothing. */
  lemma {:induction false} PutSame(es: seq<Entry>, k: char, v: Val)
    requires Find(es, k) == Some(v)
    ensures Put(es, k, v) == es
  {
    if es != [] && es[0].key != k {
      PutSame(es[1..], k, v);
    }
  }

  /** One step of the walk (`if c not in p: p[c] = {}` then `p = p[c]`): the
      child for `c`, the fresh empty one when there is none yet. */
  function Descend(n: Node, c: char): (r: Result<Node, TrieError>)
    ensures r.Err? <==> Find(n.entries, c) == Some(Zero)
    ensures r.Ok? && c in Keys(n.entries) ==> Find(n.entries, c) == Some(Sub(r.value))
    ensures r.Ok? && c !in Keys(n.entries) ==> r.value == Empty
  {
    match Find(n.entries, c)
    case None => Ok(Empty)
    case Some(Sub(m)) => Ok(m)
    case Some(Zero) => Err(NotADict)
  }

  /** The inner loop of `gen_trie` for one word: walk or extend the path of
      `w`, then store `$: 0` at its end. */
  function Insert(n: Node, w: string): (r: Result<Node, TrieError>)
    ensures Shaped(n) && Terminal !in w ==> r.Ok?
    decreases |w|
  {
    if w == [] then Ok(Node(Put(n.entries, Terminal, Zero)))
    else
      ShapedChild(n, w[0]);
      assert Terminal !in w ==> w[0] != Terminal && Terminal !in w[1..];
      var child :- Descend(n, w[0]);
      var child' :- Insert(child, w[1..]);
      Ok(Node(Put(n.entries, w[0], Sub(child'))))
  }

  /** `gen_trie(words)`: the words inserted one after the other into `{}`. */
  function GenTrie(words: seq<string>): (r: Result<Node, TrieError>)
    ensures (forall i :: 0 <= i < |words| ==> Terminal !in words[i]) ==> r.Ok? && Shaped(r.value)
  {
    if words == [] then Ok(Empty)
    else
      var init := words[..|words| - 1];
      assert forall i :: 0 <= i < |init| ==> init[i] == words[i];
      var t :- GenTrie(init);
      InsertShaped(t, words[|words| - 1]);
      Insert(t, words[|words| - 1])
  }

  // ---------------------------------------------------------------------
  // Reading the trie.

  /** `w` is stored: its path exists and ends at a node holding `$: 0`. */
  predicate Member(n: Node, w: string)
    decreases |w|
  {
    if w == [] then Find(n.entries, Terminal) == Some(Zero)
    else
      match Find(n.entries, w[0])
      case Some(Sub(m)) => Member(m, w[1..])
      case _ => false
  }

  /** The node reached from `n` by following the characters of `p`. */
  function At(n: Node, p: string): Option<Node>
    decreases |p|
  {
    if p == [] then Some(n)
    else
      match Find(n.entries, p[0])
      case Some(Sub(m)) => At(m, p[1..])
      case _ => None
  }

  /** The entries of the node at `p`, none when there is no such node. */
  function EntriesAt(n: Node, p: string): seq<Entry> {
    match At(n, p)
    case Some(m) => m.entries
    case None => []
  }

  /** The keys of the node at `p`, in order. */
  function KeysAt(n: Node, p: string): seq<char> {
    Keys(EntriesAt(n, p))
  }

  /** Membership is reaching the node of the word and finding `$: 0` there. */
  lemma {:induction false} MemberAt(n: Node, w: string)
    ensures Member(n, w) <==> At(n, w).Some? && Find(At(n, w).value.entries, Terminal) == Some(Zero)
    decreases |w|
  {
    if w != [] {
      match Find(n.entries, w[0])
      case Some(Sub(m)) => MemberAt(m, w[1..]);
      case _ =>
    }
  }

  /** The shape `gen_trie` maintains: `$` always holds `0` and every other key
      holds a dictionary of the same shape. */
  predicate Shaped(n: Node)
    decreases n
  {
    forall i :: 0 <= i < |n.entries| ==> ShapedEntry(n.entries[i])
  }

  predicate ShapedEntry(e: Entry)
    decreases e
  {
    if e.key == Terminal then e.val == Zero else e.val.Sub? && Shaped(e.val.node)
  }

  /** In a shaped node, `$` finds `0` or nothing and any other key finds a
      shaped child or nothing. */
  lemma {:induction false} FindShaped(es: seq<Entry>, k: char)
    requires forall i :: 0 <= i < |es| ==> ShapedEntry(es[i])
    ensures k == Terminal ==> Find(es, k) != Some(Zero) ==> Find(es, k) == None
    ensures k != Terminal && Find(es, k).Some? ==> Find(es, k).value.Sub? && Shaped(Find(es, k).value.node)
  {
    if es != [] && es[0].key != k {
      FindShaped(es[1..], k);
    }
  }

  /** In a shaped node the walk never meets `0` on a key other than `$`, and
      the child it continues in is shaped. */
  lemma ShapedChild(n: Node, c: char)
    ensures Shaped(n) && c != Terminal ==> Descend(n, c).Ok? && Shaped(Descend(n, c).value)
  {
    if Shaped(n) {
      FindShaped(n.entries, c);
    }
  }

  /** Storing an entry with property `P` into entries that all have it
      leaves entries that all have it. */
  lemma {:induction false} PutAll(es: seq<Entry>, k: char, v: Val, P: Entry -> bool)
    requires forall i :: 0 <= i < |es| ==> P(es[i])
    requires P(Entry(k, v))
    ensures forall i :: 0 <= i < |Put(es, k, v)| ==> P(Put(es, k, v)[i])
  {
    if es != [] && es[0].key != k {
      PutAll(es[1..], k, v, P);
      assert Put(es, k, v) == [es[0]] + Put(es[1..], k, v);
    }
  }

  /** Storing a shaped entry keeps the node shaped. */
  lemma PutShaped(es: seq<Entry>, k: char, v: Val)
    requires Shaped(Node(es)) && ShapedEntry(Entry(k, v))
    ensures Shaped(Node(Put(es, k, v)))
  {
    PutAll(es, k, v, ShapedEntry);
  }

  /** What a key finds in entries that all have property `P` has it too. */
  lemma {:induction false} FindAll(es: seq<Entry>, k: char, P: Entry -> bool)
    requires forall i :: 0 <= i < |es| ==> P(es[i])
    ensures Find(es, k).Some? ==> P(Entry(k, Find(es, k).value))
  {
    if es != [] && es[0].key != k {
      FindAll(es[1..], k, P);
    }
  }

  /** Every key of the trie, at every depth, satisfies `ok`. */
  predicate KeysIn(n: Node, ok: char -> bool)
    decreases n
  {
    forall i :: 0 <= i < |n.entries| ==> EntryKeysIn(n.entries[i], ok)
  }

  predicate EntryKeysIn(e: Entry, ok: char -> bool)
    decreases e
  {
    ok(e.key) && (e.val.Sub? ==> KeysIn(e.val.node, ok))
  }

  /** The character a word contributes below prefix `p`: its next character,
      or the terminal key when the word is `p` itself. */
  function Next(w: string, p: string): char
    requires p <= w
  {
    if |p| == |w| then Terminal else w[|p|]
  }

  /** A word without `$` is inserted into a shaped trie without error, and
      the result is shaped. */
  lemma {:induction false} InsertShaped(t: Node, w: string)
    ensures Shaped(t) && Terminal !in w ==> Insert(t, w).Ok? && Shaped(Insert(t, w).value)
    decreases |w|
  {
    if !(Shaped(t) && Terminal !in w) {
    } else if w == [] {
      PutShaped(t.entries, Terminal, Zero);
    } else {
      var c := w[0];
      FindShaped(t.entries, c);
      var child := Descend(t, c).value;
      InsertShaped(child, w[1..]);
      var child' := Insert(child, w[1..]).value;
      assert Insert(t, w) == Ok(Node(Put(t.entries, c, Sub(child'))));
      PutShaped(t.entries, c, Sub(child'));
    }
  }

  /** At the root, inserting `w` adds its first character (or `$` for the
      empty word) as a key and leaves what every other key finds. */
  lemma InsertRoot(t: Node, w: string)
    requires Shaped(t) && Terminal !in w
    ensures Insert(t, w).Ok?
    ensures var es' := Insert(t, w).value.entries;
            && Keys(es') == AddKey(Keys(t.entries), Next(w, []))
            && (forall k :: k != Next(w, []) ==> Find(es', k) == Find(t.entries, k))
            && (w == [] ==> Find(es', Terminal) == Some(Zero))
  {
    InsertShaped(t, w);
    if w == [] {
      forall k {
        FindPut(t.entries, Terminal, Zero, k);
      }
    } else {
      var c := w[0];
      var child' := Insert(Descend(t, c).value, w[1..]).value;
      assert Insert(t, w) == Ok(Node(Put(t.entries, c, Sub(child'))));
      forall k {
        FindPut(t.entries, c, Sub(child'), k);
      }
    }
  }

  /** A path that leaves the word at its first character is untouched. */
  lemma InsertAside(t: Node, w: string, p: string)
    requires Shaped(t) && Terminal !in w
    requires p != [] && (w == [] || p[0] != w[0])
    ensures Insert(t, w).Ok? && At(Insert(t, w).value, p) == At(t, p)
  {
    InsertRoot(t, w);
    if w == [] && p[0] == Terminal {
      FindShaped(t.entries, Terminal);
    }
  }

  /** A word without `$` inserted into a shaped trie: along the word's path
      each node gains the word's next character as a key (at the end if new)
      and nothing else changes; every node off the path is untouched; the
      node of the word holds `$: 0`. */
  lemma {:induction false} InsertAt(t: Node, w: string, p: string)
    requires Shaped(t) && Terminal !in w
    ensures Insert(t, w).Ok?
    ensures var t' := Insert(t, w).value;
            p <= w ==>
              && At(t', p).Some?
              && KeysAt(t', p) == AddKey(KeysAt(t, p), Next(w, p))
              && (forall k :: k != Next(w, p) ==> Find(EntriesAt(t', p), k) == Find(EntriesAt(t, p), k))
              && (p == w ==> Find(EntriesAt(t', p), Terminal) == Some(Zero))
    ensures !(p <= w) ==> At(Insert(t, w).value, p) == At(t, p)
    decreases |w|
  {
    InsertShaped(t, w);
    if p == [] {
      InsertRoot(t, w);
    } else if w == [] || p[0] != w[0] {
      InsertAside(t, w, p);
    } else {
      InsertAlong(t, w, p);
    }
  }

  /** Inserting a non-empty word stores the first character's new child,
      which is the rest of the word inserted into the old one. */
  lemma InsertStep(t: Node, w: string)
    requires Shaped(t) && Terminal !in w && w != []
    ensures Descend(t, w[0]).Ok? && Shaped(Descend(t, w[0]).value)
    ensures Insert(Descend(t, w[0]).value, w[1..]).Ok?
    ensures var child' := Insert(Descend(t, w[0]).value, w[1..]).value;
            && Insert(t, w) == Ok(Node(Put(t.entries, w[0], Sub(child'))))
            && Find(Insert(t, w).value.entries, w[0]) == Some(Sub(child'))
  {
    FindShaped(t.entries, w[0]);
    InsertShaped(Descend(t, w[0]).value, w[1..]);
    var child' := Insert(Descend(t, w[0]).value, w[1..]).value;
    FindPut(t.entries, w[0], Sub(child'), w[0]);
  }

  /** Below its first character a path continues in the child `Descend`
      gives, and there is nothing below a character that is not a key. */
  lemma DescendAt(t: Node, p: string)
    requires p != [] && Descend(t, p[0]).Ok?
    ensures EntriesAt(t, p) == EntriesAt(Descend(t, p[0]).value, p[1..])
    ensures p[0] in Keys(t.entries) ==> At(t, p) == At(Descend(t, p[0]).value, p[1..])
    ensures p[0] !in Keys(t.entries) ==> At(t, p) == None
  {
    if p[0] !in Keys(t.entries) && p[1..] != [] {
      assert At(Empty, p[1..]) == None;
    }
  }

  /** The step of `InsertAt` into the child on the word's path. */
  lemma {:induction false} InsertAlong(t: Node, w: string, p: string)
    requires Shaped(t) && Terminal !in w
    requires p != [] && w != [] && p[0] == w[0]
    ensures Insert(t, w).Ok?
    ensures var t' := Insert(t, w).value;
            p <= w ==>
              && At(t', p).Some?
              && KeysAt(t', p) == AddKey(KeysAt(t, p), Next(w, p))
              && (forall k :: k != Next(w, p) ==> Find(EntriesAt(t', p), k) == Find(EntriesAt(t, p), k))
              && (p == w ==> Find(EntriesAt(t', p), Terminal) == Some(Zero))
    ensures !(p <= w) ==> At(Insert(t, w).value, p) == At(t, p)
    decreases |w|, 0
  {
    var p' := p[1..];
    InsertStep(t, w);
    var child := Descend(t, w[0]).value;
    InsertAt(child, w[1..], p');
    var child' := Insert(child, w[1..]).value;
    assert At(Insert(t, w).value, p) == At(child', p');
    assert EntriesAt(Insert(t, w).value, p) == EntriesAt(child', p');
    DescendAt(t, p);
    PrefixTails(p, w);
    if p <= w {
      assert Next(w, p) == Next(w[1..], p');
    } else if p[0] !in Keys(t.entries) {
      assert p' != [];
    }
  }

  /** Inserting a word adds exactly that word to the stored set. */
  lemma InsertMember(t: Node, w: string, v: string)
    requires Shaped(t) && Terminal !in w
    ensures Insert(t, w).Ok?
    ensures Member(Insert(t, w).value, v) <==> Member(t, v) || v == w
  {
    InsertAt(t, w, v);
    var t' := Insert(t, w).value;
    MemberAt(t, v);
    MemberAt(t', v);
    if v <= w && v != w {
      assert Next(w, v) != Terminal by {
        assert w[|v|] in w;
      }
    }
  }

  /** A word whose characters satisfy `ok` (as `$` does) inserts only keys
      satisfying `ok`. */
  lemma {:induction false} InsertKeysIn(t: Node, w: string, ok: char -> bool)
    requires Shaped(t) && Terminal !in w && KeysIn(t, ok) && ok(Terminal)
    requires forall i :: 0 <= i < |w| ==> ok(w[i])
    ensures Insert(t, w).Ok? && KeysIn(Insert(t, w).value, ok)
    decreases |w|
  {
    InsertShaped(t, w);
    if w == [] {
      PutAll(t.entries, Terminal, Zero, e => EntryKeysIn(e, ok));
    } else {
      var c := w[0];
      FindShaped(t.entries, c);
      FindAll(t.entries, c, e => EntryKeysIn(e, ok));
      var child := Descend(t, c).value;
      assert Shaped(child) && KeysIn(child, ok);
      InsertKeysIn(child, w[1..], ok);
      var child' := Insert(child, w[1..]).value;
      assert Insert(t, w) == Ok(Node(Put(t.entries, c, Sub(child'))));
      PutAll(t.entries, c, Sub(child'), e => EntryKeysIn(e, ok));
    }
  }

  /** Inserting a word that is already stored returns the same trie. */
  lemma {:induction false} InsertExisting(t: Node, w: string)
    requires Member(t, w)
    ensures Insert(t, w) == Ok(t)
    decreases |w|
  {
    if w == [] {
      PutSame(t.entries, Terminal, Zero);
    } else {
      var m := Find(t.entries, w[0]).value.node;
      InsertExisting(m, w[1..]);
      PutSame(t.entries, w[0], Sub(m));
    }
  }

  /** The characters the words contribute below prefix `p`, word by word. */
  function NextKeys(words: seq<string>, p: string): seq<char> {
    if words == [] then []
    else
      var w := words[|words| - 1];
      NextKeys(words[..|words| - 1], p) + (if p <= w then [Next(w, p)] else [])
  }

  /** The last word is inserted into the trie of the words before it. */
  lemma GenTrieSnoc(words: seq<string>)
    requires words != []
    requires GenTrie(words[..|words| - 1]).Ok?
    ensures GenTrie(words) == Insert(GenTrie(words[..|words| - 1]).value, words[|words| - 1])
  {
  }

  /** The trie stores exactly the given words. */
  lemma {:induction false} GenTrieMembers(words: seq<string>, v: string)
    requires forall i :: 0 <= i < |words| ==> Terminal !in words[i]
    ensures GenTrie(words).Ok?
    ensures Member(GenTrie(words).value, v) <==> v in words
  {
    if words != [] {
      var init, w := words[..|words| - 1], words[|words| - 1];
      GenTrieMembers(init, v);
      GenTrieSnoc(words);
      InsertMember(GenTrie(init).value, w, v);
      InitLast(words);
    }
  }

  /** The keys `InsertAt` gives each node, and nothing else. */
  lemma InsertKeys(t: Node, w: string, p: string)
    requires Shaped(t) && Terminal !in w
    ensures Insert(t, w).Ok?
    ensures p <= w ==> KeysAt(Insert(t, w).value, p) == AddKey(KeysAt(t, p), Next(w, p))
    ensures !(p <= w) ==> KeysAt(Insert(t, w).value, p) == KeysAt(t, p)
  {
    InsertAt(t, w, p);
  }

  /** A last word that does not extend `p` contributes nothing below it. */
  lemma NextKeysAside(words: seq<string>, p: string)
    requires words != [] && !(p <= words[|words| - 1])
    ensures NextKeys(words, p) == NextKeys(words[..|words| - 1], p)
  {
    var init := words[..|words| - 1];
    assert NextKeys(words, p) == NextKeys(init, p) + [];
  }

  /** Each node lists the next characters of the words through it, in order
      of first appearance. */
  lemma {:induction false} GenTrieKeys(words: seq<string>, p: string)
    requires forall i :: 0 <= i < |words| ==> Terminal !in words[i]
    ensures GenTrie(words).Ok?
    ensures KeysAt(GenTrie(words).value, p) == Dedup(NextKeys(words, p))
  {
    if words != [] {
      var init, w := words[..|words| - 1], words[|words| - 1];
      GenTrieKeys(init, p);
      GenTrieSnoc(words);
      InsertKeys(GenTrie(init).value, w, p);
      if p <= w {
        assert NextKeys(words, p) == NextKeys(init, p) + [Next(w, p)];
        DedupSnoc(NextKeys(init, p), Next(w, p));
      } else {
        NextKeysAside(words, p);
      }
    }
  }

  /** What `gen_trie` builds from words without `$`: it succeeds, stores
      exactly the given words (duplicates collapse; no words give `{}`), and
      every node lists its keys in the order the words first brought them:
      for each prefix `p` the keys are the next characters of the words
      extending `p`, in order of first appearance. */
  lemma GenTrieSpec(words: seq<string>)
    requires forall i :: 0 <= i < |words| ==> Terminal !in words[i]
    ensures GenTrie(words).Ok? && Shaped(GenTrie(words).value)
    ensures words == [] ==> GenTrie(words) == Ok(Empty)
    ensures forall v :: Member(GenTrie(words).value, v) <==> v in words
    ensures forall p :: KeysAt(GenTrie(words).value, p) == Dedup(NextKeys(words, p))
  {
    forall v
      ensures Member(GenTrie(words).value, v) <==> v in words
    {
      GenTrieMembers(words, v);
    }
    forall p
      ensures KeysAt(GenTrie(words).value, p) == Dedup(NextKeys(words, p))
    {
      GenTrieKeys(words, p);
    }
  }

  /** Words whose characters satisfy `ok` (as `$` does) give a trie whose
      keys all satisfy `ok`. */
  lemma {:induction false} GenTrieKeysIn(words: seq<string>, ok: char -> bool)
    requires forall i :: 0 <= i < |words| ==> Terminal !in words[i]
    requires ok(Terminal)
    requires forall i, j :: 0 <= i < |words| && 0 <= j < |words[i]| ==> ok(words[i][j])
    ensures GenTrie(words).Ok? && KeysIn(GenTrie(words).value, ok)
  {
    GenTrieSpec(words);
    if words != [] {
      var init, w := words[..|words| - 1], words[|words| - 1];
      GenTrieKeysIn(init, ok);
      GenTrieSpec(init);
      InsertKeysIn(GenTrie(init).value, w, ok);
    }
  }

  /** Repeated words do not change a single byte of the trie: building from
      the words with duplicates removed gives the same trie. */
  lemma {:induction false} GenTrieDedup(words: seq<string>)
    requires forall i :: 0 <= i < |words| ==> Terminal !in words[i]
    ensures GenTrie(Dedup(words)) == GenTrie(words)
  {
    if words != [] {
      var init, w := words[..|words| - 1], words[|words| - 1];
      assert init + [w] == words;
      GenTrieDedup(init);
      GenTrieSpec(init);
      var t := GenTrie(init).value;
      assert GenTrie(words) == Insert(t, w);
      DedupSnoc(init, w);
      var d := Dedup(init);
      if w in init {
        assert Dedup(words) == d;
        InsertExisting(t, w);
      } else {
        assert Dedup(words) == d + [w];
        assert (d + [w])[..|d + [w]| - 1] == d;
        assert GenTrie(d + [w]) == Insert(t, w);
      }
    }
  }

  /** The same words in any order and multiplicity are stored as the same
      set: the trie answers membership identically. */
  lemma SameWordsSameMembers(a: seq<string>, b: seq<string>, v: string)
    requires forall i :: 0 <= i < |a| ==> Terminal !in a[i]
    requires forall i :: 0 <= i < |b| ==> Terminal !in b[i]
    requires forall i :: 0 <= i < |a| ==> a[i] in b
    requires forall i :: 0 <= i < |b| ==> b[i] in a
    ensures GenTrie(a).Ok? && GenTrie(b).Ok?
    ensures Member(GenTrie(a).value, v) <==> Member(GenTrie(b).value, v)
  {
    GenTrieSpec(a);
    GenTrieSpec(b);
  }

  /** A word containing `$` can break the build: after `"$"` and `""` the key
      `$` holds `0`, and walking into it for `"$a"` fails. */
  lemma TerminalInWordFails()
    ensures GenTrie(["$", "", "$a"]) == Err(NotADict)
  {
    var words := ["$", "", "$a"];
    var t1 := Node([Entry(Terminal, Sub(Node([Entry(Terminal, Zero)])))]);
    var t2 := Node([Entry(Terminal, Zero)]);
    assert words[..2][..1] == ["$"] && words[..2] == ["$", ""];
    assert words[..1] == ["$"];
    assert GenTrie(["$"]) == Ok(t1) by {
      assert ["$"][..0] == [];
      assert "$"[1..] == [];
    }
    assert GenTrie(["$", ""]) == Ok(t2) by {
      assert ["$", ""][..1] == ["$"];
      assert Put(t1.entries, Terminal, Zero) == t2.entries;
      assert Insert(t1, "") == Ok(t2);
    }
    assert Descend(t2, '$') == Err(NotADict);
  }
}
