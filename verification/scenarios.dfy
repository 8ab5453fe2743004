/** Worked examples of the page text for small package lists. */
module Scenarios {
  import opened Results
  import opened Trie
  import opened TrieText
  import opened PageText

  /** An entry for a lower-case letter is the bare letter, `:` and the text
      of its node. */
  lemma LetterEntry(k: char, m: Node)
    requires Lower(k)
    ensures EncodeEntry(Entry(k, Sub(m))) == [k, ':'] + EncodeNode(m)
  {
  }

  /** No packages: the empty object. */
  lemma NoNames()
    ensures GenTrie([]) == Ok(Empty)
    ensures TrieTextOf(Empty) == "{}"
  {
    assert StripQuotes("{}") == "{}" by {
      StripPlain('}', "");
      StripPlain('{', "}");
    }
    assert ReplaceLeaf("{}") == "{}" by {
      ReplacePlain('}', "");
      assert ("{}")[1..] == "}";
    }
  }

  /** One package with the empty name: the root itself only ends a word, so
      the whole text is `0`. */
  lemma EmptyName()
    ensures GenTrie([""]) == Ok(Leaf)
    ensures TrieTextOf(Leaf) == "0"
  {
    assert [""][..0] == [];
    GenTrieEncodable([""]);
    ChainIsEncode(Leaf);
  }

  /** `ab` and `ac` share the node of `a`, whose keys keep insertion
      order. */
  lemma TwoNames()
    ensures GenTrie(["ab", "ac"]) == Ok(Node([Entry('a', Sub(Node([Entry('b', Sub(Leaf)), Entry('c', Sub(Leaf))])))]))
  {
    var t := Node([Entry('a', Sub(Node([Entry('b', Sub(Leaf))])))]);
    FirstWord();
    SecondWord();
    assert ["ab", "ac"][..1] == ["ab"];
    assert ["ab"][..0] == [];
    assert GenTrie(["ab"]) == Ok(t);
  }

  /** The first word into the empty trie: a chain of single-key nodes. */
  lemma FirstWord()
    ensures Insert(Empty, "ab") == Ok(Node([Entry('a', Sub(Node([Entry('b', Sub(Leaf))])))]))
  {
    assert Insert(Empty, "") == Ok(Leaf);
    assert "b"[1..] == "";
    var b := Node([Entry('b', Sub(Leaf))]);
    assert Insert(Empty, "b") == Ok(b);
    assert "ab"[1..] == "b";
  }

  /** The second word follows the shared `a` and adds `c` after `b`. */
  lemma SecondWord()
    ensures Insert(Node([Entry('a', Sub(Node([Entry('b', Sub(Leaf))])))]), "ac") ==
              Ok(Node([Entry('a', Sub(Node([Entry('b', Sub(Leaf)), Entry('c', Sub(Leaf))])))]))
  {
    var b := Node([Entry('b', Sub(Leaf))]);
    var t := Node([Entry('a', Sub(b))]);
    assert Insert(Empty, "") == Ok(Leaf);
    assert "c"[1..] == "" && "ac"[1..] == "c";
    assert Find(b.entries, 'c') == None;
    assert Descend(b, 'c') == Ok(Empty);
    assert Insert(Empty, "c") == Ok(Node([Entry('c', Sub(Leaf))]));
    var bc := Node([Entry('b', Sub(Leaf)), Entry('c', Sub(Leaf))]);
    assert Put(b.entries, 'c', Sub(Leaf)) == bc.entries;
    assert Insert(b, "c") == Ok(bc);
    assert Descend(t, 'a') == Ok(b);
    assert Put(t.entries, 'a', Sub(bc)) == [Entry('a', Sub(bc))];
  }

  /** Two leaves under one node: `{b:0,c:0}`. */
  lemma SiblingsText()
    ensures EncodeNode(Node([Entry('b', Sub(Leaf)), Entry('c', Sub(Leaf))])) == "{b:0,c:0}"
  {
    var bc := Node([Entry('b', Sub(Leaf)), Entry('c', Sub(Leaf))]);
    assert EncodeNode(Leaf) == "0";
    LetterEntry('b', Leaf);
    LetterEntry('c', Leaf);
    assert bc.entries[1..] == [Entry('c', Sub(Leaf))];
    assert EncodeEntries(bc.entries[1..]) == "c:0";
    assert EncodeEntries(bc.entries) == "b:0,c:0";
  }

  /** The text of the trie of `ab` and `ac`. */
  lemma TwoNamesEncode()
    ensures Encode(Node([Entry('a', Sub(Node([Entry('b', Sub(Leaf)), Entry('c', Sub(Leaf))])))])) == "{a:{b:0,c:0}}"
  {
    var bc := Node([Entry('b', Sub(Leaf)), Entry('c', Sub(Leaf))]);
    var t := Node([Entry('a', Sub(bc))]);
    SiblingsText();
    LetterEntry('a', bc);
    assert EncodeEntries(t.entries) == "a:{b:0,c:0}";
    assert !LeafOnly(t);
  }

  /** The page text for the names `ab` and `ac`. */
  lemma TwoNamesText()
    ensures GenTrie(["ab", "ac"]).Ok?
    ensures TrieTextOf(GenTrie(["ab", "ac"]).value) == "{a:{b:0,c:0}}"
  {
    TwoNames();
    var t := Node([Entry('a', Sub(Node([Entry('b', Sub(Leaf)), Entry('c', Sub(Leaf))])))]);
    assert GenTrie(["ab", "ac"]).value == t;
    TwoNamesEncode();
    GenTrieEncodable(["ab", "ac"]);
    assert TrieTextOf(t) == Encode(t);
  }
}
