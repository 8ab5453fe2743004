/** The text of the search trie embedded in the page: `json.dumps` with the
    separators `,` and `:`, the quotes removed around keys that are one
    lower-case letter or `$`, and every `{$:0}` replaced by `0`. The text is
    written here directly from the trie, and a decoder reads it back. */
module TrieText {
  import opened Results
  import opened Trie

  /** A character a package name may contain in this model: printable ASCII
      that JSON writes unescaped inside a string, other than `$`. */
  predicate NameChar(c: char) {
    ' ' <= c <= '~' && c != '"' && c != '\\' && c != Terminal
  }

  /** A character a trie key may be. */
  predicate KeyChar(c: char) {
    NameChar(c) || c == Terminal
  }

  /** A lower-case ASCII letter, as `[a-z]` matches it. */
  predicate Lower(c: char) {
    'a' <= c <= 'z'
  }

  /** A key the pattern `"([a-z]+|\$)"` strips the quotes from. */
  predicate Bare(c: char) {
    Lower(c) || c == Terminal
  }

  /** A node holding nothing but `$: 0`, written as a bare `0`. */
  predicate LeafOnly(n: Node) {
    n == Leaf
  }

  /** Every key of the trie, at every depth, is a key character. */
  predicate Printable(n: Node) {
    KeysIn(n, KeyChar)
  }

  /** A trie the text encodes faithfully. */
  predicate Encodable(n: Node) {
    Shaped(n) && Printable(n)
  }

  // ---------------------------------------------------------------------
  // Writing.

  /** A key: bare when the pattern matches it, in JSON quotes otherwise. */
  function EncodeKey(c: char): string {
    if Bare(c) then [c] else ['"', c, '"']
  }

  /** A node in node position: `0` for a node that only ends a word,
      otherwise its entries in order between braces. */
  function EncodeNode(n: Node): string
    decreases n, 1
  {
    if LeafOnly(n) then "0" else "{" + EncodeEntries(n.entries) + "}"
  }

  /** Entries separated by `,` with no whitespace. */
  function EncodeEntries(es: seq<Entry>): string
    decreases es, 0
  {
    if es == [] then ""
    else EncodeEntry(es[0]) + (if |es| == 1 then "" else "," + EncodeEntries(es[1..]))
  }

  /** `key:value`, the value `0` for the terminal. */
  function EncodeEntry(e: Entry): string
    decreases e
  {
    EncodeKey(e.key) + ":" + (match e.val case Zero => "0" case Sub(m) => EncodeNode(m))
  }

  /** The minified text of a whole trie. */
  function Encode(t: Node): string {
    EncodeNode(t)
  }

  // ---------------------------------------------------------------------
  // Reading back, as the page's search code must.

  /** A key: a quoted character or a bare lower-case letter or `$`. */
  function DecodeKey(s: string): (r: Option<(char, string)>)
    ensures r.Some? ==> |r.value.1| < |s|
  {
    if |s| >= 3 && s[0] == '"' && s[2] == '"' then Some((s[1], s[3..]))
    else if |s| >= 1 && Bare(s[0]) then Some((s[0], s[1..]))
    else None
  }

  /** A node in node position, with the rest of the text: a bare `0` is a
      node holding only the terminal. */
  function ParseNode(s: string): (r: Option<(Node, string)>)
    ensures r.Some? ==> |r.value.1| < |s|
    decreases |s|, 2
  {
    if |s| >= 1 && s[0] == '0' then Some((Leaf, s[1..]))
    else if |s| >= 2 && s[0] == '{' && s[1] == '}' then Some((Empty, s[2..]))
    else if |s| >= 1 && s[0] == '{' then
      match ParseEntries(s[1..])
      case Some((es, rest)) => Some((Node(es), rest))
      case None => None
    else None
  }

  /** One or more entries separated by `,` and closed by `}`. */
  function ParseEntries(s: string): (r: Option<(seq<Entry>, string)>)
    ensures r.Some? ==> |r.value.1| < |s|
    decreases |s|, 1
  {
    match ParseEntry(s)
    case None => None
    case Some((e, s1)) =>
      if |s1| >= 1 && s1[0] == '}' then Some(([e], s1[1..]))
      else if |s1| >= 1 && s1[0] == ',' then
        match ParseEntries(s1[1..])
        case Some((es, s2)) => Some(([e] + es, s2))
        case None => None
      else None
  }

  /** `key:value`; the value of `$` is `0`, the value of any other key a
      node. */
  function ParseEntry(s: string): (r: Option<(Entry, string)>)
    ensures r.Some? ==> |r.value.1| < |s|
    decreases |s|, 0
  {
    match DecodeKey(s)
    case None => None
    case Some((k, s1)) =>
      if |s1| == 0 || s1[0] != ':' then None
      else if k == Terminal then
        if |s1| >= 2 && s1[1] == '0' then Some((Entry(k, Zero), s1[2..])) else None
      else
        match ParseNode(s1[1..])
        case Some((m, s2)) => Some((Entry(k, Sub(m)), s2))
        case None => None
  }

  /** The trie a whole text stands for. */
  function Decode(s: string): Option<Node> {
    match ParseNode(s)
    case Some((n, rest)) => if rest == [] then Some(n) else None
    case None => None
  }

  // ---------------------------------------------------------------------
  // The encoding is lossless.

  lemma KeyRoundTrip(c: char, rest: string)
    requires KeyChar(c)
    ensures DecodeKey(EncodeKey(c) + rest) == Some((c, rest))
  {
    if Bare(c) {
      assert (EncodeKey(c) + rest)[1..] == rest;
    } else {
      assert (EncodeKey(c) + rest)[3..] == rest;
    }
  }

  /** Reading the text of an encodable node gives the node back and leaves
      whatever followed it. */
  lemma {:induction false} NodeRoundTrip(n: Node, rest: string)
    requires Encodable(n)
    ensures ParseNode(EncodeNode(n) + rest) == Some((n, rest))
    decreases n, 1
  {
    var s := EncodeNode(n) + rest;
    if LeafOnly(n) {
      assert s[1..] == rest;
    } else if n.entries == [] {
      assert s[2..] == rest;
    } else {
      EntriesRoundTrip(n.entries, rest);
      assert s == "{" + (EncodeEntries(n.entries) + "}" + rest);
      assert s[1..] == EncodeEntries(n.entries) + "}" + rest;
      var k := n.entries[0].key;
      assert EncodeEntries(n.entries)[0] == EncodeKey(k)[0];
    }
  }

  lemma {:induction false} EntriesRoundTrip(es: seq<Entry>, rest: string)
    requires es != []
    requires forall i :: 0 <= i < |es| ==> ShapedEntry(es[i]) && EntryKeysIn(es[i], KeyChar)
    ensures ParseEntries(EncodeEntries(es) + "}" + rest) == Some((es, rest))
    decreases es, 0
  {
    var first := EncodeEntry(es[0]);
    if |es| == 1 {
      assert EncodeEntries(es) == first;
      Concat3(first, "}", rest);
      EntryRoundTrip(es[0], "}" + rest);
      ParseLastEntry(EncodeEntries(es) + "}" + rest, es[0], rest);
      assert [es[0]] == es;
    } else {
      var others := EncodeEntries(es[1..]);
      assert EncodeEntries(es) == first + ("," + others);
      Concat(first, ",", others, "}", rest);
      EntryRoundTrip(es[0], "," + (others + "}" + rest));
      assert forall i :: 0 <= i < |es| - 1 ==> es[1..][i] == es[i + 1];
      EntriesRoundTrip(es[1..], rest);
      ParseMoreEntries(EncodeEntries(es) + "}" + rest, es[0], others + "}" + rest, es[1..], rest);
      assert [es[0]] + es[1..] == es;
    }
  }

  /** Regrouping a text made of three parts. */
  lemma Concat3(a: string, b: string, c: string)
    ensures a + b + c == a + (b + c)
  {
  }

  /** Regrouping a text made of five parts. */
  lemma Concat(a: string, b: string, c: string, d: string, e: string)
    ensures a + (b + c) + d + e == a + (b + (c + d + e))
  {
  }

  /** An entry followed by `}` closes the list. */
  lemma ParseLastEntry(s: string, e: Entry, rest: string)
    requires ParseEntry(s) == Some((e, "}" + rest))
    ensures ParseEntries(s) == Some(([e], rest))
  {
    assert ("}" + rest)[1..] == rest;
  }

  /** An entry followed by `,` continues with the entries after it. */
  lemma ParseMoreEntries(s: string, e: Entry, inner: string, es: seq<Entry>, rest: string)
    requires ParseEntry(s) == Some((e, "," + inner))
    requires ParseEntries(inner) == Some((es, rest))
    ensures ParseEntries(s) == Some(([e] + es, rest))
  {
    assert ("," + inner)[1..] == inner;
  }

  lemma {:induction false} EntryRoundTrip(e: Entry, rest: string)
    requires ShapedEntry(e) && EntryKeysIn(e, KeyChar)
    ensures ParseEntry(EncodeEntry(e) + rest) == Some((e, rest))
    decreases e
  {
    var after := ":" + (match e.val case Zero => "0" case Sub(m) => EncodeNode(m)) + rest;
    assert EncodeEntry(e) + rest == EncodeKey(e.key) + after;
    KeyRoundTrip(e.key, after);
    if e.key == Terminal {
      assert after[2..] == rest;
    } else {
      var m := e.val.node;
      NodeRoundTrip(m, rest);
      assert after[1..] == EncodeNode(m) + rest;
    }
  }

  /** Decoding the text of an encodable trie gives exactly that trie: same
      keys in the same order, same terminals, same shape. */
  lemma RoundTrip(t: Node)
    requires Encodable(t)
    ensures Decode(Encode(t)) == Some(t)
  {
    NodeRoundTrip(t, "");
    assert Encode(t) + "" == Encode(t);
  }

  // ---------------------------------------------------------------------
  // What the text of a trie of package names contains.

  /** A character the encoder itself writes: braces, separators, quotes and
      the terminal value. */
  predicate Structural(c: char) {
    c == '{' || c == '}' || c == ',' || c == ':' || c == '"' || c == '0'
  }

  /** Every character of the text is structural or one of the trie's keys,
      so a property every key has (no whitespace, say) holds of the whole
      text apart from its punctuation. */
  lemma {:induction false} NodeChars(n: Node, ok: char -> bool)
    requires KeysIn(n, ok)
    ensures forall c :: c in EncodeNode(n) ==> Structural(c) || ok(c)
    decreases n, 1
  {
    if !LeafOnly(n) {
      EntriesChars(n.entries, ok);
    }
  }

  lemma {:induction false} EntriesChars(es: seq<Entry>, ok: char -> bool)
    requires forall i :: 0 <= i < |es| ==> EntryKeysIn(es[i], ok)
    ensures forall c :: c in EncodeEntries(es) ==> Structural(c) || ok(c)
    decreases es, 0
  {
    if es != [] {
      EntryChars(es[0], ok);
      if |es| > 1 {
        EntriesChars(es[1..], ok);
      }
    }
  }

  lemma {:induction false} EntryChars(e: Entry, ok: char -> bool)
    requires EntryKeysIn(e, ok)
    ensures forall c :: c in EncodeEntry(e) ==> Structural(c) || ok(c)
    decreases e
  {
    if e.val.Sub? {
      NodeChars(e.val.node, ok);
    }
  }

  /** Names made of name characters give a trie the text encodes
      faithfully. */
  lemma GenTrieEncodable(names: seq<string>)
    requires forall i, j :: 0 <= i < |names| && 0 <= j < |names[i]| ==> NameChar(names[i][j])
    ensures GenTrie(names).Ok? && Encodable(GenTrie(names).value)
  {
    forall i | 0 <= i < |names|
      ensures Terminal !in names[i]
    {
      assert forall j :: 0 <= j < |names[i]| ==> names[i][j] != Terminal;
    }
    GenTrieKeysIn(names, KeyChar);
    GenTrieSpec(names);
  }

  /** The text of the trie of a list of names loses nothing: read back, it
      is the trie itself, and a word is a member of it exactly when it is
      one of the names. */
  lemma Lossless(names: seq<string>, v: string)
    requires forall i, j :: 0 <= i < |names| && 0 <= j < |names[i]| ==> NameChar(names[i][j])
    ensures GenTrie(names).Ok?
    ensures Decode(Encode(GenTrie(names).value)) == Some(GenTrie(names).value)
    ensures Member(Decode(Encode(GenTrie(names).value)).value, v) <==> v in names
  {
    GenTrieEncodable(names);
    RoundTrip(GenTrie(names).value);
    GenTrieSpec(names);
  }

  /** Names without spaces give a text without any whitespace at all: the
      encoder writes none of its own. */
  lemma NoWhitespace(names: seq<string>)
    requires forall i, j :: 0 <= i < |names| && 0 <= j < |names[i]| ==>
               NameChar(names[i][j]) && names[i][j] != ' '
    ensures GenTrie(names).Ok?
    ensures forall c :: c in Encode(GenTrie(names).value) ==> ' ' < c <= '~'
  {
    var ok := c => KeyChar(c) && c != ' ';
    GenTrieEncodable(names);
    GenTrieKeysIn(names, ok);
    NodeChars(GenTrie(names).value, ok);
  }
}
