/** The page's `packagetrie` text computed the way the program computes it, in
    three string stages: `json.dumps` of the trie with the separators `,` and
    `:`; the substitution of `"([a-z]+|\$)"` by its group, which unquotes the
    keys that are a lower-case letter or `$`; and the replacement of every
    `{$:0}` by `0`. The chain is shown to write exactly the text that
    `TrieText.Encode` writes from the trie, so everything proved about that
    text (it reads back losslessly, it holds no whitespace of its own) holds
    of the page. */
module PageText {
  import opened Results
  import opened Trie
  import opened TrieText
  import Packages

  // ---------------------------------------------------------------------
  // Stage 1: `json.dumps(trie, separators=',:')`. Every key is a quoted
  // one-character string; the value of `$` is the number `0`.

  /** A key as `json.dumps` writes it, for characters it does not escape.
      JSON escaping is not modelled: for `"`, `\`, control characters and
      non-ASCII keys `json.dumps` writes `\"`, `\\` or `\uXXXX`, and this
      function does not, so `TrieTextOf` and `PackageTrie` are faithful only
      on names without such characters. */
  function DumpKey(c: char): string {
    ['"', c, '"']
  }

  /** A dictionary dumps as a braced object, `{}` exactly when it is empty. */
  function DumpNode(n: Node): (r: string)
    ensures |r| >= 2 && r[0] == '{' && r[|r| - 1] == '}'
    ensures r == "{}" <==> n.entries == []
    decreases n, 1
  {
    "{" + DumpEntries(n.entries) + "}"
  }

  function DumpEntries(es: seq<Entry>): (r: string)
    ensures r == "" <==> es == []
    decreases es, 0
  {
    if es == [] then ""
    else DumpEntry(es[0]) + (if |es| == 1 then "" else "," + DumpEntries(es[1..]))
  }

  function DumpEntry(e: Entry): string
    decreases e
  {
    DumpKey(e.key) + ":" + (match e.val case Zero => "0" case Sub(m) => DumpNode(m))
  }

  // ---------------------------------------------------------------------
  // Stage 2: `RE_QUOTES.sub('\\1', text)`.

  /** End of the run of lower-case letters starting at `i`: how far the
      greedy `[a-z]+` reaches. */
  function LowerEnd(s: string, i: nat): (j: nat)
    requires i <= |s|
    ensures i <= j <= |s|
    decreases |s| - i
  {
    if i < |s| && Lower(s[i]) then LowerEnd(s, i + 1) else i
  }

  /** Length of the match of `"([a-z]+|\$)"` at the start of `s`, 0 when the
      pattern does not match there. Backtracking into the letter run cannot
      help, since a shorter run is followed by a letter and not by `"`. */
  function QuotedMatch(s: string): (m: nat)
    ensures m == 0 || 3 <= m <= |s|
  {
    if |s| < 3 || s[0] != '"' then 0
    else
      var j := LowerEnd(s, 1);
      if j > 1 && j < |s| && s[j] == '"' then j + 1
      else if s[1] == Terminal && s[2] == '"' then 3
      else 0
  }

  /** The letter run ends at the first character that is not a lower-case
      letter. */
  lemma {:induction false} LowerEndSpec(s: string, i: nat)
    requires i <= |s|
    ensures forall k :: i <= k < LowerEnd(s, i) ==> Lower(s[k])
    ensures LowerEnd(s, i) < |s| ==> !Lower(s[LowerEnd(s, i)])
    decreases |s| - i
  {
    if i < |s| && Lower(s[i]) {
      LowerEndSpec(s, i + 1);
    }
  }

  /** `QuotedMatch` is the regular expression: it reports a match of
      length `m` exactly when `s` opens with a quote, closes a quote at
      `m - 1`, and holds either `$` or a non-empty run of lower-case letters
      in between. */
  lemma QuotedMatchSpec(s: string, m: nat)
    requires 3 <= m <= |s|
    ensures QuotedMatch(s) == m <==>
              && s[0] == '"' && s[m - 1] == '"'
              && ((m == 3 && s[1] == Terminal) || forall i :: 1 <= i < m - 1 ==> Lower(s[i]))
  {
    LowerEndSpec(s, 1);
    var j := LowerEnd(s, 1);
    if s[0] == '"' && s[m - 1] == '"' && forall i :: 1 <= i < m - 1 ==> Lower(s[i]) {
      assert !Lower(s[m - 1]);
      assert j < |s| ==> !Lower(s[j]);
    }
  }

  /** The substitution scans left to right; a match is replaced by the text
      between its quotes and the scan resumes after it, and any other
      character is copied. */
  function StripQuotes(s: string): (r: string)
    ensures |r| <= |s|
    decreases |s|
  {
    if s == [] then ""
    else
      var m := QuotedMatch(s);
      if m > 0 then s[1..m - 1] + StripQuotes(s[m..])
      else [s[0]] + StripQuotes(s[1..])
  }

  /** A text without quotes is left as it is. */
  lemma {:induction false} StripNothing(s: string)
    requires '"' !in s
    ensures StripQuotes(s) == s
    decreases |s|
  {
    if s != [] {
      assert s[0] in s;
      StripNothing(s[1..]);
    }
  }

  // ---------------------------------------------------------------------
  // Stage 3: `.replace('{$:0}', '0')`.

  /** The text of a node that only ends a word, after stage 2. */
  const LeafText: string := "{$:0}"

  predicate LeafAt(s: string) {
    |s| >= 5 && s[0] == '{' && s[1] == '$' && s[2] == ':' && s[3] == '0' && s[4] == '}'
  }

  /** Python's `str.replace`: occurrences found left to right without
      overlap, each replaced by `0`; the scan resumes after the
      replacement. */
  function ReplaceLeaf(s: string): (r: string)
    ensures |r| <= |s|
    decreases |s|
  {
    if LeafAt(s) then "0" + ReplaceLeaf(s[5..])
    else if s == [] then ""
    else [s[0]] + ReplaceLeaf(s[1..])
  }

  /** A text without `{$:0}` anywhere is left as it is. */
  lemma {:induction false} ReplaceNothing(s: string)
    requires forall i :: 0 <= i <= |s| ==> !LeafAt(s[i..])
    ensures ReplaceLeaf(s) == s
    decreases |s|
  {
    if s != [] {
      assert s[0..] == s;
      assert forall i :: 0 <= i <= |s| - 1 ==> s[1..][i..] == s[i + 1..];
      ReplaceNothing(s[1..]);
    }
  }

  /** The whole chain from the trie to the page text. For every trie the
      direct encoder covers, it is exactly that encoder's text. */
  function TrieTextOf(t: Node): (r: string)
    ensures Encodable(t) ==> r == Encode(t)
  {
    ChainIsEncode(t);
    ReplaceLeaf(StripQuotes(DumpNode(t)))
  }

  // ---------------------------------------------------------------------
  // The text between stage 2 and stage 3: keys unquoted, `{$:0}` still
  // spelled out.

  function UnquotedNode(n: Node): string
    decreases n, 1
  {
    "{" + UnquotedEntries(n.entries) + "}"
  }

  function UnquotedEntries(es: seq<Entry>): string
    decreases es, 0
  {
    if es == [] then ""
    else UnquotedEntry(es[0]) + (if |es| == 1 then "" else "," + UnquotedEntries(es[1..]))
  }

  function UnquotedEntry(e: Entry): string
    decreases e
  {
    EncodeKey(e.key) + ":" + (match e.val case Zero => "0" case Sub(m) => UnquotedNode(m))
  }

  // ---------------------------------------------------------------------
  // Stage 2 unquotes exactly the keys `Bare` names.

  /** Regrouping a text made of three parts and what follows it. */
  lemma Regroup(a: string, b: string, c: string, r: string)
    ensures a + b + c + r == a + (b + (c + r))
    ensures a + (b + c) + r == a + (b + (c + r))
  {
  }

  /** A quoted key followed by some text, split at its characters. */
  lemma Quoted(k: char, r: string)
    ensures ['"', k, '"'] + r == "\"" + ([k] + ("\"" + r))
  {
  }

  /** A character other than `"` is copied. */
  lemma StripPlain(c: char, rest: string)
    requires c != '"'
    ensures StripQuotes([c] + rest) == [c] + StripQuotes(rest)
  {
    assert ([c] + rest)[1..] == rest;
  }

  /** At a match of the pattern, the text between the quotes is kept. */
  lemma StripMatch(s: string)
    requires QuotedMatch(s) > 0
    ensures StripQuotes(s) == s[1..QuotedMatch(s) - 1] + StripQuotes(s[QuotedMatch(s)..])
  {
  }

  /** Where the pattern does not match, the first character is kept. */
  lemma StripSkip(s: string)
    requires s != [] && QuotedMatch(s) == 0
    ensures StripQuotes(s) == [s[0]] + StripQuotes(s[1..])
  {
  }

  /** A quoted key followed by `:` loses its quotes exactly when it is
      bare. */
  lemma StripKey(k: char, rest: string)
    requires KeyChar(k)
    ensures StripQuotes(DumpKey(k) + (":" + rest)) == EncodeKey(k) + (":" + StripQuotes(rest))
  {
    var s := DumpKey(k) + (":" + rest);
    assert s[0] == '"' && s[1] == k && s[2] == '"' && s[3] == ':';
    assert s[3..] == ":" + rest;
    StripPlain(':', rest);
    if Bare(k) {
      StripBare(k, s);
    } else {
      StripQuoted(k, rest);
    }
  }

  lemma StripBare(k: char, s: string)
    requires Bare(k) && |s| >= 3 && s[0] == '"' && s[1] == k && s[2] == '"'
    ensures StripQuotes(s) == [k] + StripQuotes(s[3..])
  {
    if Lower(k) {
      assert LowerEnd(s, 2) == 2;
    } else {
      assert LowerEnd(s, 1) == 1;
    }
    assert QuotedMatch(s) == 3;
    assert s[1..2] == [k];
    StripMatch(s);
  }

  lemma StripQuoted(k: char, rest: string)
    requires KeyChar(k) && !Bare(k)
    ensures StripQuotes(DumpKey(k) + (":" + rest)) == DumpKey(k) + (":" + StripQuotes(rest))
  {
    var x := StripQuotes(rest);
    var u := ":" + rest;
    var t := "\"" + u;
    var s := "\"" + ([k] + t);
    assert s == DumpKey(k) + u;
    StripPlain(':', rest);
    assert StripQuotes(u) == ":" + x;
    assert t[1..] == u;
    assert LowerEnd(t, 1) == 1;
    assert QuotedMatch(t) == 0;
    StripSkip(t);
    assert StripQuotes(t) == "\"" + (":" + x);
    StripPlain(k, t);
    assert s[1..] == [k] + t;
    assert LowerEnd(s, 1) == 1;
    assert QuotedMatch(s) == 0;
    StripSkip(s);
    assert StripQuotes(s) == "\"" + ([k] + ("\"" + (":" + x)));
    assert "\"" + ([k] + ("\"" + (":" + x))) == DumpKey(k) + (":" + x);
  }

  lemma {:induction false} StripNode(n: Node, rest: string)
    requires KeysIn(n, KeyChar)
    ensures StripQuotes(DumpNode(n) + rest) == UnquotedNode(n) + StripQuotes(rest)
    decreases n, 1
  {
    var x := StripQuotes(rest);
    var tail := "}" + rest;
    StripPlain('}', rest);
    assert StripQuotes(tail) == "}" + x;
    StripEntries(n.entries, tail);
    var inner := DumpEntries(n.entries) + tail;
    assert StripQuotes(inner) == UnquotedEntries(n.entries) + ("}" + x);
    Regroup("{", DumpEntries(n.entries), "}", rest);
    StripPlain('{', inner);
    Regroup("{", UnquotedEntries(n.entries), "}", x);
  }

  lemma {:induction false} StripEntries(es: seq<Entry>, rest: string)
    requires forall i :: 0 <= i < |es| ==> EntryKeysIn(es[i], KeyChar)
    ensures StripQuotes(DumpEntries(es) + rest) == UnquotedEntries(es) + StripQuotes(rest)
    decreases es, 0
  {
    var x := StripQuotes(rest);
    if es == [] {
      assert DumpEntries(es) + rest == rest;
      assert UnquotedEntries(es) + x == x;
    } else if |es| == 1 {
      StripEntry(es[0], rest);
      assert DumpEntries(es) == DumpEntry(es[0]);
      assert UnquotedEntries(es) == UnquotedEntry(es[0]);
    } else {
      var more := DumpEntries(es[1..]) + rest;
      var after := "," + more;
      StripEntries(es[1..], rest);
      StripPlain(',', more);
      assert StripQuotes(after) == "," + (UnquotedEntries(es[1..]) + x);
      StripEntry(es[0], after);
      Regroup(DumpEntry(es[0]), ",", DumpEntries(es[1..]), rest);
      Regroup(UnquotedEntry(es[0]), ",", UnquotedEntries(es[1..]), x);
    }
  }

  lemma {:induction false} StripEntry(e: Entry, rest: string)
    requires EntryKeysIn(e, KeyChar)
    ensures StripQuotes(DumpEntry(e) + rest) == UnquotedEntry(e) + StripQuotes(rest)
    decreases e
  {
    var x := StripQuotes(rest);
    match e.val
    case Zero =>
      Regroup(DumpKey(e.key), ":", "0", rest);
      StripKey(e.key, "0" + rest);
      StripPlain('0', rest);
      Regroup(EncodeKey(e.key), ":", "0", x);
    case Sub(m) =>
      Regroup(DumpKey(e.key), ":", DumpNode(m), rest);
      StripKey(e.key, DumpNode(m) + rest);
      StripNode(m, rest);
      Regroup(EncodeKey(e.key), ":", UnquotedNode(m), x);
  }

  // ---------------------------------------------------------------------
  // Stage 3 turns exactly the nodes that only end a word into `0`.

  /** A `{` that does not start `{$:0}` is copied. */
  lemma ReplaceOpen(inner: string)
    requires !LeafAt("{" + inner)
    ensures ReplaceLeaf("{" + inner) == "{" + ReplaceLeaf(inner)
  {
    assert ("{" + inner)[1..] == inner;
  }

  /** A character other than `{` is copied. */
  lemma ReplacePlain(c: char, rest: string)
    requires c != '{'
    ensures ReplaceLeaf([c] + rest) == [c] + ReplaceLeaf(rest)
  {
    assert ([c] + rest)[1..] == rest;
  }

  /** A key followed by `:` is copied, even the quoted key `"{"`. */
  lemma ReplaceKey(k: char, rest: string)
    requires KeyChar(k)
    ensures ReplaceLeaf(EncodeKey(k) + (":" + rest)) == EncodeKey(k) + (":" + ReplaceLeaf(rest))
  {
    var y := ReplaceLeaf(rest);
    var u := ":" + rest;
    ReplacePlain(':', rest);
    if Bare(k) {
      ReplacePlain(k, u);
    } else {
      var t := "\"" + u;
      ReplacePlain('"', u);
      var s := [k] + t;
      assert s[1] == '"';
      assert s[1..] == t;
      assert ReplaceLeaf(s) == [k] + ReplaceLeaf(t);
      ReplacePlain('"', s);
      Quoted(k, u);
      Quoted(k, ":" + y);
    }
  }

  /** Only a node that holds nothing but `$: 0` starts with `{$:0}`. */
  lemma NotLeafStart(n: Node, rest: string)
    requires Shaped(n) && !LeafOnly(n)
    ensures !LeafAt(UnquotedNode(n) + rest)
  {
    var es := n.entries;
    var s := UnquotedNode(n) + rest;
    Regroup("{", UnquotedEntries(es), "}", rest);
    if es == [] {
      assert s[1] == '}';
    } else {
      var e := es[0];
      var more := if |es| == 1 then "" else "," + UnquotedEntries(es[1..]);
      assert UnquotedEntries(es) == UnquotedEntry(e) + more;
      assert s[1] == UnquotedEntry(e)[0] == EncodeKey(e.key)[0];
      if e.key == Terminal {
        assert ShapedEntry(e);
        assert UnquotedEntry(e) == "$:0";
        assert es == [e] + es[1..];
        assert s[4] == more[0] == ',';
      }
    }
  }

  lemma {:induction false} ReplaceNode(n: Node, rest: string)
    requires Shaped(n) && KeysIn(n, KeyChar)
    ensures ReplaceLeaf(UnquotedNode(n) + rest) == EncodeNode(n) + ReplaceLeaf(rest)
    decreases n, 1
  {
    var y := ReplaceLeaf(rest);
    var s := UnquotedNode(n) + rest;
    if LeafOnly(n) {
      assert UnquotedEntries(n.entries) == UnquotedEntry(Entry(Terminal, Zero)) == "$:0";
      assert UnquotedNode(n) == LeafText;
      assert LeafAt(s);
      assert s[5..] == rest;
    } else {
      var es := n.entries;
      var inner := UnquotedEntries(es) + ("}" + rest);
      NotLeafStart(n, rest);
      Regroup("{", UnquotedEntries(es), "}", rest);
      ReplaceOpen(inner);
      ReplacePlain('}', rest);
      ReplaceEntries(es, "}" + rest);
      Regroup("{", EncodeEntries(es), "}", y);
    }
  }

  lemma {:induction false} ReplaceEntries(es: seq<Entry>, rest: string)
    requires forall i :: 0 <= i < |es| ==> ShapedEntry(es[i]) && EntryKeysIn(es[i], KeyChar)
    ensures ReplaceLeaf(UnquotedEntries(es) + rest) == EncodeEntries(es) + ReplaceLeaf(rest)
    decreases es, 0
  {
    var y := ReplaceLeaf(rest);
    if es == [] {
      assert UnquotedEntries(es) + rest == rest;
      assert EncodeEntries(es) + y == y;
    } else if |es| == 1 {
      ReplaceEntry(es[0], rest);
      assert UnquotedEntries(es) == UnquotedEntry(es[0]);
      assert EncodeEntries(es) == EncodeEntry(es[0]);
    } else {
      var more := UnquotedEntries(es[1..]) + rest;
      ReplaceEntries(es[1..], rest);
      ReplacePlain(',', more);
      ReplaceEntry(es[0], "," + more);
      Regroup(UnquotedEntry(es[0]), ",", UnquotedEntries(es[1..]), rest);
      Regroup(EncodeEntry(es[0]), ",", EncodeEntries(es[1..]), y);
    }
  }

  lemma {:induction false} ReplaceEntry(e: Entry, rest: string)
    requires ShapedEntry(e) && EntryKeysIn(e, KeyChar)
    ensures ReplaceLeaf(UnquotedEntry(e) + rest) == EncodeEntry(e) + ReplaceLeaf(rest)
    decreases e
  {
    var y := ReplaceLeaf(rest);
    match e.val
    case Zero =>
      Regroup(EncodeKey(e.key), ":", "0", rest);
      ReplaceKey(e.key, "0" + rest);
      ReplacePlain('0', rest);
      Regroup(EncodeKey(e.key), ":", "0", y);
    case Sub(m) =>
      Regroup(EncodeKey(e.key), ":", UnquotedNode(m), rest);
      ReplaceKey(e.key, UnquotedNode(m) + rest);
      ReplaceNode(m, rest);
      Regroup(EncodeKey(e.key), ":", EncodeNode(m), y);
  }

  // ---------------------------------------------------------------------
  // The chain and the direct encoder agree.

  /** Dumping, unquoting and replacing write exactly the text the direct
      encoder writes, for every trie it encodes faithfully. */
  lemma ChainIsEncode(t: Node)
    ensures Encodable(t) ==> ReplaceLeaf(StripQuotes(DumpNode(t))) == Encode(t)
  {
    if !Encodable(t) {
      return;
    }
    StripNode(t, "");
    ReplaceNode(t, "");
    assert DumpNode(t) + "" == DumpNode(t);
    assert UnquotedNode(t) + "" == UnquotedNode(t);
    assert EncodeNode(t) + "" == EncodeNode(t);
  }

  /** `packagetrie` for a list of package records: the trie of their names,
      as page text. A name holding `$` below a shorter name's end makes the
      trie builder fail. */
  function PackageTrie(ps: seq<Packages.Package>): (r: Result<string, TrieError>)
    ensures (forall i :: 0 <= i < |ps| ==> Terminal !in ps[i].name) ==> r.Ok?
    ensures GenTrie(Packages.Names(ps)).Ok? && Encodable(GenTrie(Packages.Names(ps)).value) ==>
              r.Ok? && Decode(r.value) == Some(GenTrie(Packages.Names(ps)).value)
  {
    var names := Packages.Names(ps);
    assert forall i :: 0 <= i < |names| ==> names[i] == ps[i].name;
    var t :- GenTrie(names);
    if Encodable(t) then
      RoundTrip(t);
      Ok(TrieTextOf(t))
    else
      Ok(TrieTextOf(t))
  }

  /** For packages whose names are made of name characters, the page text
      is produced, reads back as the trie of the names, and that trie holds
      a word exactly when it is one of the package names. */
  lemma PackageTrieLossless(ps: seq<Packages.Package>, v: string)
    requires forall i, j :: 0 <= i < |ps| && 0 <= j < |ps[i].name| ==> NameChar(ps[i].name[j])
    ensures PackageTrie(ps).Ok?
    ensures Decode(PackageTrie(ps).value).Some?
    ensures Member(Decode(PackageTrie(ps).value).value, v) <==> exists i :: 0 <= i < |ps| && ps[i].name == v
  {
    var names := Packages.Names(ps);
    assert forall i, j :: 0 <= i < |names| && 0 <= j < |names[i]| ==> NameChar(names[i][j]) by {
      assert forall i :: 0 <= i < |names| ==> names[i] == ps[i].name;
    }
    GenTrieEncodable(names);
    Lossless(names, v);
    ChainIsEncode(GenTrie(names).value);
    if v in names {
      var i :| 0 <= i < |names| && names[i] == v;
      assert ps[i].name == v;
    }
  }
}
