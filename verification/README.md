# paklist core in Dafny

`paklist.py` builds the AOSC package list page. This project models the three
pure transformations at its centre.

1. **The dependency column of each package row.** The query stores each edge as
   `dependency|version|relationship`. `group_concat` joins the edges of one
   package with `,`. For every row, `read_db` splits that string, unpacks each
   item into three fields, and groups the `(dependency, version)` pairs under
   their raw relationship tag. The grouping is an insertion-ordered `dict`.
   Every row becomes one package record, in row order.
2. **`gen_trie`.** The package names are compiled into a prefix trie of nested
   insertion-ordered dictionaries. `'$': 0` marks the end of a word.
3. **The page text of the trie.** This is `json.dumps` with the separators `,`
   and `:`. Then the quotes are stripped around keys matching
   `"([a-z]+|\$)"`, and every `{$:0}` is replaced by `0`.

Modules:

- `Results` holds the `Option` and `Result` types.
- `Seqs` holds Python's `str.split` and `join`, `dict` key order, and
  first-occurrence de-duplication.
- `Deps` models the dependency string and the `DEP_REL` table.
- `Packages` models the `read_db` loop.
- `Trie` models `gen_trie`. A dictionary is an ordered list of entries, and a
  value is either `Zero` (the `0` sentinel) or a child dictionary.
- `TrieText` is a direct encoder of the minified text, with a decoder.
- `PageText` models the three string stages as the program performs them. It
  proves that they produce exactly the direct encoder's text.
- `Scenarios` holds worked examples.

Points where the code's behaviour is easy to misread:

- **Unknown tags are not rejected.** `read_db` never consults `DEP_REL`, so
  any relationship tag, listed in the table or not, becomes a dictionary key.
  Only the template looks labels up. `Deps.UnknownTagExample` files a tag the
  table does not list.
- **Keys.** The map is keyed by the raw tag string, not by a closed enumeration
  of relationship kinds.
- **Empty field.** `if row[-1]` is false for `None` and for `""`, so both give
  `{}`.
- **Names containing `$`.** The code does not reject them. Such a name can make
  `gen_trie` descend into the `0` sentinel, which raises a `TypeError`.
  `Trie.TerminalInWordFails` exhibits this. The build itself is modelled for
  every input, with that error as `Err(NotADict)`.

## Model

| member | source | states |
|---|---|---|
| Seqs.Split | paklist.py:60-61 | `str.split` keeps empty pieces: one more piece than separators, no piece holds the separator, and joining the pieces rebuilds the input |
| Seqs.SplitJoin | paklist.py:60-61 | splitting the join of separator-free pieces gives the pieces back |
| Seqs.AddKey | paklist.py:62-65 | `d[k] = v` on a dict: a new key goes last, existing keys keep their order, and no other key appears |
| Seqs.DedupOrder | paklist.py:62-65 | de-duplication keeps keys in order of their first appearance |
| Seqs.DedupFirstOccurrences | paklist.py:62-65 | the keys of a dict grown one key at a time are exactly the elements that do not occur earlier, in order of first appearance |
| Deps.ParseItem | paklist.py:61 | the three-way unpacking succeeds exactly when the item holds two `\|`; the fields then rebuild the item, and otherwise the error carries the field count |
| Deps.FormatItem | paklist.py:21 | the text of an edge splits at `\|` back into its three fields when none of them holds a `\|` |
| Deps.ParseFormatItem | paklist.py:21 | an edge whose fields hold no separator is read back unchanged from the text the query builds |
| Deps.FormatDeps | paklist.py:21 | when no field holds a separator, the text of one or more edges splits at `,` into one item per edge, in order; for no edges the query yields `None` (paklist.py:18-25), and `[]` is formatted as `""` only by convention, both giving `{}` at paklist.py:59 |
| Deps.Label | paklist.py:29-36 | a tag has a label exactly when the table lists it, and the label is the one the table pairs with it |
| Deps.AddEdge | paklist.py:62-65 | filing an edge leaves the tags in dict order: a new tag is appended, an existing one keeps its place |
| Deps.AddEdgeAt | paklist.py:62-63 | the edge is appended to the list of its own tag, and every other entry is unchanged |
| Deps.AddEdgeNew | paklist.py:64-65 | a new tag becomes the last key, holding just the edge |
| Deps.AddEdgeTotal | paklist.py:62-65 | each filing adds exactly one edge to the map |
| Deps.AddEdgeDistinct | paklist.py:62-65 | filing keeps the keys distinct |
| Deps.LookupDistinct | paklist.py:62 | in a map with distinct keys, a tag finds its own list, and a missing tag finds nothing |
| Deps.Aggregate | paklist.py:60-65 | the inner loop keeps the keys distinct and adds one edge per item |
| Deps.ParseDependency | paklist.py:58-65 | an absent or empty field gives the empty map; any result has distinct keys |
| Deps.ParseItems | paklist.py:60-61 | succeeds exactly when every item splits into three fields; the edges come in item order; an error is the first bad item's |
| Deps.GroupByTag | paklist.py:62-65 | the reference grouping has one key per distinct tag, in order of first appearance |
| Deps.GroupSnoc | paklist.py:62-65 | filing one more edge into the reference grouping gives the reference grouping of the longer list |
| Deps.AggregateGroups | paklist.py:60-65 | the loop either fails at the first malformed item or yields the reference grouping of all edges |
| Deps.GroupByTagLookup | paklist.py:62-65 | each tag maps to exactly the edges carrying it, in order; a tag no edge carries is absent |
| Deps.GroupByTagTotal | paklist.py:62-65 | every edge lands in exactly one list: the list lengths add up to the number of edges |
| Deps.ParseDependencySpec | paklist.py:58-65 | a non-empty field is an error exactly when some item is malformed, and otherwise the reference grouping of its edges |
| Deps.FormatParse | paklist.py:60-65 | building the dependency string from clean edges and parsing it gives those edges grouped by tag |
| Deps.SingleEdge | paklist.py:60-65 | a single clean edge gives a map with one key holding that edge |
| Deps.SingleEdgeExample | paklist.py:29-36 | `b\|>=1.0\|PKGDEP` gives `{"PKGDEP": [("b", ">=1.0")]}`, and `PKGDEP` is labelled `Depends` |
| Deps.UnknownTagExample | paklist.py:62-65 | a tag outside the label table is filed like any other tag |
| Deps.UnknownTagLabel | paklist.py:29-36 | `PKGSUGGEST` has no label in the table |
| Deps.MalformedFails | paklist.py:60-61 | a malformed item is never skipped: the field fails exactly when some item lacks three fields, naming the first such item |
| Packages.WithDependency | paklist.py:66 | the record keeps every column of its row and carries the parsed map |
| Packages.ReadPackages | paklist.py:55-68 | one record per row, in row order, differing only in the parsed map; the first malformed row aborts the read with its error |
| Trie.Find | paklist.py:45 | a key is found exactly when it is among the dictionary's keys |
| Trie.Put | paklist.py:46 | storing a key follows dict key order |
| Trie.FindPut | paklist.py:46-48 | after storing, the key finds the new value and every other key finds what it found before |
| Trie.PutSame | paklist.py:48 | storing the value a key already holds changes nothing |
| Trie.Descend | paklist.py:44-47 | one step of the walk fails exactly on a `0` value, follows an existing child, and otherwise starts an empty one |
| Trie.MemberAt | paklist.py:48 | a word is stored exactly when its path exists and ends at a node holding `$: 0` |
| Trie.FindShaped | paklist.py:45-48 | in a trie the builder made, `$` holds `0` and every other key holds a child |
| Trie.PutShaped | paklist.py:46-48 | storing a well-shaped entry keeps the trie well shaped |
| Trie.ShapedChild | paklist.py:44-47 | in a well-shaped trie, one step along any key but `$` reaches a well-shaped child, existing or new |
| Trie.Insert | paklist.py:43-48 | inserting a word without `$` into a well-shaped trie never walks into the `0` sentinel |
| Trie.InsertShaped | paklist.py:43-48 | a word without `$` is inserted without error and keeps the trie well shaped |
| Trie.InsertAt | paklist.py:43-48 | along the word's path each node gains the word's next character (or `$`) in dict order, other keys unchanged; paths off the word are untouched |
| Trie.InsertMember | paklist.py:43-48 | inserting a word adds exactly that word to the stored set |
| Trie.InsertKeysIn | paklist.py:43-48 | the keys a word adds are its own characters or `$` |
| Trie.InsertExisting | paklist.py:43-48 | inserting a stored word returns the same trie |
| Trie.GenTrie | paklist.py:40-49 | words without `$` always build, and the trie is well shaped: `$` holds `0`, every other key a child |
| Trie.GenTrieMembers | paklist.py:40-49 | the trie stores exactly the given words |
| Trie.GenTrieKeys | paklist.py:44-47 | each node's keys are the next characters of the words through it, in order of first appearance |
| Trie.GenTrieSpec | paklist.py:40-49 | the build succeeds, the empty list gives `{}`, membership is exact, and sibling order is first insertion |
| Trie.GenTrieKeysIn | paklist.py:40-49 | a property that every character of the words has, and `$` has, holds of every key of the trie |
| Trie.GenTrieDedup | paklist.py:40-49 | repeated words leave the trie identical |
| Trie.SameWordsSameMembers | paklist.py:40-49 | the same words in any order and multiplicity are stored as the same set |
| Trie.TerminalInWordFails | paklist.py:45-48 | the names `$`, the empty name, `$a` make the build walk into the `0` sentinel and fail |
| TrieText.KeyRoundTrip | paklist.py:38 | a key, bare or quoted, is read back as itself |
| TrieText.NodeRoundTrip | paklist.py:78-79 | the text of a node is read back as the node, with `0` read as the node holding only `$: 0` |
| TrieText.EntriesRoundTrip | paklist.py:78-79 | a `,`-separated entry list is read back in order |
| TrieText.EntryRoundTrip | paklist.py:78-79 | `key:value` is read back as the entry |
| TrieText.RoundTrip | paklist.py:78-79 | decoding the text of a well-formed trie gives exactly that trie |
| TrieText.NodeChars | paklist.py:78-79 | every character of the text is punctuation or one of the trie's keys |
| TrieText.GenTrieEncodable | paklist.py:78 | names of name characters give a trie the text encodes faithfully |
| TrieText.Lossless | paklist.py:78-79 | the text of the names' trie reads back as that trie, in which a word is stored exactly when it is one of the names |
| TrieText.NoWhitespace | paklist.py:78 | names without spaces give a text with no whitespace at all |
| PageText.LowerEndSpec | paklist.py:38 | the greedy `[a-z]+` run stops at the first character that is not a lower-case letter |
| PageText.QuotedMatchSpec | paklist.py:38 | a match of length `m` is found exactly when a quote opens, a quote closes at `m - 1`, and `$` or a non-empty run of lower-case letters lies between |
| PageText.StripNothing | paklist.py:79 | the substitution leaves a text without quotes unchanged |
| PageText.StripKey | paklist.py:38 | a dumped key followed by `:` loses its quotes exactly when it is a lower-case letter or `$` |
| PageText.StripNode | paklist.py:79 | the substitution applied to a dumped node unquotes exactly the bare keys and changes nothing else |
| PageText.ReplaceNothing | paklist.py:79 | a text without `{$:0}` is left unchanged |
| PageText.NotLeafStart | paklist.py:79 | only a node holding nothing but `$: 0` produces `{$:0}` at its start |
| PageText.ReplaceNode | paklist.py:79 | replacing `{$:0}` in an unquoted node turns exactly the nodes that only end a word into `0` |
| PageText.ChainIsEncode | paklist.py:78-79 | dumping, unquoting and replacing write exactly the direct encoder's text, for every well-formed trie |
| PageText.DumpNode | paklist.py:78 | `json.dumps` writes a dictionary as a braced object, `{}` exactly when it is empty; its contents are fixed by PageText.StripNode and PageText.ChainIsEncode |
| PageText.QuotedMatch | paklist.py:38 | a match of the pattern is absent or spans at least a quoted character within the text; PageText.QuotedMatchSpec says exactly when it occurs |
| PageText.StripQuotes | paklist.py:79 | the substitution never lengthens the text; PageText.StripKey and PageText.StripNode say what it removes |
| PageText.ReplaceLeaf | paklist.py:79 | the replacement never lengthens the text; PageText.ReplaceNode says what it replaces |
| PageText.TrieTextOf | paklist.py:78-79 | for a well-formed trie, the three stages give exactly the direct encoder's text |
| PageText.PackageTrie | paklist.py:78-79 | names without `$` always give a page text, and whenever their trie is encodable that text decodes to exactly the trie |
| PageText.PackageTrieLossless | paklist.py:78-79 | the page text of packages with plain names decodes, and a word is stored in it exactly when it is some package's name |
| Scenarios.NoNames | paklist.py:41 | no packages give `{}` |
| Scenarios.EmptyName | paklist.py:48 | the single empty name gives the page text `0` |
| Scenarios.TwoNames | paklist.py:40-49 | `ab` and `ac` share the node of `a`, whose keys keep insertion order |
| Scenarios.TwoNamesText | paklist.py:78-79 | `ab` and `ac` give the page text `{a:{b:0,c:0}}` |

## Left out

- The SQLite connection, the cursor and the query itself (`paklist.py:14-27`, `51-56`) are left out. They are I/O. Rows are a parameter of `Packages.ReadPackages`, and only the query's string format is kept (`Deps.FormatItem`, `Deps.FormatDeps`).
- `group_concat` skips an edge whose concatenation is NULL, for example one with a NULL version. This is left out because it happens inside the database; the model takes the concatenated string as given.
- The Jinja environment, template loading and rendering, the `strftime` filter and `time.gmtime` (`paklist.py:70-77`, `80-81`) are left out: they are a foreign library, I/O and the clock. `PageText.PackageTrie` stands for the one value the page receives from the trie.
- `main`, `sys.argv` and `print` (`paklist.py:83-89`) are left out as command-line plumbing.
- `DEP_REL` is used only by the template. It is modelled as a table with `Deps.Label`, and parsing never consults it.
- TrieText.Lossless: proved only for names of printable ASCII other than `"`, `\` and `$`. JSON escaping of other characters (control characters, non-ASCII, DEL, `"` and `\`) is not modelled, so the direct encoder does not cover them.
- PageText.PackageTrieLossless: restricted to the same alphabet, for the same reason. `PageText.TrieTextOf` is defined for every trie, but it is shown equal to the encoder only on that alphabet.
- Trie.GenTrieSpec: requires names without `$`. With `$` the outcome depends on order, as `Trie.TerminalInWordFails` shows, and no general property is claimed.
- The regular expression is modelled only for the pattern `"([a-z]+|\$)"` (`PageText.QuotedMatch`), not as a general regex engine. `json.dumps` is modelled only for this trie shape (`PageText.DumpNode`).
