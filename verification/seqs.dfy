/** Sequence helpers shared by the dependency parser and the trie builder:
    Python's `str.split` with an explicit separator, its inverse `Join`, and
    the first-occurrence order in which an insertion-ordered `dict` keeps its
    keys. */
module Seqs {

  /** No element occurs twice. */
  predicate Distinct<T(==)>(s: seq<T>) {
    forall i, j :: 0 <= i < j < |s| ==> s[i] != s[j]
  }

  /** Position of the first occurrence of `x` in `s`. */
  function FirstIndex<T(==)>(s: seq<T>, x: T): (i: nat)
    requires x in s
    ensures i < |s| && s[i] == x && x !in s[..i]
  {
    if s[0] == x then 0 else 1 + FirstIndex(s[1..], x)
  }

  /** The key order of a `dict` after `d[k] = v`: a new key goes last, an
      existing key keeps its place. */
  function AddKey<T(==)>(ks: seq<T>, k: T): (r: seq<T>)
    ensures k in r
    ensures ks <= r
    ensures forall i :: 0 <= i < |r| ==> r[i] in ks || r[i] == k
    ensures |r| == |ks| + (if k in ks then 0 else 1)
  {
    if k in ks then ks else ks + [k]
  }

  /** Sequences with the same elements at the same places are equal. */
  lemma SameElements<T>(a: seq<T>, b: seq<T>)
    requires |a| == |b|
    requires forall i :: 0 <= i < |a| ==> a[i] == b[i]
    ensures a == b
  {
  }

  /** Two sequences that start alike are in the prefix relation exactly
      when their tails are. */
  lemma PrefixTails<T>(p: seq<T>, w: seq<T>)
    requires p != [] && w != [] && p[0] == w[0]
    ensures p <= w <==> p[1..] <= w[1..]
  {
    if p[1..] <= w[1..] {
      assert p == [p[0]] + p[1..] && w == [w[0]] + w[1..];
      assert p == w[..|p|];
    }
  }

  /** A sequence is its prefix without the last element, then that
      element. */
  lemma InitLast<T>(s: seq<T>)
    requires s != []
    ensures s == s[..|s| - 1] + [s[|s| - 1]]
    ensures forall x :: x in s <==> x in s[..|s| - 1] || x == s[|s| - 1]
  {
    assert s == s[..|s| - 1] + [s[|s| - 1]];
  }

  /** Storing a key other than the first leaves the first in front. */
  lemma AddKeyCons<T>(k0: T, ks: seq<T>, k: T)
    requires k0 != k
    ensures AddKey([k0] + ks, k) == [k0] + AddKey(ks, k)
  {
    if k !in ks {
      assert k !in [k0] + ks;
      assert ([k0] + ks) + [k] == [k0] + (ks + [k]);
    }
  }

  /** Storing a key keeps the keys distinct. */
  lemma AddKeyDistinct<T>(ks: seq<T>, k: T)
    requires Distinct(ks)
    ensures Distinct(AddKey(ks, k))
  {
  }

  /** The distinct elements of `s`, each where it first occurs: the key order
      of a `dict` into which the elements of `s` are stored one after the
      other. */
  function Dedup<T(==)>(s: seq<T>): (r: seq<T>)
    ensures forall i :: 0 <= i < |r| ==> r[i] in s
    ensures forall i :: 0 <= i < |s| ==> s[i] in r
    ensures Distinct(r)
  {
    if s == [] then [] else AddKey(Dedup(s[..|s| - 1]), s[|s| - 1])
  }

  /** Within a prefix that already holds `x`, the first occurrence of `x` is
      the same as in the whole sequence. */
  lemma FirstIndexPrefix<T>(s: seq<T>, n: nat, x: T)
    requires n <= |s| && x in s[..n]
    ensures FirstIndex(s, x) == FirstIndex(s[..n], x)
  {
    var i, j := FirstIndex(s, x), FirstIndex(s[..n], x);
    assert s[..n][j] == x;
    assert forall k :: 0 <= k < i ==> s[k] != x by {
      assert forall k :: 0 <= k < i ==> s[..i][k] == s[k];
    }
    assert forall k :: 0 <= k < j ==> s[k] != x by {
      assert forall k :: 0 <= k < j ==> s[..n][..j][k] == s[k];
    }
  }

  /** `Dedup` lists the elements in the order of their first occurrence, so
      together with its contract it is the only duplicate-free ordering of
      the elements of `s` with that property. */
  lemma {:induction false} DedupOrder<T>(s: seq<T>)
    ensures forall i, j :: 0 <= i < j < |Dedup(s)| ==>
              FirstIndex(s, Dedup(s)[i]) < FirstIndex(s, Dedup(s)[j])
  {
    if s != [] {
      var init, last := s[..|s| - 1], s[|s| - 1];
      DedupOrder(init);
      var d := Dedup(init);
      forall i, j | 0 <= i < j < |Dedup(s)|
        ensures FirstIndex(s, Dedup(s)[i]) < FirstIndex(s, Dedup(s)[j])
      {
        assert s[..|s| - 1] == init;
        FirstIndexPrefix(s, |s| - 1, d[i]);
        if j < |d| {
          FirstIndexPrefix(s, |s| - 1, d[j]);
        } else {
          assert Dedup(s)[j] == last && last !in init;
          assert forall k :: 0 <= k < |s| - 1 ==> s[k] != last by {
            assert forall k :: 0 <= k < |s| - 1 ==> init[k] == s[k];
          }
        }
      }
    }
  }

  /** The elements of `s[..n]` that occur there for the first time, in
      order: position `i` is kept exactly when `s[i]` is not in `s[..i]`. */
  function FirstOccurrences<T(==)>(s: seq<T>, n: nat): seq<T>
    requires n <= |s|
  {
    if n == 0 then []
    else FirstOccurrences(s, n - 1) + (if s[n - 1] in s[..n - 1] then [] else [s[n - 1]])
  }

  /** Storing the elements of a prefix one after the other gives the key
      order of its first occurrences. */
  lemma {:induction false} DedupPrefix<T>(s: seq<T>, n: nat)
    requires n <= |s|
    ensures Dedup(s[..n]) == FirstOccurrences(s, n)
  {
    if n > 0 {
      DedupPrefix(s, n - 1);
      var p := s[..n];
      assert p[..|p| - 1] == s[..n - 1] && p[|p| - 1] == s[n - 1];
      var d := Dedup(s[..n - 1]);
      assert s[n - 1] in d <==> s[n - 1] in s[..n - 1] by {
        if s[n - 1] in d {
          var i :| 0 <= i < |d| && d[i] == s[n - 1];
          assert d[i] in s[..n - 1];
        }
        if s[n - 1] in s[..n - 1] {
          var i :| 0 <= i < n - 1 && s[..n - 1][i] == s[n - 1];
          assert s[..n - 1][i] in d;
        }
      }
    }
  }

  /** The key order of a `dict` into which the elements of `s` are stored
      one after the other is the list of the elements at their first
      occurrence, in order. */
  lemma DedupFirstOccurrences<T>(s: seq<T>)
    ensures Dedup(s) == FirstOccurrences(s, |s|)
  {
    DedupPrefix(s, |s|);
    assert s[..|s|] == s;
  }

  /** Appending an element to the input extends the key order exactly as a
      `dict` store does. */
  lemma DedupSnoc<T>(s: seq<T>, x: T)
    ensures Dedup(s + [x]) == AddKey(Dedup(s), x)
  {
    assert (s + [x])[..|s + [x]| - 1] == s;
  }

  /** Number of occurrences of `c` in `s`. */
  function Occurrences(s: string, c: char): nat {
    if s == [] then 0 else (if s[0] == c then 1 else 0) + Occurrences(s[1..], c)
  }

  /** `sep.join(parts)`. */
  function Join(parts: seq<string>, sep: char): string {
    if parts == [] then ""
    else if |parts| == 1 then parts[0]
    else parts[0] + [sep] + Join(parts[1..], sep)
  }

  /** Joining three pieces puts a separator between neighbours. */
  lemma Join3(a: string, b: string, c: string, sep: char)
    ensures Join([a, b, c], sep) == a + [sep] + b + [sep] + c
  {
    assert [a, b, c][1..] == [b, c];
    assert [b, c][1..] == [c];
    assert Join([b, c], sep) == b + [sep] + c;
    assert Join([a, b, c], sep) == a + [sep] + (b + [sep] + c);
  }

  /** Python's `s.split(sep)` for a one-character separator: the pieces
      between separators, empty ones included, so there is always at least
      one piece and there is one more piece than there are separators. */
  function Split(s: string, sep: char): (r: seq<string>)
    ensures |r| == Occurrences(s, sep) + 1
    ensures forall i :: 0 <= i < |r| ==> sep !in r[i]
    ensures Join(r, sep) == s
    decreases |s|
  {
    if s == [] then [""]
    else
      var rest := Split(s[1..], sep);
      if s[0] == sep then
        assert ([""] + rest)[1..] == rest;
        [""] + rest
      else
        var r := [[s[0]] + rest[0]] + rest[1..];
        assert r[1..] == rest[1..];
        assert s == [s[0]] + s[1..];
        r
  }

  /** Splitting a joined list of separator-free pieces gives the pieces back. */
  lemma {:induction false} SplitJoin(parts: seq<string>, sep: char)
    requires |parts| >= 1
    requires forall i :: 0 <= i < |parts| ==> sep !in parts[i]
    ensures Split(Join(parts, sep), sep) == parts
    decreases |Join(parts, sep)|
  {
    var s := Join(parts, sep);
    if parts[0] == "" {
      if |parts| > 1 {
        var tail := parts[1..];
        assert s == [sep] + Join(tail, sep);
        assert s[1..] == Join(tail, sep);
        SplitJoin(tail, sep);
        assert parts == [""] + tail;
      }
    } else {
      var c, p' := parts[0][0], parts[0][1..];
      var shorter := [p'] + parts[1..];
      assert parts[0] == [c] + p';
      assert shorter[1..] == parts[1..];
      assert c != sep by { assert parts[0][0] == c; }
      assert s == [c] + Join(shorter, sep);
      assert s[1..] == Join(shorter, sep);
      forall i | 0 <= i < |shorter|
        ensures sep !in shorter[i]
      {
        if i == 0 {
          assert p' == parts[0][1..];
        } else {
          assert shorter[i] == parts[i];
        }
      }
      SplitJoin(shorter, sep);
      assert [[c] + shorter[0]] + shorter[1..] == parts;
    }
  }
}
