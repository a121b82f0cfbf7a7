/**
 The combinatorics behind the keyword automaton: strings of bytes, the longest suffix of a string
 that is spelled by a trie, and how that suffix changes when one more byte is read. Nothing here
 mentions nodes or failure links; a trie is only the list of strings its nodes spell.
 */
module TriePaths {
  newtype byte = b: int | 0 <= b < 256
  type bytes = seq<byte>

  ghost predicate IsSuffix(s: bytes, t: bytes) {
    |s| <= |t| && t[|t| - |s|..] == s
  }

  ghost predicate IsPrefix(s: bytes, t: bytes) {
    s <= t
  }

  function Init(s: bytes): bytes
    requires s != []
  {
    s[..|s| - 1]
  }

  function Last(s: bytes): byte
    requires s != []
  {
    s[|s| - 1]
  }

  /** The strings of a trie: the empty string, and with every string all its prefixes. */
  ghost predicate PrefixClosed(paths: seq<bytes>) {
    && [] in paths
    && forall s {:trigger Init(s)} :: s in paths && s != [] ==> Init(s) in paths
  }

  /** Some non-empty keyword is a suffix of s. */
  ghost predicate EndsWithKeyword(keywords: seq<bytes>, s: bytes) {
    exists k :: k in keywords && k != [] && IsSuffix(k, s)
  }

  /** k is the part of value that starts at position i. */
  ghost predicate OccursAt(k: bytes, value: bytes, i: nat) {
    i + |k| <= |value| && value[i..i + |k|] == k
  }

  /** What a keyword rule asks: some non-empty keyword is a contiguous part of value. */
  ghost predicate Occurs(keywords: seq<bytes>, value: bytes) {
    exists k, i: nat :: k in keywords && k != [] && OccursAt(k, value, i)
  }

  /** The longest suffix of s that the trie spells. */
  ghost function Longest(paths: seq<bytes>, s: bytes): (r: bytes)
    requires [] in paths
    ensures r in paths && IsSuffix(r, s) && |r| <= |s|
    ensures forall t {:trigger IsSuffix(t, s)} :: t in paths && IsSuffix(t, s) ==> |t| <= |r|
  {
    if s in paths then s else
      assert forall t {:trigger IsSuffix(t, s)} :: t in paths && IsSuffix(t, s) ==> IsSuffix(t, s[1..]);
      Longest(paths, s[1..])
  }

  lemma SuffixTransitive(a: bytes, b: bytes, c: bytes)
    requires IsSuffix(a, b) && IsSuffix(b, c)
    ensures IsSuffix(a, c)
  {
  }

  lemma SuffixesNest(a: bytes, b: bytes, c: bytes)
    requires IsSuffix(a, c) && IsSuffix(b, c) && |a| <= |b|
    ensures IsSuffix(a, b)
  {
  }

  lemma AppendToSuffix(a: bytes, s: bytes, b: byte)
    requires IsSuffix(a, s)
    ensures IsSuffix(a + [b], s + [b])
  {
  }

  lemma SuffixOfAppend(r: bytes, s: bytes, b: byte)
    requires r != [] && IsSuffix(r, s + [b])
    ensures r == Init(r) + [b] && IsSuffix(Init(r), s)
  {
  }

  /** Longest is determined by its three properties: no other string has them. */
  lemma LongestUnique(paths: seq<bytes>, s: bytes, r: bytes)
    requires [] in paths
    requires r in paths && IsSuffix(r, s)
    requires forall t {:trigger IsSuffix(t, s)} :: t in paths && IsSuffix(t, s) ==> |t| <= |r|
    ensures r == Longest(paths, s)
  {
  }

  /** Longest depends on which strings are spelled, not on the order in which they are listed. */
  lemma LongestDependsOnMembers(paths: seq<bytes>, paths': seq<bytes>, s: bytes)
    requires [] in paths && [] in paths'
    requires forall t :: t in paths <==> t in paths'
    ensures Longest(paths, s) == Longest(paths', s)
  {
  }

  /**
   Reading b after s only needs the longest spelled suffix of s: anything longer that was not
   spelled cannot become spelled, because spelled strings have spelled prefixes.
   */
  lemma LongestExtends(paths: seq<bytes>, s: bytes, b: byte)
    requires PrefixClosed(paths)
    ensures Longest(paths, s + [b]) == Longest(paths, Longest(paths, s) + [b])
  {
    var u := Longest(paths, s);
    var r := Longest(paths, s + [b]);
    AppendToSuffix(u, s, b);
    assert IsSuffix(r, u + [b]) by {
      if r != [] {
        SuffixOfAppend(r, s, b);
        SuffixesNest(Init(r), u, s);
        AppendToSuffix(Init(r), u, b);
      }
    }
    forall t | t in paths && IsSuffix(t, u + [b]) ensures |t| <= |r| {
      SuffixTransitive(t, u + [b], s + [b]);
    }
    LongestUnique(paths, u + [b], r);
  }

  /** One failure step of the automaton: from u fall back to the longest spelled proper suffix. */
  lemma LongestFallsBack(paths: seq<bytes>, u: bytes, b: byte)
    requires PrefixClosed(paths)
    requires u != [] && u + [b] !in paths
    ensures Longest(paths, u + [b]) == Longest(paths, Longest(paths, u[1..]) + [b])
  {
    assert (u + [b])[1..] == u[1..] + [b];
    LongestExtends(paths, u[1..], b);
  }

  /** At a string that reads b, or at the empty one, there is nothing to fall back to. */
  lemma LongestStops(paths: seq<bytes>, u: bytes, b: byte)
    requires [] in paths
    ensures u + [b] in paths ==> Longest(paths, u + [b]) == u + [b]
    ensures u == [] && u + [b] !in paths ==> Longest(paths, u + [b]) == []
  {
  }

  /** A keyword that the trie spells ends s exactly when it ends the longest spelled suffix of s. */
  lemma KeywordEndsLongest(keywords: seq<bytes>, paths: seq<bytes>, s: bytes)
    requires [] in paths
    requires forall k :: k in keywords ==> k in paths
    ensures EndsWithKeyword(keywords, s) <==> EndsWithKeyword(keywords, Longest(paths, s))
  {
  }

  /** The keywords ending s are s itself and those ending s without its first byte. */
  lemma KeywordEndsTail(keywords: seq<bytes>, s: bytes)
    requires s != []
    ensures EndsWithKeyword(keywords, s) <==> s in keywords || EndsWithKeyword(keywords, s[1..])
  {
  }

  /** A keyword occurs in value exactly when some prefix of value ends with a keyword. */
  lemma OccursByPrefix(keywords: seq<bytes>, value: bytes)
    ensures Occurs(keywords, value) <==>
            exists i :: 0 <= i <= |value| && EndsWithKeyword(keywords, value[..i])
  {
    if Occurs(keywords, value) {
      var k, i: nat :| k in keywords && k != [] && OccursAt(k, value, i);
      assert IsSuffix(k, value[..i + |k|]);
    }
    if j :| 0 <= j <= |value| && EndsWithKeyword(keywords, value[..j]) {
      var k :| k in keywords && k != [] && IsSuffix(k, value[..j]);
      assert OccursAt(k, value, j - |k|);
    }
  }
}
