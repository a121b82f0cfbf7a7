/**
 The keyword matcher of internal/rules/aho_matcher.go: a byte trie in a growing list of nodes,
 failure links and terminal flags set in place by a breadth-first pass, and a one-pass scan.
 */
module AhoMatcher {
  import opened TriePaths

  datatype AhoNode = AhoNode(next: map<byte, nat>, fail: nat, terminal: bool)

  // ----- What the list of nodes means; paths[n] is the string spelled on the way to node n -----

  /** The nodes form the trie whose n-th node spells paths[n]. */
  ghost predicate IsTrie(nodes: seq<AhoNode>, paths: seq<bytes>) {
    && |nodes| == |paths| > 0
    && paths[0] == []
    && PrefixClosed(paths)
    && (forall i, j :: 0 <= i < j < |paths| ==> paths[i] != paths[j])
    && (forall n, b {:trigger b in nodes[n].next} {:trigger nodes[n].next[b]} ::
          0 <= n < |nodes| && b in nodes[n].next ==>
          nodes[n].next[b] < |nodes| && paths[nodes[n].next[b]] == paths[n] + [b])
    && (forall n, b {:trigger b in nodes[n].next} :: 0 <= n < |nodes| && paths[n] + [b] in paths ==> b in nodes[n].next)
  }

  /** The trie spells the prefixes of the keywords, and nothing else but the empty string. */
  ghost predicate SpellsPrefixes(paths: seq<bytes>, keywords: seq<bytes>) {
    forall s :: s in paths <==> s == [] || exists k :: k in keywords && IsPrefix(s, k)
  }

  /** Before the failure pass: links are unset and exactly the non-empty keywords are marked. */
  ghost predicate IsFresh(node: AhoNode, path: bytes, keywords: seq<bytes>) {
    && node.fail == 0
    && (node.terminal <==> path != [] && path in keywords)
  }

  ghost predicate AllFresh(nodes: seq<AhoNode>, paths: seq<bytes>, keywords: seq<bytes>) {
    |nodes| == |paths| && forall n :: 0 <= n < |nodes| ==> IsFresh(nodes[n], paths[n], keywords)
  }

  /** The link of node n leads to the longest proper suffix of its path that the trie spells. */
  ghost predicate FailRight(nodes: seq<AhoNode>, paths: seq<bytes>, n: nat)
    requires |nodes| == |paths| && n < |nodes| && [] in paths
  {
    paths[n] != [] ==> nodes[n].fail < |nodes| && paths[nodes[n].fail] == Longest(paths, paths[n][1..])
  }

  /** Node n is terminal exactly when some non-empty keyword is a suffix of its path. */
  ghost predicate TerminalRight(nodes: seq<AhoNode>, paths: seq<bytes>, keywords: seq<bytes>, n: nat)
    requires |nodes| == |paths| && n < |nodes|
  {
    nodes[n].terminal <==> EndsWithKeyword(keywords, paths[n])
  }

  ghost predicate NodeRight(nodes: seq<AhoNode>, paths: seq<bytes>, keywords: seq<bytes>, n: nat)
    requires |nodes| == |paths| && n < |nodes| && [] in paths
  {
    FailRight(nodes, paths, n) && TerminalRight(nodes, paths, keywords, n)
  }

  /** After the failure pass every node is right. */
  ghost predicate IsAutomaton(nodes: seq<AhoNode>, paths: seq<bytes>, keywords: seq<bytes>) {
    && IsTrie(nodes, paths)
    && SpellsPrefixes(paths, keywords)
    && forall n {:trigger NodeRight(nodes, paths, keywords, n)} ::
         0 <= n < |nodes| ==> NodeRight(nodes, paths, keywords, n)
  }

  /**
   The automaton is determined by the set of non-empty keywords alone: whatever the order of the
   keywords and of the map iterations, and however the nodes are numbered, two nodes that spell the
   same string have the same outgoing bytes, the same terminal flag, and links and children that
   spell the same strings.
   */
  lemma AutomatonUnique(nodes: seq<AhoNode>, paths: seq<bytes>, keywords: seq<bytes>, n: nat,
                        nodes': seq<AhoNode>, paths': seq<bytes>, keywords': seq<bytes>, n': nat)
    requires IsAutomaton(nodes, paths, keywords) && IsAutomaton(nodes', paths', keywords')
    requires forall k :: k != [] ==> (k in keywords <==> k in keywords')
    requires n < |nodes| && n' < |nodes'| && paths[n] == paths'[n']
    ensures nodes[n].next.Keys == nodes'[n'].next.Keys
    ensures nodes[n].terminal == nodes'[n'].terminal
    ensures paths[n] != [] ==>
              && nodes[n].fail < |nodes| && nodes'[n'].fail < |nodes'|
              && paths[nodes[n].fail] == paths'[nodes'[n'].fail]
    ensures forall b :: b in nodes[n].next && b in nodes'[n'].next ==>
              && nodes[n].next[b] < |nodes| && nodes'[n'].next[b] < |nodes'|
              && paths[nodes[n].next[b]] == paths'[nodes'[n'].next[b]]
  {
    SameStrings(paths, keywords, paths', keywords');
    SameChildren(nodes, paths, n, nodes', paths', n');
    assert NodeRight(nodes, paths, keywords, n) && NodeRight(nodes', paths', keywords', n');
    if paths[n] != [] {
      LongestDependsOnMembers(paths, paths', paths[n][1..]);
    }
    SameEndings(keywords, keywords', paths[n]);
    SameEndings(keywords', keywords, paths[n]);
  }

  lemma SameChildren(nodes: seq<AhoNode>, paths: seq<bytes>, n: nat,
                     nodes': seq<AhoNode>, paths': seq<bytes>, n': nat)
    requires IsTrie(nodes, paths) && IsTrie(nodes', paths')
    requires forall s :: s in paths <==> s in paths'
    requires n < |nodes| && n' < |nodes'| && paths[n] == paths'[n']
    ensures nodes[n].next.Keys == nodes'[n'].next.Keys
    ensures forall b :: b in nodes[n].next && b in nodes'[n'].next ==>
              && nodes[n].next[b] < |nodes| && nodes'[n'].next[b] < |nodes'|
              && paths[nodes[n].next[b]] == paths'[nodes'[n'].next[b]]
  {
  }

  lemma SameEndings(keywords: seq<bytes>, keywords': seq<bytes>, s: bytes)
    requires forall k :: k != [] ==> (k in keywords <==> k in keywords')
    ensures EndsWithKeyword(keywords, s) ==> EndsWithKeyword(keywords', s)
  {
  }

  /** Keyword lists with the same non-empty keywords give tries that spell the same strings. */
  lemma SameStrings(paths: seq<bytes>, keywords: seq<bytes>, paths': seq<bytes>, keywords': seq<bytes>)
    requires SpellsPrefixes(paths, keywords) && SpellsPrefixes(paths', keywords')
    requires forall k :: k != [] ==> (k in keywords <==> k in keywords')
    ensures forall s :: s in paths <==> s in paths'
  {
  }

  /** Following a failure link always moves to a strictly shorter path. */
  lemma FailIsShorter(nodes: seq<AhoNode>, paths: seq<bytes>, keywords: seq<bytes>, n: nat)
    requires IsAutomaton(nodes, paths, keywords)
    requires 0 < n < |nodes|
    ensures nodes[n].fail < |nodes| && |paths[nodes[n].fail]| < |paths[n]|
  {
    assert paths[n] != [];
    assert NodeRight(nodes, paths, keywords, n);
  }

  // ----- Growing the trie: the loops of newAhoMatcher -----

  lemma EmptyKeywordAddsNothing(paths: seq<bytes>, keywords: seq<bytes>)
    requires SpellsPrefixes(paths, keywords)
    ensures SpellsPrefixes(paths, keywords + [[]])
  {
  }

  function WithChild(nodes: seq<AhoNode>, n: nat, b: byte): (r: seq<AhoNode>)
    requires n < |nodes|
  {
    (nodes + [AhoNode(map[], 0, false)])[n := nodes[n].(next := nodes[n].next[b := |nodes|])]
  }

  /** Adding a missing child keeps a trie a trie. */
  lemma WithChildIsTrie(nodes: seq<AhoNode>, paths: seq<bytes>, n: nat, b: byte)
    requires IsTrie(nodes, paths)
    requires n < |nodes| && b !in nodes[n].next
    ensures IsTrie(WithChild(nodes, n, b), paths + [paths[n] + [b]])
  {
    var nodes', paths' := WithChild(nodes, n, b), paths + [paths[n] + [b]];
    var p := paths[n] + [b];
    assert p !in paths;
    assert Init(p) == paths[n];
    assert PrefixClosed(paths') by {
      forall s | s in paths' && s != [] ensures Init(s) in paths' {
        if s in paths { assert Init(s) in paths; }
      }
    }
    forall m, c | 0 <= m < |nodes'| && paths'[m] + [c] in paths' ensures c in nodes'[m].next {
      var s := paths'[m] + [c];
      assert Init(s) == paths'[m] && Last(s) == c;
      if s in paths {
        assert Init(s) in paths;
        assert m < |nodes|;
      } else {
        assert s == p;
        assert paths'[m] == Init(p) == paths[n];
        assert m == n && c == Last(p) == b;
      }
    }
  }

  // ----- One step of the automaton -----

  /**
   What reading b at a node tells, for any node whose link is right: the child spells the longest
   suffix that can follow; without a child the root loses everything, and any other node can hand
   the question to its link, which spells less.
   */
  lemma ReadByte(nodes: seq<AhoNode>, paths: seq<bytes>, n: nat, b: byte)
    requires IsTrie(nodes, paths) && n < |nodes| && FailRight(nodes, paths, n)
    ensures b in nodes[n].next ==>
              && nodes[n].next[b] < |nodes|
              && paths[nodes[n].next[b]] == Longest(paths, paths[n] + [b])
              && |paths[nodes[n].next[b]]| == |paths[n]| + 1
    ensures b !in nodes[n].next && n == 0 ==> paths[0] == Longest(paths, paths[n] + [b])
    ensures b !in nodes[n].next && n != 0 ==>
              && nodes[n].fail < |nodes| && |paths[nodes[n].fail]| < |paths[n]|
              && Longest(paths, paths[nodes[n].fail] + [b]) == Longest(paths, paths[n] + [b])
  {
    LongestStops(paths, paths[n], b);
    if b in nodes[n].next {
      assert paths[nodes[n].next[b]] == paths[n] + [b];
    } else if n != 0 {
      assert paths[n] != paths[0];
      LongestFallsBack(paths, paths[n], b);
    }
  }

  lemma NoKeywordEndsEmpty(keywords: seq<bytes>)
    ensures !EndsWithKeyword(keywords, [])
  {
  }

  /** Where the scan stands after reading i bytes of value. */
  ghost predicate ScanAt(paths: seq<bytes>, value: bytes, i: nat, state: nat) {
    i <= |value| && state < |paths| && [] in paths && paths[state] == Longest(paths, value[..i])
  }

  lemma ScanStarts(paths: seq<bytes>, value: bytes)
    requires |paths| > 0 && paths[0] == []
    ensures ScanAt(paths, value, 0, 0)
  {
  }

  lemma ScanReads(nodes: seq<AhoNode>, paths: seq<bytes>, value: bytes, i: nat, state: nat, state': nat)
    requires IsTrie(nodes, paths) && ScanAt(paths, value, i, state) && i < |value|
    requires state' < |paths| && paths[state'] == Longest(paths, paths[state] + [value[i]])
    ensures ScanAt(paths, value, i + 1, state')
  {
    hide Longest, IsSuffix;
    assert value[..i + 1] == value[..i] + [value[i]];
    LongestExtends(paths, value[..i], value[i]);
  }

  /** The flag of the state tells whether a keyword ends where the scan stands. */
  lemma ScanTells(nodes: seq<AhoNode>, paths: seq<bytes>, keywords: seq<bytes>, value: bytes, i: nat, state: nat)
    requires IsAutomaton(nodes, paths, keywords) && ScanAt(paths, value, i, state)
    ensures state < |nodes| && (nodes[state].terminal <==> EndsWithKeyword(keywords, value[..i]))
  {
    hide Longest, IsSuffix, EndsWithKeyword;
    forall k | k in keywords ensures k in paths {
      assert IsPrefix(k, k);
    }
    KeywordEndsLongest(keywords, paths, value[..i]);
    assert NodeRight(nodes, paths, keywords, state);
  }

  // ----- The breadth-first pass -----

  /** With its link set, a node that inherits the flag of its link is right. */
  lemma FlagFromLink(nodes: seq<AhoNode>, paths: seq<bytes>, keywords: seq<bytes>, n: nat, link: nat)
    requires IsTrie(nodes, paths) && SpellsPrefixes(paths, keywords)
    requires n < |nodes| && paths[n] != [] && IsFresh(nodes[n], paths[n], keywords)
    requires link < |nodes| && paths[link] == Longest(paths, paths[n][1..])
    requires TerminalRight(nodes, paths, keywords, link)
    ensures nodes[n].terminal || nodes[link].terminal <==> EndsWithKeyword(keywords, paths[n])
  {
    forall k | k in keywords ensures k in paths {
      assert IsPrefix(k, k);
    }
    KeywordEndsTail(keywords, paths[n]);
    KeywordEndsLongest(keywords, paths, paths[n][1..]);
  }

  function Linked(nodes: seq<AhoNode>, n: nat, link: nat): AhoNode
    requires n < |nodes| && link < |nodes|
  {
    AhoNode(nodes[n].next, link, nodes[n].terminal || nodes[link].terminal)
  }

  lemma LinkedIsRight(nodes: seq<AhoNode>, paths: seq<bytes>, keywords: seq<bytes>, n: nat, link: nat)
    requires IsTrie(nodes, paths) && SpellsPrefixes(paths, keywords)
    requires n < |nodes| && paths[n] != [] && IsFresh(nodes[n], paths[n], keywords)
    requires link < |nodes| && paths[link] == Longest(paths, paths[n][1..])
    requires TerminalRight(nodes, paths, keywords, link)
    ensures link != n
    ensures IsTrie(nodes[n := Linked(nodes, n, link)], paths)
    ensures NodeRight(nodes[n := Linked(nodes, n, link)], paths, keywords, n)
  {
    hide Longest, IsSuffix, EndsWithKeyword, SpellsPrefixes;
    FlagFromLink(nodes, paths, keywords, n, link);
    SameNextSameTrie(nodes, nodes[n := Linked(nodes, n, link)], paths);
  }

  /**
   Where the pass stands. The queue lists, without repetition and in the order of their depth, the
   nodes whose parent has been handled. Handled are the paths in done, and of the node that
   spells half the children for the bytes in bytesDone.
   */
  ghost predicate IsFrontier(paths: seq<bytes>, queue: seq<nat>, done: set<bytes>, half: bytes, bytesDone: set<byte>) {
    && (forall i :: 0 <= i < |queue| ==> queue[i] < |paths|)
    && (forall i, j :: 0 <= i < j < |queue| ==>
          queue[i] != queue[j] && |paths[queue[i]]| <= |paths[queue[j]]|)
    && (forall n :: 0 <= n < |paths| ==>
          (n in queue <==> paths[n] != [] && ParentHandled(paths[n], done, half, bytesDone)))
  }

  ghost predicate ParentHandled(path: bytes, done: set<bytes>, half: bytes, bytesDone: set<byte>)
    requires path != []
  {
    Init(path) in done || (Init(path) == half && Last(path) in bytesDone)
  }

  /** Handled are the root and the queue before head. */
  ghost predicate DoneBefore(paths: seq<bytes>, queue: seq<nat>, head: nat, done: set<bytes>)
    requires head <= |queue| && forall i :: 0 <= i < |queue| ==> queue[i] < |paths|
  {
    && [] in done
    && (forall i :: 0 <= i < head ==> paths[queue[i]] in done)
    && (forall i :: head <= i < |queue| ==> paths[queue[i]] !in done)
    && (forall s, i :: s in done && head <= i < |queue| ==> |s| <= |paths[queue[i]]|)
  }

  /** Queueing one more child of the half-handled node. */
  lemma FrontierGrows(paths: seq<bytes>, queue: seq<nat>, done: set<bytes>, half: bytes, bytesDone: set<byte>,
                      child: nat, b: byte)
    requires forall i, j :: 0 <= i < j < |paths| ==> paths[i] != paths[j]
    requires IsFrontier(paths, queue, done, half, bytesDone)
    requires child < |paths| && paths[child] == half + [b]
    requires half !in done && b !in bytesDone
    requires forall i :: 0 <= i < |queue| ==> |paths[queue[i]]| <= |half| + 1
    ensures IsFrontier(paths, queue + [child], done, half, bytesDone + {b})
  {
    assert Init(paths[child]) == half && Last(paths[child]) == b;
    assert child !in queue;
    forall n | 0 <= n < |paths| && paths[n] != []
      ensures n in queue + [child] <==> ParentHandled(paths[n], done, half, bytesDone + {b})
    {
      if Init(paths[n]) == half && Last(paths[n]) == b {
        assert paths[n] == half + [b];
        assert n == child;
      }
    }
  }

  /** Once all its children are queued, a node is handled. */
  lemma FrontierCloses(nodes: seq<AhoNode>, paths: seq<bytes>, queue: seq<nat>, done: set<bytes>, n: nat)
    requires IsTrie(nodes, paths) && n < |nodes|
    requires IsFrontier(paths, queue, done, paths[n], nodes[n].next.Keys)
    ensures IsFrontier(paths, queue, done + {paths[n]}, [], {})
  {
    forall m | 0 <= m < |paths| && paths[m] != []
      ensures m in queue <==> ParentHandled(paths[m], done + {paths[n]}, [], {})
    {
      if Init(paths[m]) == paths[n] {
        assert paths[m] == paths[n] + [Last(paths[m])];
      }
    }
  }

  /** The nodes during the pass: the queued ones are finished, the others untouched. */
  ghost predicate Progress(nodes: seq<AhoNode>, paths: seq<bytes>, keywords: seq<bytes>, queue: seq<nat>) {
    && IsTrie(nodes, paths) && SpellsPrefixes(paths, keywords)
    && (forall n {:trigger NodeRight(nodes, paths, keywords, n)} ::
          0 <= n < |nodes| && n in queue ==> NodeRight(nodes, paths, keywords, n))
    && (forall n :: 0 <= n < |nodes| && n !in queue ==> IsFresh(nodes[n], paths[n], keywords))
  }

  /** Changing one node leaves the others as right as they were. */
  lemma OthersStayRight(nodes: seq<AhoNode>, nodes': seq<AhoNode>, paths: seq<bytes>, keywords: seq<bytes>,
                        child: nat, n: nat)
    requires [] in paths && child < |nodes| == |paths| && |nodes'| == |nodes|
    requires nodes' == nodes[child := nodes'[child]]
    requires n < |nodes| && n != child && NodeRight(nodes, paths, keywords, n)
    ensures NodeRight(nodes', paths, keywords, n)
  {
  }

  /** Finishing one node and queueing it. */
  lemma ProgressGrows(nodes: seq<AhoNode>, nodes': seq<AhoNode>, paths: seq<bytes>, keywords: seq<bytes>,
                      queue: seq<nat>, child: nat)
    requires Progress(nodes, paths, keywords, queue)
    requires child < |nodes| == |nodes'|
    requires nodes' == nodes[child := nodes'[child]] && nodes'[child].next == nodes[child].next
    requires NodeRight(nodes', paths, keywords, child)
    ensures Progress(nodes', paths, keywords, queue + [child])
  {
    SameNextSameTrie(nodes, nodes', paths);
    hide NodeRight;
    forall n | 0 <= n < |nodes| && n in queue + [child] ensures NodeRight(nodes', paths, keywords, n) {
      if n != child {
        OthersStayRight(nodes, nodes', paths, keywords, child, n);
      }
    }
  }

  /** The pass between two turns of its outer loop. */
  ghost predicate AtNode(nodes: seq<AhoNode>, paths: seq<bytes>, keywords: seq<bytes>,
                         queue: seq<nat>, head: nat, done: set<bytes>) {
    && Progress(nodes, paths, keywords, queue)
    && IsFrontier(paths, queue, done, [], {})
    && head <= |queue| && DoneBefore(paths, queue, head, done)
  }

  /** The queue while the children of the node at the head are queued, those for bytesDone so far. */
  ghost predicate HeadHalfDone(paths: seq<bytes>, queue: seq<nat>, head: nat, done: set<bytes>, bytesDone: set<byte>) {
    && head < |queue| && queue[head] < |paths|
    && IsFrontier(paths, queue, done, paths[queue[head]], bytesDone)
    && DoneBefore(paths, queue, head, done)
    && paths[queue[head]] != []
    && forall i :: 0 <= i < |queue| ==> |paths[queue[i]]| <= |paths[queue[head]]| + 1
  }

  ghost predicate ShallowRight(nodes: seq<AhoNode>, paths: seq<bytes>, keywords: seq<bytes>, depth: nat) {
    && |nodes| == |paths| && [] in paths
    && forall n {:trigger NodeRight(nodes, paths, keywords, n)} ::
         0 <= n < |nodes| && |paths[n]| <= depth ==> NodeRight(nodes, paths, keywords, n)
  }

  /** The pass while it queues the children of the node at the head. */
  ghost predicate AtChild(nodes: seq<AhoNode>, paths: seq<bytes>, keywords: seq<bytes>,
                          queue: seq<nat>, head: nat, done: set<bytes>, bytesDone: set<byte>) {
    && Progress(nodes, paths, keywords, queue)
    && HeadHalfDone(paths, queue, head, done, bytesDone)
    && ShallowRight(nodes, paths, keywords, |paths[queue[head]]|)
  }

  lemma HeadStepsOn(paths: seq<bytes>, queue: seq<nat>, head: nat, done: set<bytes>, bytesDone: set<byte>,
                    child: nat, b: byte)
    requires forall i, j :: 0 <= i < j < |paths| ==> paths[i] != paths[j]
    requires HeadHalfDone(paths, queue, head, done, bytesDone) && b !in bytesDone
    requires child < |paths| && paths[child] == paths[queue[head]] + [b]
    ensures HeadHalfDone(paths, queue + [child], head, done, bytesDone + {b})
  {
    hide ParentHandled;
    FrontierGrows(paths, queue, done, paths[queue[head]], bytesDone, child, b);
  }

  lemma ShallowStaysRight(nodes: seq<AhoNode>, nodes': seq<AhoNode>, paths: seq<bytes>, keywords: seq<bytes>,
                          depth: nat, child: nat)
    requires ShallowRight(nodes, paths, keywords, depth)
    requires child < |nodes| == |nodes'| && |paths[child]| > depth
    requires nodes' == nodes[child := nodes'[child]]
    ensures ShallowRight(nodes', paths, keywords, depth)
  {
    forall n | 0 <= n < |nodes| && |paths[n]| <= depth ensures NodeRight(nodes', paths, keywords, n) {
      OthersStayRight(nodes, nodes', paths, keywords, child, n);
    }
  }

  /** When the pass comes to a node, every node that is no deeper is finished. */
  lemma ChildLoopStarts(nodes: seq<AhoNode>, paths: seq<bytes>, keywords: seq<bytes>,
                        queue: seq<nat>, head: nat, done: set<bytes>)
    requires AtNode(nodes, paths, keywords, queue, head, done) && head < |queue|
    ensures AtChild(nodes, paths, keywords, queue, head, done, {})
    ensures queue[head] < |nodes| == |paths| && paths[queue[head]] != []
  {
    var current := queue[head];
    forall n | 0 <= n < |nodes| && |paths[n]| <= |paths[current]|
      ensures NodeRight(nodes, paths, keywords, n)
    {
      if paths[n] != [] {
        NoDeeperIsQueued(paths, queue, head, done, n);
      } else {
        assert IsFresh(nodes[n], paths[n], keywords);
      }
    }
    forall i | 0 <= i < |queue| ensures |paths[queue[i]]| <= |paths[current]| + 1 {
      var path := paths[queue[i]];
      assert Init(path) in done;
      assert |Init(path)| <= |paths[queue[head]]|;
    }
    assert IsFrontier(paths, queue, done, paths[current], {}) by {
      forall n | 0 <= n < |paths| && paths[n] != []
        ensures ParentHandled(paths[n], done, [], {}) <==> ParentHandled(paths[n], done, paths[current], {})
      {
      }
    }
  }

  /** The child that is about to be linked has not been touched. */
  lemma ChildIsFresh(nodes: seq<AhoNode>, paths: seq<bytes>, keywords: seq<bytes>,
                     queue: seq<nat>, head: nat, done: set<bytes>, bytesDone: set<byte>, b: byte)
    requires AtChild(nodes, paths, keywords, queue, head, done, bytesDone)
    requires queue[head] < |nodes| && b in nodes[queue[head]].next && b !in bytesDone
    ensures var child := nodes[queue[head]].next[b];
            child < |nodes| && child !in queue && IsFresh(nodes[child], paths[child], keywords)
  {
    var child := nodes[queue[head]].next[b];
    assert paths[child] == paths[queue[head]] + [b];
    assert Init(paths[child]) == paths[queue[head]] && Last(paths[child]) == b;
  }

  lemma ChildLoopSteps(nodes: seq<AhoNode>, nodes': seq<AhoNode>, paths: seq<bytes>, keywords: seq<bytes>,
                       queue: seq<nat>, head: nat, done: set<bytes>, bytesDone: set<byte>, b: byte, child: nat)
    requires AtChild(nodes, paths, keywords, queue, head, done, bytesDone)
    requires queue[head] < |nodes| && b in nodes[queue[head]].next && b !in bytesDone
    requires child == nodes[queue[head]].next[b]
    requires child < |nodes| == |nodes'|
    requires nodes' == nodes[child := nodes'[child]] && nodes'[child].next == nodes[child].next
    requires NodeRight(nodes', paths, keywords, child)
    ensures AtChild(nodes', paths, keywords, queue + [child], head, done, bytesDone + {b})
  {
    assert head < |queue| && paths[child] == paths[queue[head]] + [b];
    hide NodeRight, IsFresh, SpellsPrefixes, HeadHalfDone, ShallowRight;
    HeadStepsOn(paths, queue, head, done, bytesDone, child, b);
    ProgressGrows(nodes, nodes', paths, keywords, queue, child);
    ShallowStaysRight(nodes, nodes', paths, keywords, |paths[queue[head]]|, child);
  }

  /** The queue while the children of the root are queued. */
  ghost predicate RootHalfDone(paths: seq<bytes>, queue: seq<nat>, bytesDone: set<byte>) {
    && IsFrontier(paths, queue, {}, [], bytesDone)
    && forall i :: 0 <= i < |queue| ==> |paths[queue[i]]| == 1
  }

  lemma RootLoopStarts(paths: seq<bytes>)
    ensures RootHalfDone(paths, [], {})
  {
  }

  lemma RootLoopSteps(nodes: seq<AhoNode>, paths: seq<bytes>, queue: seq<nat>, bytesDone: set<byte>, b: byte)
    requires IsTrie(nodes, paths) && RootHalfDone(paths, queue, bytesDone)
    requires b in nodes[0].next && b !in bytesDone
    ensures RootHalfDone(paths, queue + [nodes[0].next[b]], bytesDone + {b})
  {
    assert paths[nodes[0].next[b]] == [] + [b];
    FrontierGrows(paths, queue, {}, [], bytesDone, nodes[0].next[b], b);
  }

  lemma RootLoopEnds(nodes: seq<AhoNode>, paths: seq<bytes>, keywords: seq<bytes>, queue: seq<nat>)
    requires IsTrie(nodes, paths) && SpellsPrefixes(paths, keywords) && AllFresh(nodes, paths, keywords)
    requires RootHalfDone(paths, queue, nodes[0].next.Keys)
    ensures AtNode(nodes, paths, keywords, queue, 0, {[]})
  {
    FrontierCloses(nodes, paths, queue, {}, 0);
    assert {} + {paths[0]} == {[]};
    forall n | 0 <= n < |nodes| && n in queue ensures NodeRight(nodes, paths, keywords, n) {
      assert paths[n][1..] == [];
      assert IsFresh(nodes[0], paths[0], keywords) && IsFresh(nodes[n], paths[n], keywords);
      FlagFromLink(nodes, paths, keywords, n, 0);
    }
  }

  lemma ChildLoopEnds(nodes: seq<AhoNode>, paths: seq<bytes>, keywords: seq<bytes>,
                      queue: seq<nat>, head: nat, done: set<bytes>)
    requires head < |queue| && queue[head] < |nodes|
    requires AtChild(nodes, paths, keywords, queue, head, done, nodes[queue[head]].next.Keys)
    ensures AtNode(nodes, paths, keywords, queue, head + 1, done + {paths[queue[head]]})
  {
    FrontierCloses(nodes, paths, queue, done, queue[head]);
  }

  /** Links and flags are not part of the trie. */
  lemma SameNextSameTrie(nodes: seq<AhoNode>, nodes': seq<AhoNode>, paths: seq<bytes>)
    requires IsTrie(nodes, paths)
    requires |nodes'| == |nodes| && forall n :: 0 <= n < |nodes| ==> nodes'[n].next == nodes[n].next
    ensures IsTrie(nodes', paths)
  {
  }

  /** Every node that is no deeper than the one at the head has been queued. */
  lemma {:induction false} NoDeeperIsQueued(paths: seq<bytes>, queue: seq<nat>, head: nat, done: set<bytes>, n: nat)
    requires PrefixClosed(paths)
    requires IsFrontier(paths, queue, done, [], {})
    requires head < |queue| && DoneBefore(paths, queue, head, done)
    requires n < |paths| && paths[n] != [] && |paths[n]| <= |paths[queue[head]]|
    ensures n in queue
    decreases |paths[n]|
  {
    var s := Init(paths[n]);
    if s != [] {
      assert s in paths;
      var p :| 0 <= p < |paths| && paths[p] == s;
      NoDeeperIsQueued(paths, queue, head, done, p);
      var j :| 0 <= j < |queue| && queue[j] == p;
      assert j < head;
    }
  }

  /** The pass ends only when every node but the root has been queued. */
  lemma {:induction false} AllQueuedAtEnd(paths: seq<bytes>, queue: seq<nat>, done: set<bytes>, n: nat)
    requires PrefixClosed(paths)
    requires IsFrontier(paths, queue, done, [], {})
    requires DoneBefore(paths, queue, |queue|, done)
    requires n < |paths| && paths[n] != []
    ensures n in queue
    decreases |paths[n]|
  {
    var s := Init(paths[n]);
    if s != [] {
      assert s in paths;
      var p :| 0 <= p < |paths| && paths[p] == s;
      AllQueuedAtEnd(paths, queue, done, p);
    }
  }

  class Matcher {
    var nodes: seq<AhoNode>
    ghost var paths: seq<bytes>
    ghost var keywords: seq<bytes>

    ghost predicate Valid()
      reads this
    {
      IsAutomaton(nodes, paths, keywords)
    }

    /** newAhoMatcher */
    constructor (keywords: seq<bytes>)
      ensures Valid() && this.keywords == keywords
    {
      nodes := [AhoNode(map[], 0, false)];
      paths := [[]];
      this.keywords := keywords;
      new;
      assert keywords[..0] == [];
      for i := 0 to |keywords|
        invariant this.keywords == keywords
        invariant IsTrie(nodes, paths) && SpellsPrefixes(paths, keywords[..i])
        invariant AllFresh(nodes, paths, keywords[..i])
      {
        assert keywords[..i + 1] == keywords[..i] + [keywords[i]];
        if keywords[i] == [] {
          EmptyKeywordAddsNothing(paths, keywords[..i]);
          continue;
        }
        Insert(keywords[i], keywords[..i]);
      }
      assert keywords[..|keywords|] == keywords;
      BuildFailures();
    }

    /** The body of the keyword loop of newAhoMatcher: walk down, adding the nodes that are missing. */
    method Insert(keyword: bytes, ghost before: seq<bytes>)
      requires keyword != []
      requires IsTrie(nodes, paths) && SpellsPrefixes(paths, before)
      requires AllFresh(nodes, paths, before)
      modifies this`nodes, this`paths
      ensures IsTrie(nodes, paths) && SpellsPrefixes(paths, before + [keyword])
      ensures AllFresh(nodes, paths, before + [keyword])
    {
      ghost var paths0 := paths;
      var node: nat := 0;
      for i := 0 to |keyword|
        invariant IsTrie(nodes, paths)
        invariant node < |nodes| && paths[node] == keyword[..i]
        invariant forall s :: s in paths <==> s in paths0 || IsPrefix(s, keyword[..i])
        invariant AllFresh(nodes, paths, before)
      {
        var b := keyword[i];
        assert keyword[..i + 1] == keyword[..i] + [b];
        assert forall s :: IsPrefix(s, keyword[..i + 1]) <==> IsPrefix(s, keyword[..i]) || s == keyword[..i + 1];
        if b !in nodes[node].next {
          WithChildIsTrie(nodes, paths, node, b);
          assert keyword[..i + 1] !in before;
          var next := |nodes|;
          nodes := nodes + [AhoNode(map[], 0, false)];
          nodes := nodes[node := nodes[node].(next := nodes[node].next[b := next])];
          paths := paths + [keyword[..i + 1]];
        }
        node := nodes[node].next[b];
      }
      assert keyword[..|keyword|] == keyword;
      nodes := nodes[node := nodes[node].(terminal := true)];
      assert SpellsPrefixes(paths, before + [keyword]) by {
        forall s ensures s in paths <==> s == [] || exists k :: k in before + [keyword] && IsPrefix(s, k) {
          if s in paths0 && s != [] {
            var k :| k in before && IsPrefix(s, k);
            assert k in before + [keyword];
          }
          if IsPrefix(s, keyword) { assert keyword in before + [keyword]; }
        }
      }
    }

    /** First loop of buildFailures: the children of the root, in any order. */
    method QueueRootChildren() returns (queue: seq<nat>)
      requires IsTrie(nodes, paths) && SpellsPrefixes(paths, keywords)
      requires AllFresh(nodes, paths, keywords)
      modifies this`nodes
      ensures AtNode(nodes, paths, keywords, queue, 0, {[]})
      ensures nodes == old(nodes)
    {
      hide SpellsPrefixes, PrefixClosed, ParentHandled, IsFrontier;
      queue := [];
      assert RootHalfDone(paths, queue, {}) by { RootLoopStarts(paths); }
      ghost var keys := nodes[0].next.Keys;
      var remaining := nodes[0].next.Keys;
      assert keys - remaining == {};
      while remaining != {}
        invariant nodes == old(nodes)
        invariant remaining <= keys && RootHalfDone(paths, queue, keys - remaining)
      {
        var b :| b in remaining;
        var child := nodes[0].next[b];
        RootLoopSteps(nodes, paths, queue, keys - remaining, b);
        assert IsFresh(nodes[child], paths[child], keywords);
        nodes := nodes[child := nodes[child].(fail := 0)];
        queue := queue + [child];
        assert keys - (remaining - {b}) == keys - remaining + {b};
        remaining := remaining - {b};
      }
      assert keys - remaining == keys;
      RootLoopEnds(nodes, paths, keywords, queue);
    }

    /** One turn of the outer loop of buildFailures: link and queue the children of the head. */
    method LinkChildren(queue0: seq<nat>, head: nat, ghost done: set<bytes>) returns (queue: seq<nat>)
      requires AtNode(nodes, paths, keywords, queue0, head, done) && head < |queue0|
      modifies this`nodes
      ensures queue0 <= queue
      ensures AtNode(nodes, paths, keywords, queue, head + 1, done + {paths[queue0[head]]})
      ensures |nodes| == |old(nodes)|
      ensures forall n :: 0 <= n < |nodes| ==> nodes[n].next == old(nodes[n].next)
    {
      hide IsTrie, IsFrontier, DoneBefore, SpellsPrefixes, PrefixClosed, IsFresh, NodeRight, ShallowRight;
      queue := queue0;
      ChildLoopStarts(nodes, paths, keywords, queue, head, done);
      var current := queue[head];
      ghost var keys := nodes[current].next.Keys;
      var remaining := nodes[current].next.Keys;
      assert keys - remaining == {};
      while remaining != {}
        invariant remaining <= keys && queue0 <= queue
        invariant AtChild(nodes, paths, keywords, queue, head, done, keys - remaining)
        invariant |nodes| == |old(nodes)|
        invariant forall n :: 0 <= n < |nodes| ==> nodes[n].next == old(nodes[n].next)
      {
        var b :| b in remaining;
        var child := nodes[current].next[b];
        ghost var before := nodes;
        ChildIsFresh(nodes, paths, keywords, queue, head, done, keys - remaining, b);
        LinkChild(current, b, child);
        ChildLoopSteps(before, nodes, paths, keywords, queue, head, done, keys - remaining, b, child);
        queue := queue + [child];
        assert keys - (remaining - {b}) == keys - remaining + {b};
        remaining := remaining - {b};
      }
      assert keys - remaining == keys;
      ChildLoopEnds(nodes, paths, keywords, queue, head, done);
    }

    /** Inner loop of buildFailures: link one child and let it inherit the flag. */
    method LinkChild(current: nat, b: byte, child: nat)
      requires IsTrie(nodes, paths) && SpellsPrefixes(paths, keywords)
      requires current < |nodes| && paths[current] != [] && b in nodes[current].next
      requires child == nodes[current].next[b]
      requires ShallowRight(nodes, paths, keywords, |paths[current]|)
      requires IsFresh(nodes[child], paths[child], keywords)
      modifies this`nodes
      ensures child < |nodes| == |old(nodes)|
      ensures nodes == old(nodes)[child := nodes[child]] && nodes[child].next == old(nodes[child].next)
      ensures IsTrie(nodes, paths) && NodeRight(nodes, paths, keywords, child)
    {
      hide EndsWithKeyword, SpellsPrefixes, IsSuffix, Longest;
      var link := FindLink(current, b, child);
      assert NodeRight(nodes, paths, keywords, link);
      LinkedIsRight(nodes, paths, keywords, child, link);
      ghost var linked := Linked(nodes, child, link);
      assert linked == AhoNode(nodes[child].next, link, nodes[child].terminal || nodes[link].terminal);
      hide Longest, IsTrie, NodeRight, ShallowRight;
      nodes := nodes[child := nodes[child].(fail := link)];
      if nodes[nodes[child].fail].terminal {
        nodes := nodes[child := nodes[child].(terminal := true)];
      }
      assert nodes[child] == linked;
    }

    /** Where the link of a child has to lead; 0, the root, when no shorter suffix can read b. */
    method FindLink(current: nat, b: byte, child: nat) returns (link: nat)
      requires IsTrie(nodes, paths)
      requires current < |nodes| && paths[current] != [] && b in nodes[current].next
      requires child == nodes[current].next[b]
      requires ShallowRight(nodes, paths, keywords, |paths[current]|)
      ensures child < |nodes| && paths[child] != []
      ensures link < |nodes| && |paths[link]| <= |paths[current]|
      ensures paths[link] == Longest(paths, paths[child][1..])
    {
      assert paths[child] == paths[current] + [b];
      assert paths[child][1..] == paths[current][1..] + [b];
      LongestExtends(paths, paths[current][1..], b);
      hide Longest, IsSuffix, TerminalRight, PrefixClosed;
      assert NodeRight(nodes, paths, keywords, current);
      var fail: nat := nodes[current].fail;
      while fail != 0
        invariant fail < |nodes| && |paths[fail]| < |paths[current]|
        invariant Longest(paths, paths[fail] + [b]) == Longest(paths, paths[child][1..])
        decreases |paths[fail]|
      {
        assert NodeRight(nodes, paths, keywords, fail);
        ReadByte(nodes, paths, fail, b);
        if b in nodes[fail].next {
          return nodes[fail].next[b];
        }
        fail := nodes[fail].fail;
      }
      ReadByte(nodes, paths, 0, b);
      if b in nodes[0].next && nodes[0].next[b] != child {
        return nodes[0].next[b];
      }
      return 0;
    }

    /** buildFailures: whatever the order of the map iterations, the trie becomes the automaton. */
    method BuildFailures()
      requires IsTrie(nodes, paths) && SpellsPrefixes(paths, keywords)
      requires AllFresh(nodes, paths, keywords)
      modifies this`nodes
      ensures Valid()
      ensures |nodes| == |old(nodes)|
      ensures forall n :: 0 <= n < |nodes| ==> nodes[n].next == old(nodes[n].next)
    {
      var queue: seq<nat> := QueueRootChildren();
      var head: nat := 0;
      ghost var done: set<bytes> := {[]};
      while head < |queue|
        invariant AtNode(nodes, paths, keywords, queue, head, done)
        invariant |nodes| == |old(nodes)|
        invariant forall n :: 0 <= n < |nodes| ==> nodes[n].next == old(nodes[n].next)
        decreases (set s | s in paths) - done
      {
        ghost var path := paths[queue[head]];
        assert path in paths && path !in done;
        queue := LinkChildren(queue, head, done);
        done := done + {path};
        head := head + 1;
      }
      forall n | 0 <= n < |nodes| ensures NodeRight(nodes, paths, keywords, n) {
        if paths[n] != [] {
          AllQueuedAtEnd(paths, queue, done, n);
        } else if n !in queue {
          assert IsFresh(nodes[n], paths[n], keywords);
        }
      }
    }

    /**
     nextState: the node for the longest spelled suffix after reading b. The ghost result counts the
     turns of the loop; each turn but the last one gives up part of the path.
     */
    method NextState(state0: nat, b: byte) returns (state: nat, ghost turns: nat)
      requires Valid() && state0 < |nodes|
      ensures state < |nodes| && paths[state] == Longest(paths, paths[state0] + [b])
      ensures turns + |paths[state]| <= |paths[state0]| + 2
    {
      hide Longest, IsSuffix, TerminalRight, PrefixClosed;
      state, turns := state0, 0;
      while true
        invariant state < |nodes|
        invariant Longest(paths, paths[state] + [b]) == Longest(paths, paths[state0] + [b])
        invariant turns + |paths[state]| <= |paths[state0]|
        decreases |paths[state]|
      {
        assert NodeRight(nodes, paths, keywords, state);
        ReadByte(nodes, paths, state, b);
        turns := turns + 1;
        if b in nodes[state].next {
          state := nodes[state].next[b];
          return;
        }
        if state == 0 {
          return;
        }
        state := nodes[state].fail;
      }
    }

    /**
     match: true exactly when some non-empty keyword is a contiguous part of value, with at most two
     turns of the inner loop for every byte of value.
     */
    method Match(value: bytes) returns (found: bool, ghost turns: nat)
      requires Valid()
      ensures found <==> Occurs(keywords, value)
      ensures turns <= 2 * |value|
    {
      hide Longest, EndsWithKeyword, Occurs, NodeRight, PrefixClosed, SpellsPrefixes;
      var state: nat := 0;
      turns := 0;
      NoKeywordEndsEmpty(keywords);
      OccursByPrefix(keywords, value);
      ScanStarts(paths, value);
      assert value[..0] == [];
      for i := 0 to |value|
        invariant ScanAt(paths, value, i, state)
        invariant forall j :: 0 <= j <= i ==> !EndsWithKeyword(keywords, value[..j])
        invariant turns + |paths[state]| <= 2 * i
      {
        ghost var state0 := state;
        ghost var more: nat;
        state, more := NextState(state, value[i]);
        turns := turns + more;
        ScanReads(nodes, paths, value, i, state0, state);
        ScanTells(nodes, paths, keywords, value, i + 1, state);
        if nodes[state].terminal {
          return true, turns;
        }
      }
      return false, turns;
    }
  }
}
