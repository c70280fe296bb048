/**
 The commit collector: a depth-first walk from every selected branch head,
 with an explicit stack and one visited set shared by all heads, that groups
 the authored times of the commits it expands by author e-mail and sorts
 each group at the end.
 */
module Collector {
  import opened Repo
  import opened Sorting

  // ---------------------------------------------------------------------
  // Start set
  // ---------------------------------------------------------------------

  const HeadsNamespace := "refs/heads/"

  /** The name prefix a head must start with: the namespace followed by the
      requested branch name, or the bare namespace when none is requested. */
  function BranchPrefix(branch: Option<string>): string
  {
    match branch
    case Some(b) => HeadsNamespace + b
    case None => HeadsNamespace
  }

  /** A reference the walk starts from: its name has the prefix and it loads. */
  predicate Selected(r: Reference, branch: Option<string>)
  {
    BranchPrefix(branch) <= r.name && r.target.Some?
  }

  /** The tips of the selected references, in listing order. */
  function HeadTips(refs: seq<Reference>, branch: Option<string>): (tips: seq<CommitId>)
    ensures |tips| <= |refs|
    ensures forall t :: t in tips <==> exists r :: r in refs && Selected(r, branch) && r.target == Some(t)
  {
    if refs == [] then
      []
    else
      assert forall r :: r in refs <==> r == refs[0] || r in refs[1..];
      var rest := HeadTips(refs[1..], branch);
      if Selected(refs[0], branch) then [refs[0].target.value] + rest else rest
  }

  /** Naming a branch only narrows the start set: every tip it selects is
      also selected when no branch is named. */
  lemma BranchNarrowsStartSet(refs: seq<Reference>, b: string)
    ensures forall t :: t in HeadTips(refs, Some(b)) ==> t in HeadTips(refs, None)
  {
    forall t | t in HeadTips(refs, Some(b)) ensures t in HeadTips(refs, None) {
      var r :| r in refs && Selected(r, Some(b)) && r.target == Some(t);
      assert HeadsNamespace <= HeadsNamespace + b;
      assert r.name[..|HeadsNamespace|] == HeadsNamespace;
      assert Selected(r, None);
    }
  }

  // ---------------------------------------------------------------------
  // Reachability: what the walk must expand
  // ---------------------------------------------------------------------

  /** A chain of commits that all resolve, starting at a tip, each one a
      parent of the one before it. */
  ghost predicate IsWalk(g: Graph, tips: seq<CommitId>, w: seq<CommitId>)
  {
    && |w| > 0
    && w[0] in tips
    && (forall i :: 0 <= i < |w| ==> w[i] in g)
    && (forall i :: 0 < i < |w| ==> w[i] in g[w[i - 1]].parents)
  }

  /** `x` is reachable when some walk ends at it. */
  ghost predicate Reachable(g: Graph, tips: seq<CommitId>, x: CommitId)
  {
    exists w :: IsWalk(g, tips, w) && w[|w| - 1] == x
  }

  /** Every resolvable parent of a member that resolves is a member or is
      still `pending`. */
  ghost predicate ClosedUpTo(g: Graph, s: set<CommitId>, pending: seq<CommitId>)
  {
    forall v, p :: v in s && v in g && p in g[v].parents && p in g ==> p in s || p in pending
  }

  /** Every resolvable parent of a member that resolves is a member. */
  ghost predicate ParentClosed(g: Graph, s: set<CommitId>)
  {
    ClosedUpTo(g, s, [])
  }

  lemma TipReachable(g: Graph, tips: seq<CommitId>, t: CommitId)
    requires t in tips && t in g
    ensures Reachable(g, tips, t)
  {
    assert IsWalk(g, tips, [t]);
  }

  lemma ParentReachable(g: Graph, tips: seq<CommitId>, v: CommitId, p: CommitId)
    requires Reachable(g, tips, v) && v in g
    requires p in g[v].parents && p in g
    ensures Reachable(g, tips, p)
  {
    var w :| IsWalk(g, tips, w) && w[|w| - 1] == v;
    var w' := w + [p];
    assert IsWalk(g, tips, w');
    assert w'[|w'| - 1] == p;
  }

  /** A parent-closed set holding every resolvable tip holds the end of
      every walk. */
  lemma {:induction false} WalkEndsInClosedSet(g: Graph, tips: seq<CommitId>, s: set<CommitId>, w: seq<CommitId>)
    requires ParentClosed(g, s)
    requires forall t :: t in tips && t in g ==> t in s
    requires IsWalk(g, tips, w)
    ensures w[|w| - 1] in s
    decreases |w|
  {
    if |w| > 1 {
      var w' := w[..|w| - 1];
      assert IsWalk(g, tips, w');
      WalkEndsInClosedSet(g, tips, s, w');
      assert w[|w| - 1] in g[w'[|w'| - 1]].parents;
    }
  }

  lemma ReachableInClosedSet(g: Graph, tips: seq<CommitId>, s: set<CommitId>, x: CommitId)
    requires ParentClosed(g, s)
    requires forall t :: t in tips && t in g ==> t in s
    requires Reachable(g, tips, x)
    ensures x in s
  {
    var w :| IsWalk(g, tips, w) && w[|w| - 1] == x;
    WalkEndsInClosedSet(g, tips, s, w);
  }

  // ---------------------------------------------------------------------
  // Attribution: what each expanded commit adds
  // ---------------------------------------------------------------------

  /** An expanded commit adds its time to `email`'s group when its author
      line reads, the e-mail matches, and it is not a merge or merges are
      counted. */
  predicate Contributes(c: Commit, email: Email, mergeCommits: bool)
  {
    && c.author.Some?
    && c.author.value.email == email
    && (!IsMerge(c) || mergeCommits)
  }

  /** The times an expanded commit adds to `email`'s group: its own, or none. */
  function Contribution(c: Commit, email: Email, mergeCommits: bool): seq<int>
  {
    if Contributes(c, email, mergeCommits) then [c.author.value.seconds] else []
  }

  predicate InGraph(g: Graph, order: seq<CommitId>)
  {
    forall i :: 0 <= i < |order| ==> order[i] in g
  }

  predicate Distinct(order: seq<CommitId>)
  {
    forall i, j :: 0 <= i < j < |order| ==> order[i] != order[j]
  }

  function Elements(order: seq<CommitId>): set<CommitId>
  {
    set x | x in order
  }

  /** The commits among `ids` that add a time to `email`'s group. */
  function Contributors(g: Graph, ids: set<CommitId>, email: Email, mergeCommits: bool): set<CommitId>
  {
    set x | x in ids && x in g && Contributes(g[x], email, mergeCommits)
  }

  /** The times `email` collects when the commits are expanded in `order`,
      in that order. */
  function AuthorTimes(g: Graph, order: seq<CommitId>, email: Email, mergeCommits: bool): seq<int>
    requires InGraph(g, order)
  {
    if order == [] then
      []
    else
      AuthorTimes(g, order[..|order| - 1], email, mergeCommits)
        + Contribution(g[order[|order| - 1]], email, mergeCommits)
  }

  /** Without the merge flag exactly the merge commits drop out of a group;
      with it every commit of that author whose author line reads counts. */
  lemma MergeFlagDropsOnlyMerges(g: Graph, ids: set<CommitId>, email: Email)
    ensures forall x :: x in Contributors(g, ids, email, true) <==>
      x in ids && x in g && g[x].author.Some? && g[x].author.value.email == email
    ensures Contributors(g, ids, email, false)
         == Contributors(g, ids, email, true) - set x | x in ids && x in g && IsMerge(g[x])
  {
  }

  /** The group of `email` in `times`, empty when it has none. */
  function TimesOf(times: map<Email, seq<int>>, email: Email): seq<int>
  {
    if email in times then times[email] else []
  }

  lemma {:induction false} AuthorTimesAppend(g: Graph, a: seq<CommitId>, b: seq<CommitId>, email: Email, mergeCommits: bool)
    requires InGraph(g, a) && InGraph(g, b)
    ensures InGraph(g, a + b)
    ensures AuthorTimes(g, a + b, email, mergeCommits)
         == AuthorTimes(g, a, email, mergeCommits) + AuthorTimes(g, b, email, mergeCommits)
    decreases |b|
  {
    if b == [] {
      assert a + b == a;
    } else {
      var n := |b| - 1;
      assert (a + b)[..|a + b| - 1] == a + b[..n];
      AuthorTimesAppend(g, a, b[..n], email, mergeCommits);
    }
  }

  /** A group holds one time per contributing commit of a duplicate-free
      expansion order. */
  lemma {:induction false} AuthorTimesCount(g: Graph, order: seq<CommitId>, email: Email, mergeCommits: bool)
    requires InGraph(g, order) && Distinct(order)
    ensures |AuthorTimes(g, order, email, mergeCommits)| == |Contributors(g, Elements(order), email, mergeCommits)|
    decreases |order|
  {
    if order != [] {
      var n := |order| - 1;
      var x, init := order[n], order[..n];
      AuthorTimesCount(g, init, email, mergeCommits);
      ElementsOfPrefix(order);
      var before := Contributors(g, Elements(init), email, mergeCommits);
      ContributorsWithOneMore(g, Elements(init), x, email, mergeCommits);
      if Contributes(g[x], email, mergeCommits) {
        assert x !in before;
        assert |before + {x}| == |before| + 1;
      }
    }
  }

  lemma ElementsOfPrefix(order: seq<CommitId>)
    requires |order| > 0 && Distinct(order)
    ensures Elements(order) == Elements(order[..|order| - 1]) + {order[|order| - 1]}
    ensures order[|order| - 1] !in Elements(order[..|order| - 1])
  {
    assert order == order[..|order| - 1] + [order[|order| - 1]];
  }

  lemma ContributorsWithOneMore(g: Graph, ids: set<CommitId>, x: CommitId, email: Email, mergeCommits: bool)
    requires x in g
    ensures Contributors(g, ids + {x}, email, mergeCommits)
         == Contributors(g, ids, email, mergeCommits) + (if Contributes(g[x], email, mergeCommits) then {x} else {})
  {
  }

  lemma {:induction false} DistinctMultiplicity(order: seq<CommitId>, x: CommitId)
    requires Distinct(order)
    ensures multiset(order)[x] == if x in order then 1 else 0
    decreases |order|
  {
    if order != [] {
      var n := |order| - 1;
      assert order == order[..n] + [order[n]];
      DistinctMultiplicity(order[..n], x);
    }
  }

  /** Reordering the expansion order reorders each author's times and
      changes nothing else. */
  lemma {:induction false} AuthorTimesPermutation(g: Graph, o1: seq<CommitId>, o2: seq<CommitId>, email: Email, mergeCommits: bool)
    requires InGraph(g, o1) && InGraph(g, o2)
    requires multiset(o1) == multiset(o2)
    ensures multiset(AuthorTimes(g, o1, email, mergeCommits)) == multiset(AuthorTimes(g, o2, email, mergeCommits))
    decreases |o1|
  {
    if o1 == [] {
      assert |o2| == |multiset(o2)| == 0;
    } else {
      var n := |o1| - 1;
      var x, init := o1[n], o1[..n];
      assert x in o2 by {
        assert x in multiset(o1);
      }
      var i :| 0 <= i < |o2| && o2[i] == x;
      var left, right := o2[..i], o2[i + 1..];
      assert multiset(init) == multiset(left + right) by {
        RemoveLast(o1);
        RemoveAt(o2, i);
      }
      AuthorTimesPermutation(g, init, left + right, email, mergeCommits);
      var c := Contribution(g[x], email, mergeCommits);
      var l, r := AuthorTimes(g, left, email, mergeCommits), AuthorTimes(g, right, email, mergeCommits);
      assert AuthorTimes(g, left + right, email, mergeCommits) == l + r by {
        AuthorTimesAppend(g, left, right, email, mergeCommits);
      }
      AuthorTimesSplitAt(g, o2, i, email, mergeCommits);
      var t := AuthorTimes(g, init, email, mergeCommits);
      assert AuthorTimes(g, o1, email, mergeCommits) == t + c;
      calc {
        multiset(AuthorTimes(g, o1, email, mergeCommits));
        multiset(t) + multiset(c);
        multiset(l + r) + multiset(c);
        multiset(l + c + r);
        multiset(AuthorTimes(g, o2, email, mergeCommits));
      }
    }
  }

  lemma AuthorTimesSplitAt(g: Graph, o: seq<CommitId>, i: nat, email: Email, mergeCommits: bool)
    requires InGraph(g, o) && i < |o|
    ensures AuthorTimes(g, o, email, mergeCommits)
         == AuthorTimes(g, o[..i], email, mergeCommits) + Contribution(g[o[i]], email, mergeCommits)
            + AuthorTimes(g, o[i + 1..], email, mergeCommits)
  {
    var left, right := o[..i], o[i + 1..];
    assert o == (left + [o[i]]) + right;
    AuthorTimesAppend(g, left + [o[i]], right, email, mergeCommits);
    assert (left + [o[i]])[..|left|] == left;
  }

  lemma RemoveLast(s: seq<CommitId>)
    requires |s| > 0
    ensures multiset(s[..|s| - 1]) == multiset(s) - multiset{s[|s| - 1]}
  {
    assert s == s[..|s| - 1] + [s[|s| - 1]];
  }

  lemma RemoveAt(s: seq<CommitId>, i: nat)
    requires i < |s|
    ensures multiset(s[..i] + s[i + 1..]) == multiset(s) - multiset{s[i]}
  {
    assert s == s[..i] + [s[i]] + s[i + 1..];
  }

  /** What the collector returns for an author depends only on which commits
      were expanded, not on the order the stack happened to expand them in. */
  lemma CollectedTimesDetermined(g: Graph, o1: seq<CommitId>, o2: seq<CommitId>, email: Email, mergeCommits: bool,
                                 s1: seq<int>, s2: seq<int>)
    requires InGraph(g, o1) && InGraph(g, o2) && Distinct(o1) && Distinct(o2)
    requires Elements(o1) == Elements(o2)
    requires SortedAsc(s1) && multiset(s1) == multiset(AuthorTimes(g, o1, email, mergeCommits))
    requires SortedAsc(s2) && multiset(s2) == multiset(AuthorTimes(g, o2, email, mergeCommits))
    ensures s1 == s2
  {
    forall x ensures multiset(o1)[x] == multiset(o2)[x] {
      DistinctMultiplicity(o1, x);
      DistinctMultiplicity(o2, x);
      assert x in o1 <==> x in Elements(o1);
      assert x in o2 <==> x in Elements(o2);
    }
    assert multiset(o1) == multiset(o2);
    AuthorTimesPermutation(g, o1, o2, email, mergeCommits);
    SortedUnique(s1, s2);
  }

  /** The commits of `g` reachable from `tips`. */
  ghost function ReachableSet(g: Graph, tips: seq<CommitId>): set<CommitId>
  {
    set x | x in g.Keys && Reachable(g, tips, x)
  }

  /** Some fixed duplicate-free listing of a finite set of commits. */
  ghost function Listing(ids: set<CommitId>): (order: seq<CommitId>)
    ensures Distinct(order) && Elements(order) == ids
    decreases ids
  {
    if ids == {} then
      []
    else
      var x :| x in ids;
      var rest := Listing(ids - {x});
      assert x !in rest by {
        assert x !in Elements(rest);
      }
      assert Elements(rest + [x]) == Elements(rest) + {x};
      rest + [x]
  }

  /** The group an author should end up with when `ids` are the expanded
      commits: their qualifying times, sorted ascending. */
  ghost function CanonicalTimes(g: Graph, ids: set<CommitId>, email: Email, mergeCommits: bool): seq<int>
    requires ids <= g.Keys
  {
    var order := Listing(ids);
    assert InGraph(g, order) by {
      forall i | 0 <= i < |order| ensures order[i] in g {
        assert order[i] in Elements(order);
      }
    }
    SortTimes(AuthorTimes(g, order, email, mergeCommits))
  }

  /** Sorted groups collected along any duplicate-free expansion order of
      `ids` are the canonical groups of `ids`. */
  lemma SortedGroupsCanonical(g: Graph, ids: set<CommitId>, order: seq<CommitId>, mergeCommits: bool,
                              sorted: map<Email, seq<int>>)
    requires ids <= g.Keys && InGraph(g, order) && Distinct(order) && Elements(order) == ids
    requires forall e :: e in sorted ==>
      SortedAsc(sorted[e]) && multiset(sorted[e]) == multiset(AuthorTimes(g, order, e, mergeCommits))
    ensures forall e :: e in sorted ==> sorted[e] == CanonicalTimes(g, ids, e, mergeCommits)
  {
    forall e | e in sorted ensures sorted[e] == CanonicalTimes(g, ids, e, mergeCommits) {
      var listing := Listing(ids);
      assert InGraph(g, listing) by {
        forall i | 0 <= i < |listing| ensures listing[i] in g {
          assert listing[i] in Elements(listing);
        }
      }
      CollectedTimesDetermined(g, order, listing, e, mergeCommits,
                               sorted[e], SortTimes(AuthorTimes(g, listing, e, mergeCommits)));
    }
  }

  // ---------------------------------------------------------------------
  // The walk
  // ---------------------------------------------------------------------

  /** What holds between any two pops: every marked commit resolves, is
      reachable and was expanded exactly once (`order` lists the expansions),
      and `times` holds exactly the times the expanded commits contribute,
      in expansion order, with no empty group. */
  ghost predicate WalkInvariant(g: Graph, tips: seq<CommitId>, mergeCommits: bool,
                                visited: set<CommitId>, order: seq<CommitId>, times: map<Email, seq<int>>)
  {
    && visited <= g.Keys
    && Distinct(order)
    && Elements(order) == visited
    && InGraph(g, order)
    && (forall x :: x in visited ==> Reachable(g, tips, x))
    && (forall e :: TimesOf(times, e) == AuthorTimes(g, order, e, mergeCommits))
    && (forall e :: e in times ==> times[e] != [])
  }

  /** Every id on the stack that resolves is reachable. */
  ghost predicate PendingReachable(g: Graph, tips: seq<CommitId>, stack: seq<CommitId>)
  {
    forall x :: x in stack && x in g ==> Reachable(g, tips, x)
  }

  lemma ExpansionKeepsInvariant(g: Graph, tips: seq<CommitId>, mergeCommits: bool, id: CommitId,
                                visited: set<CommitId>, order: seq<CommitId>,
                                times: map<Email, seq<int>>, times': map<Email, seq<int>>)
    requires WalkInvariant(g, tips, mergeCommits, visited, order, times)
    requires id in g && id !in visited && Reachable(g, tips, id)
    requires forall e :: e in times' <==> e in times || Contributes(g[id], e, mergeCommits)
    requires forall e :: TimesOf(times', e) == TimesOf(times, e) + Contribution(g[id], e, mergeCommits)
    ensures WalkInvariant(g, tips, mergeCommits, visited + {id}, order + [id], times')
  {
    var order' := order + [id];
    assert order'[..|order'| - 1] == order;
    assert Elements(order') == Elements(order) + {id};
    forall e ensures TimesOf(times', e) == AuthorTimes(g, order', e, mergeCommits) {
      assert TimesOf(times, e) == AuthorTimes(g, order, e, mergeCommits);
    }
    forall e | e in times' ensures times'[e] != [] {
      assert TimesOf(times', e) == times'[e];
      if e in times {
        assert TimesOf(times, e) == times[e];
      }
    }
  }

  /** Replacing a popped id that resolves by its parents keeps every
      resolvable id on the stack reachable; the popped id itself is. */
  lemma ExpansionKeepsPending(g: Graph, tips: seq<CommitId>, id: CommitId, stack: seq<CommitId>)
    requires PendingReachable(g, tips, stack + [id])
    requires id in g
    ensures Reachable(g, tips, id)
    ensures PendingReachable(g, tips, stack + g[id].parents)
  {
    assert id in stack + [id];
    forall x | x in stack + g[id].parents && x in g ensures Reachable(g, tips, x) {
      if x in g[id].parents {
        ParentReachable(g, tips, id, x);
      } else {
        assert x in stack + [id];
      }
    }
  }

  lemma SkipKeepsPending(g: Graph, tips: seq<CommitId>, id: CommitId, stack: seq<CommitId>)
    requires PendingReachable(g, tips, stack + [id])
    ensures PendingReachable(g, tips, stack)
  {
    forall x | x in stack && x in g ensures Reachable(g, tips, x) {
      assert x in stack + [id];
    }
  }

  lemma ExpansionKeepsClosure(g: Graph, tips: seq<CommitId>, id: CommitId, visited: set<CommitId>, stack: seq<CommitId>)
    requires ClosedUpTo(g, visited, stack + [id])
    requires PendingReachable(g, tips, stack + [id])
    requires id in g
    ensures ClosedUpTo(g, visited + {id}, stack + g[id].parents)
    ensures PendingReachable(g, tips, stack + g[id].parents)
  {
    ExpansionKeepsPending(g, tips, id, stack);
    forall v, p | v in visited + {id} && v in g && p in g[v].parents && p in g
      ensures p in visited + {id} || p in stack + g[id].parents
    {
      if v != id {
        assert p in visited || p in stack + [id];
      }
    }
  }

  lemma SkipKeepsClosure(g: Graph, tips: seq<CommitId>, id: CommitId, visited: set<CommitId>, stack: seq<CommitId>)
    requires ClosedUpTo(g, visited, stack + [id])
    requires PendingReachable(g, tips, stack + [id])
    requires id !in g || id in visited
    ensures ClosedUpTo(g, visited, stack)
    ensures PendingReachable(g, tips, stack)
  {
    forall v, p | v in visited && v in g && p in g[v].parents && p in g
      ensures p in visited || p in stack
    {
      assert p in visited || p in stack + [id];
    }
    SkipKeepsPending(g, tips, id, stack);
  }

  lemma LastSplits(s: seq<CommitId>)
    requires |s| > 0
    ensures s == s[..|s| - 1] + [s[|s| - 1]]
  {
  }

  /** One pop of the stack. An id that does not resolve is dropped: it is
      not marked and nothing is pushed. An id already visited is dropped
      the same way. Otherwise the id is marked, all its parents are pushed
      whatever its author or parent count, and its time goes to its author's
      group when it contributes. */
  method ExpandPopped(g: Graph, mergeCommits: bool, id: CommitId,
                      stack: seq<CommitId>, visited: set<CommitId>, times: map<Email, seq<int>>)
    returns (stack': seq<CommitId>, visited': set<CommitId>, times': map<Email, seq<int>>)
    ensures id !in g || id in visited ==> stack' == stack && visited' == visited && times' == times
    ensures id in g && id !in visited ==>
      && visited' == visited + {id}
      && stack' == stack + g[id].parents
      && (forall e :: e in times' <==> e in times || Contributes(g[id], e, mergeCommits))
      && (forall e :: TimesOf(times', e) == TimesOf(times, e) + Contribution(g[id], e, mergeCommits))
  {
    stack', visited', times' := stack, visited, times;
    if id !in g {
      return;
    }
    var commit := g[id];
    if id in visited {
      return;
    }
    visited' := visited' + {id};
    var stackLen := |stack'|;
    stack' := stack' + commit.parents;
    var numParents := |stack'| - stackLen;
    if commit.author.Some? {
      var author := commit.author.value;
      var isMerge := numParents > 1;
      if !isMerge || mergeCommits {
        if author.email in times' {
          times' := times'[author.email := times'[author.email] + [author.seconds]];
        } else {
          times' := times'[author.email := [author.seconds]];
        }
      }
    }
  }

  /** The loop state of the walk from `tip`: the walk invariant, a stack
      that holds every resolvable parent of a marked commit not yet marked,
      only reachable ids on the stack, nothing unmarked that was marked at
      the start (`visited0`), and the tip marked or still pending. */
  ghost predicate Frontier(g: Graph, tips: seq<CommitId>, mergeCommits: bool, tip: CommitId, visited0: set<CommitId>,
                           visited: set<CommitId>, order: seq<CommitId>, times: map<Email, seq<int>>, stack: seq<CommitId>)
  {
    && WalkInvariant(g, tips, mergeCommits, visited, order, times)
    && ClosedUpTo(g, visited, stack)
    && PendingReachable(g, tips, stack)
    && visited0 <= visited
    && (tip in g ==> tip in visited || tip in stack)
  }

  lemma ExpansionKeepsFrontier(g: Graph, tips: seq<CommitId>, mergeCommits: bool, tip: CommitId, visited0: set<CommitId>,
                               id: CommitId, visited: set<CommitId>, order: seq<CommitId>,
                               times: map<Email, seq<int>>, times': map<Email, seq<int>>, rest: seq<CommitId>)
    requires Frontier(g, tips, mergeCommits, tip, visited0, visited, order, times, rest + [id])
    requires id in g && id !in visited
    requires forall e :: e in times' <==> e in times || Contributes(g[id], e, mergeCommits)
    requires forall e :: TimesOf(times', e) == TimesOf(times, e) + Contribution(g[id], e, mergeCommits)
    ensures Frontier(g, tips, mergeCommits, tip, visited0, visited + {id}, order + [id], times', rest + g[id].parents)
    ensures |g.Keys - (visited + {id})| < |g.Keys - visited|
  {
    assert id in rest + [id];
    ExpansionKeepsClosure(g, tips, id, visited, rest);
    ExpansionKeepsInvariant(g, tips, mergeCommits, id, visited, order, times, times');
    assert g.Keys - (visited + {id}) == (g.Keys - visited) - {id};
  }

  lemma SkipKeepsFrontier(g: Graph, tips: seq<CommitId>, mergeCommits: bool, tip: CommitId, visited0: set<CommitId>,
                          id: CommitId, visited: set<CommitId>, order: seq<CommitId>,
                          times: map<Email, seq<int>>, rest: seq<CommitId>)
    requires Frontier(g, tips, mergeCommits, tip, visited0, visited, order, times, rest + [id])
    requires id !in g || id in visited
    ensures Frontier(g, tips, mergeCommits, tip, visited0, visited, order, times, rest)
  {
    SkipKeepsClosure(g, tips, id, visited, rest);
  }

  /** What the walk from `tip` adds to the state it started from
      (`visited0`, `order0`): expansions are appended to the order, and
      every newly marked or pending commit is reachable from `tip` alone. */
  ghost predicate WithinTip(g: Graph, tip: CommitId, visited0: set<CommitId>, order0: seq<CommitId>,
                            visited: set<CommitId>, order: seq<CommitId>, stack: seq<CommitId>)
  {
    && order0 <= order
    && PendingReachable(g, [tip], stack)
    && (forall x :: x in visited ==> x in visited0 || Reachable(g, [tip], x))
  }

  lemma ExpansionStaysWithinTip(g: Graph, tip: CommitId, visited0: set<CommitId>, order0: seq<CommitId>,
                                id: CommitId, visited: set<CommitId>, order: seq<CommitId>, rest: seq<CommitId>)
    requires WithinTip(g, tip, visited0, order0, visited, order, rest + [id])
    requires id in g
    ensures WithinTip(g, tip, visited0, order0, visited + {id}, order + [id], rest + g[id].parents)
  {
    ExpansionKeepsPending(g, [tip], id, rest);
  }

  lemma SkipStaysWithinTip(g: Graph, tip: CommitId, visited0: set<CommitId>, order0: seq<CommitId>,
                           id: CommitId, visited: set<CommitId>, order: seq<CommitId>, rest: seq<CommitId>)
    requires WithinTip(g, tip, visited0, order0, visited, order, rest + [id])
    ensures WithinTip(g, tip, visited0, order0, visited, order, rest)
  {
    SkipKeepsPending(g, [tip], id, rest);
  }

  /** The walk from one head: pops until the stack is empty. Afterwards
      every commit marked before is still marked, the head (when it
      resolves) is marked, the marked set is closed under resolvable
      parents, every newly marked commit is reachable from this head, and
      the new expansions follow the earlier ones in the order. */
  method WalkFromTip(g: Graph, tips: seq<CommitId>, tip: CommitId, mergeCommits: bool,
                     visited: set<CommitId>, ghost order: seq<CommitId>, times: map<Email, seq<int>>)
    returns (visited': set<CommitId>, ghost order': seq<CommitId>, times': map<Email, seq<int>>)
    requires tip in tips
    requires WalkInvariant(g, tips, mergeCommits, visited, order, times)
    requires ParentClosed(g, visited)
    ensures WalkInvariant(g, tips, mergeCommits, visited', order', times')
    ensures ParentClosed(g, visited')
    ensures visited <= visited'
    ensures tip in g ==> tip in visited'
    ensures forall x :: x in visited' ==> x in visited || Reachable(g, [tip], x)
    ensures order <= order'
  {
    visited', order', times' := visited, order, times;
    var stack := [tip];
    if tip in g {
      TipReachable(g, tips, tip);
      TipReachable(g, [tip], tip);
    }
    while stack != []
      invariant Frontier(g, tips, mergeCommits, tip, visited, visited', order', times', stack)
      invariant WithinTip(g, tip, visited, order, visited', order', stack)
      decreases |g.Keys - visited'|, |stack|
    {
      var id := stack[|stack| - 1];
      ghost var rest := stack[..|stack| - 1];
      LastSplits(stack);
      stack := stack[..|stack| - 1];
      ghost var visitedBefore, orderBefore, timesBefore := visited', order', times';
      ghost var expands := id in g && id !in visited';
      stack, visited', times' := ExpandPopped(g, mergeCommits, id, stack, visited', times');
      if expands {
        ExpansionKeepsFrontier(g, tips, mergeCommits, tip, visited, id, visitedBefore, orderBefore, timesBefore, times', rest);
        ExpansionStaysWithinTip(g, tip, visited, order, id, visitedBefore, orderBefore, rest);
        order' := order' + [id];
      } else {
        SkipKeepsFrontier(g, tips, mergeCommits, tip, visited, id, visitedBefore, orderBefore, timesBefore, rest);
        SkipStaysWithinTip(g, tip, visited, order, id, visitedBefore, orderBefore, rest);
      }
    }
  }

  /** Once the walk is over an author has a group exactly when some expanded
      commit contributes to it, and the group has one time per such commit. */
  lemma GroupsMatchContributors(g: Graph, tips: seq<CommitId>, mergeCommits: bool,
                                visited: set<CommitId>, order: seq<CommitId>, times: map<Email, seq<int>>, email: Email)
    requires WalkInvariant(g, tips, mergeCommits, visited, order, times)
    ensures email in times <==> Contributors(g, visited, email, mergeCommits) != {}
    ensures email in times ==>
      && times[email] == AuthorTimes(g, order, email, mergeCommits)
      && |times[email]| == |Contributors(g, visited, email, mergeCommits)|
  {
    AuthorTimesCount(g, order, email, mergeCommits);
    assert TimesOf(times, email) == AuthorTimes(g, order, email, mergeCommits);
    assert email in times <==> TimesOf(times, email) != [];
  }

  /** Every resolvable id among `ids` is marked. */
  ghost predicate TipsMarked(g: Graph, ids: seq<CommitId>, visited: set<CommitId>)
  {
    forall j :: 0 <= j < |ids| && ids[j] in g ==> ids[j] in visited
  }

  lemma TipsMarkedExtend(g: Graph, tips: seq<CommitId>, k: nat, before: set<CommitId>, after: set<CommitId>)
    requires k < |tips|
    requires TipsMarked(g, tips[..k], before)
    requires before <= after
    requires tips[k] in g ==> tips[k] in after
    ensures TipsMarked(g, tips[..k + 1], after)
  {
  }

  /** Once every head is walked the marked set is exactly the reachable set. */
  lemma WalkReachesExactly(g: Graph, tips: seq<CommitId>, mergeCommits: bool,
                           visited: set<CommitId>, order: seq<CommitId>, times: map<Email, seq<int>>)
    requires WalkInvariant(g, tips, mergeCommits, visited, order, times)
    requires ParentClosed(g, visited)
    requires TipsMarked(g, tips, visited)
    ensures forall x :: x in visited <==> Reachable(g, tips, x)
  {
    forall x | Reachable(g, tips, x) ensures x in visited {
      ReachableInClosedSet(g, tips, visited, x);
    }
  }

  /** Sorting keeps each group's length and times, so the sorted groups
      still match the contributing commits. */
  lemma SortedGroupsMatchContributors(g: Graph, tips: seq<CommitId>, mergeCommits: bool,
                                      visited: set<CommitId>, order: seq<CommitId>,
                                      times: map<Email, seq<int>>, sorted: map<Email, seq<int>>)
    requires WalkInvariant(g, tips, mergeCommits, visited, order, times)
    requires sorted.Keys == times.Keys
    requires forall e :: e in times ==>
      |sorted[e]| == |times[e]| && SortedAsc(sorted[e]) && multiset(sorted[e]) == multiset(times[e])
    ensures forall e :: e in sorted <==> Contributors(g, visited, e, mergeCommits) != {}
    ensures forall e :: e in sorted ==>
      && |sorted[e]| == |Contributors(g, visited, e, mergeCommits)|
      && SortedAsc(sorted[e])
      && multiset(sorted[e]) == multiset(AuthorTimes(g, order, e, mergeCommits))
  {
    forall e ensures
      && (e in sorted <==> Contributors(g, visited, e, mergeCommits) != {})
      && (e in sorted ==>
            && |sorted[e]| == |Contributors(g, visited, e, mergeCommits)|
            && SortedAsc(sorted[e])
            && multiset(sorted[e]) == multiset(AuthorTimes(g, order, e, mergeCommits)))
    {
      GroupsMatchContributors(g, tips, mergeCommits, visited, order, times, e);
    }
  }

  /** Sorts every author's group ascending. */
  method SortEach(times: map<Email, seq<int>>) returns (sorted: map<Email, seq<int>>)
    ensures sorted.Keys == times.Keys
    ensures forall e :: e in times ==>
      |sorted[e]| == |times[e]| && SortedAsc(sorted[e]) && multiset(sorted[e]) == multiset(times[e])
  {
    sorted := times;
    var pending := times.Keys;
    while pending != {}
      invariant pending <= times.Keys && sorted.Keys == times.Keys
      invariant forall e :: e in pending ==> sorted[e] == times[e]
      invariant forall e :: e in times && e !in pending ==>
        |sorted[e]| == |times[e]| && SortedAsc(sorted[e]) && multiset(sorted[e]) == multiset(times[e])
      decreases pending
    {
      var e :| e in pending;
      sorted := sorted[e := SortTimes(sorted[e])];
      pending := pending - {e};
    }
  }

  /** The collector. `expanded` is the final visited set and `order` the
      order commits were expanded in; both are bookkeeping for the contract.
      The visited set is exactly the set of reachable commits, whatever the
      merge flag, and each is expanded once. An author has a group exactly
      when some expanded commit contributes to it; the group holds one time
      per such commit, those times and no others, sorted ascending. */
  method CommitTimesByAuthor(g: Graph, refs: seq<Reference>, branch: Option<string>, mergeCommits: bool)
    returns (timesByAuthor: map<Email, seq<int>>, ghost expanded: set<CommitId>, ghost order: seq<CommitId>)
    ensures expanded <= g.Keys
    ensures forall x :: x in expanded <==> Reachable(g, HeadTips(refs, branch), x)
    ensures Distinct(order) && InGraph(g, order) && Elements(order) == expanded
    ensures forall e :: e in timesByAuthor <==> Contributors(g, expanded, e, mergeCommits) != {}
    ensures forall e :: e in timesByAuthor ==>
      && |timesByAuthor[e]| == |Contributors(g, expanded, e, mergeCommits)|
      && SortedAsc(timesByAuthor[e])
      && multiset(timesByAuthor[e]) == multiset(AuthorTimes(g, order, e, mergeCommits))
    ensures expanded == ReachableSet(g, HeadTips(refs, branch))
    ensures forall e :: e in timesByAuthor ==>
      timesByAuthor[e] == CanonicalTimes(g, ReachableSet(g, HeadTips(refs, branch)), e, mergeCommits)
  {
    var tips := HeadTips(refs, branch);
    var visited, times;
    visited, order, times := WalkHeads(g, tips, mergeCommits);
    expanded := visited;
    WalkReachesExactly(g, tips, mergeCommits, visited, order, times);
    timesByAuthor := SortEach(times);
    SortedGroupsMatchContributors(g, tips, mergeCommits, visited, order, times, timesByAuthor);
    assert expanded == ReachableSet(g, tips);
    SortedGroupsCanonical(g, expanded, order, mergeCommits, timesByAuthor);
  }

  /** Walks from every head in turn, sharing one visited set and one map of
      groups across heads. */
  method WalkHeads(g: Graph, tips: seq<CommitId>, mergeCommits: bool)
    returns (visited: set<CommitId>, ghost order: seq<CommitId>, times: map<Email, seq<int>>)
    ensures WalkInvariant(g, tips, mergeCommits, visited, order, times)
    ensures ParentClosed(g, visited)
    ensures TipsMarked(g, tips, visited)
  {
    visited, order, times := {}, [], map[];
    for k := 0 to |tips|
      invariant WalkInvariant(g, tips, mergeCommits, visited, order, times)
      invariant ParentClosed(g, visited)
      invariant TipsMarked(g, tips[..k], visited)
    {
      ghost var before := visited;
      visited, order, times := WalkFromTip(g, tips, tips[k], mergeCommits, visited, order, times);
      TipsMarkedExtend(g, tips, k, before, visited);
    }
    assert tips[..|tips|] == tips;
  }
}
